/** The FastLZ wire format (src/navigation/fastlz.c).

    A compressed block denotes a sequence of LZ77 tokens.  This module gives the tokens their
    meaning (`Expand`), their wire encoding (`Encode`) and, independently of both, the grammar that
    reads tokens back from arbitrary bytes (`Parse`).  The compressor and the decompressor are
    proved against these definitions in FastLZCompressor and FastLZDecompressor. */
module FastLZFormat {
  import opened Options
  import Arithmetic

  type Byte = b: int | 0 <= b < 256

  datatype Level = One | Two

  const MAX_COPY := 32
  const MAX_LEN := 264
  const UINT32 := 0x1_0000_0000

  /** `Truncated` is a literal run whose bytes are cut off by the end of the input. */
  datatype Token =
    | Literal(bytes: seq<Byte>)
    | Match(len: nat, dist: nat)
    | Truncated

  /** MAX_DISTANCE: 8192 for level 1 and 8191 for level 2. */
  function MaxDistance(level: Level): nat {
    if level == One then 8192 else 8191
  }

  /** The first distance the compressor refuses: MAX_DISTANCE at level 1, MAX_FARDISTANCE at level 2. */
  function DistanceLimit(level: Level): nat {
    if level == One then MaxDistance(level) else 65535 + MaxDistance(level) - 1
  }

  // ---------------------------------------------------------------- meaning

  /** The byte at offset `i` of the periodic extension of the last `dist` bytes of `w`. */
  function PeriodicByte(w: seq<Byte>, dist: nat, i: nat): Byte
    requires 1 <= dist <= |w|
  {
    w[|w| - dist + i % dist]
  }

  lemma PeriodicByteBack(w: seq<Byte>, dist: nat, i: nat)
    requires 1 <= dist <= |w|
    ensures PeriodicByte(w, dist, i) == if i < dist then w[|w| - dist + i] else PeriodicByte(w, dist, i - dist)
  {
    if i < dist {
      assert i % dist == i;
    } else {
      Arithmetic.ModMinus(i, dist);
    }
  }

  /** The last `dist` bytes of `w`, repeated with period `dist` up to `len` bytes. */
  function Periodic(w: seq<Byte>, dist: nat, len: nat): (r: seq<Byte>)
    requires 1 <= dist <= |w|
    ensures |r| == len
  {
    seq(len, i requires 0 <= i < len => PeriodicByte(w, dist, i))
  }

  /** What one token appends to the output `w`; `None` when it does not fit or points too far back. */
  function Apply(w: seq<Byte>, t: Token, maxout: nat): (r: Option<seq<Byte>>)
    ensures r.Some? ==> |r.value| <= maxout && w <= r.value
  {
    match t
    case Literal(bytes) => if |w| + |bytes| > maxout then None else Some(w + bytes)
    case Match(len, dist) =>
      if |w| + len > maxout || dist > |w| || dist == 0 then None else Some(w + Periodic(w, dist, len))
    case Truncated => None
  }

  /** The output after executing `toks` on the output `w`. */
  function ExpandFrom(w: seq<Byte>, toks: seq<Token>, maxout: nat): (r: Option<seq<Byte>>)
    requires |w| <= maxout
    ensures r.Some? ==> |r.value| <= maxout && w <= r.value
    decreases |toks|
  {
    if toks == [] then Some(w)
    else
      match Apply(w, toks[0], maxout)
      case None => None
      case Some(w') => ExpandFrom(w', toks[1..], maxout)
  }

  function Expand(toks: seq<Token>, maxout: nat): (r: Option<seq<Byte>>)
    ensures r.Some? ==> |r.value| <= maxout
  {
    ExpandFrom([], toks, maxout)
  }

  lemma {:induction false} ExpandSnoc(w: seq<Byte>, toks: seq<Token>, t: Token, maxout: nat)
    requires |w| <= maxout
    ensures ExpandFrom(w, toks + [t], maxout) ==
            match ExpandFrom(w, toks, maxout) case None => None case Some(w') => Apply(w', t, maxout)
    decreases |toks|
  {
    if toks == [] {
      assert (toks + [t])[0] == t && (toks + [t])[1..] == [];
    } else {
      assert (toks + [t])[0] == toks[0] && (toks + [t])[1..] == toks[1..] + [t];
      match Apply(w, toks[0], maxout)
      case None =>
      case Some(w') => ExpandSnoc(w', toks[1..], t, maxout);
    }
  }

  /** A larger output limit does not change the meaning of a block that fits a smaller one. */
  lemma {:induction false} ExpandMonotonic(w: seq<Byte>, toks: seq<Token>, maxout: nat, more: nat)
    requires |w| <= maxout <= more && ExpandFrom(w, toks, maxout).Some?
    ensures ExpandFrom(w, toks, more) == ExpandFrom(w, toks, maxout)
    decreases |toks|
  {
    if toks != [] {
      ExpandMonotonic(Apply(w, toks[0], maxout).value, toks[1..], maxout, more);
    }
  }

  // ---------------------------------------------------------------- encoding

  predicate WellFormed(level: Level, t: Token) {
    match t
    case Literal(bytes) => 1 <= |bytes| <= MAX_COPY
    case Match(len, dist) =>
      && 3 <= len < UINT32
      && (level == One ==> len <= MAX_LEN)
      && 1 <= dist < DistanceLimit(level)
    case Truncated => false
  }

  predicate AllWellFormed(level: Level, toks: seq<Token>) {
    forall i :: 0 <= i < |toks| ==> WellFormed(level, toks[i])
  }

  /** Length extension: a 255 for every full 255, then the remainder. */
  function Extension(m: nat): (r: seq<Byte>)
    ensures |r| == m / 255 + 1
  {
    if m >= 255 then [255] + Extension(m - 255) else [m]
  }

  /** At level 1 the extension is a single byte. */
  function LengthBytes(level: Level, m: nat): (r: seq<Byte>)
    requires level == One ==> m <= 255
    ensures |r| >= 1
  {
    if level == One then [m] else Extension(m)
  }

  /** The control byte and the length bytes of a match; `l` is the length minus 2. */
  function MatchHead(level: Level, l: nat, low: nat): (r: seq<Byte>)
    requires 1 <= l && low < 32 && (level == One ==> l <= 262)
    ensures |r| >= 1 && r[0] >= 32
  {
    if l < 7 then [l * 32 + low] else [7 * 32 + low] + LengthBytes(level, l - 7)
  }

  function EncodeMatch(level: Level, len: nat, dist: nat): (r: seq<Byte>)
    requires WellFormed(level, Match(len, dist))
    ensures |r| >= 2 && r[0] >= 32
  {
    var l, d := len - 2, dist - 1;
    if level == One || d < MaxDistance(Two) then MatchHead(level, l, d / 256) + [d % 256]
    else
      var far := d - MaxDistance(Two);
      MatchHead(level, l, 31) + [255, far / 256, far % 256]
  }

  function EncodeToken(level: Level, t: Token): (r: seq<Byte>)
    requires WellFormed(level, t)
    ensures |r| >= 2
  {
    match t
    case Literal(bytes) => [|bytes| - 1] + bytes
    case Match(len, dist) => EncodeMatch(level, len, dist)
  }

  function Encode(level: Level, toks: seq<Token>): (r: seq<Byte>)
    requires AllWellFormed(level, toks)
    ensures |r| >= 2 * |toks|
  {
    if toks == [] then [] else EncodeToken(level, toks[0]) + Encode(level, toks[1..])
  }

  lemma {:induction false} EncodeSnoc(level: Level, toks: seq<Token>, t: Token)
    requires AllWellFormed(level, toks) && WellFormed(level, t)
    ensures AllWellFormed(level, toks + [t])
    ensures Encode(level, toks + [t]) == Encode(level, toks) + EncodeToken(level, t)
  {
    hide EncodeToken;
    if toks == [] {
      assert Encode(level, [t]) == EncodeToken(level, t) + Encode(level, []);
    } else {
      EncodeSnoc(level, toks[1..], t);
      assert (toks + [t])[1..] == toks[1..] + [t];
    }
  }

  // ---------------------------------------------------------------- grammar

  /** Reading past the end of the input yields zero. */
  function At(data: seq<Byte>, i: nat): Byte {
    if i < |data| then data[i] else 0
  }

  /** The control byte at `p`; the level marker in the first byte is masked off. */
  function ControlAt(data: seq<Byte>, p: nat): Byte {
    if p == 0 then At(data, 0) % 32 else At(data, p)
  }

  /** Sum of the bytes from `p` up to and including the first that is not 255, and the position after it. */
  function ReadExtension(data: seq<Byte>, p: nat): (r: (nat, nat))
    ensures r.1 > p
    decreases |data| - p
  {
    if At(data, p) == 255 then
      var (m, next) := ReadExtension(data, p + 1);
      (m + 255, next)
    else (At(data, p), p + 1)
  }

  /** The token whose control byte is at `p`, and the position after it. */
  function ParseToken(level: Level, data: seq<Byte>, p: nat): (r: (Token, nat))
    ensures r.1 > p
    ensures r.0.Literal? ==> |r.0.bytes| >= 1
    ensures r.0.Match? ==> r.0.len >= 3 && r.0.dist >= 1
  {
    var ctrl := ControlAt(data, p);
    if ctrl < 32 then
      if p + 1 + ctrl + 1 > |data| then (Truncated, p + 1)
      else (Literal(data[p + 1..p + 1 + ctrl + 1]), p + 1 + ctrl + 1)
    else
      var (ext, q) :=
        if ctrl / 32 < 7 then (0, p + 1)
        else if level == One then (At(data, p + 1), p + 2)
        else ReadExtension(data, p + 1);
      var len := (ctrl / 32 - 1 + ext) % UINT32 + 3;
      var code := At(data, q);
      if level == Two && code == 255 && ctrl % 32 == 31 then
        (Match(len, At(data, q + 1) * 256 + At(data, q + 2) + MaxDistance(Two) + 1), q + 3)
      else
        (Match(len, ctrl % 32 * 256 + code + 1), q + 1)
  }

  datatype Parsed = Parsed(toks: seq<Token>, end: nat)

  /** All tokens from `p` on.  Bytes are read in order, so no byte at or beyond `end` is read. */
  function Parse(level: Level, data: seq<Byte>, p: nat): (r: Parsed)
    ensures |r.toks| >= 1 && r.end > p
    decreases |data| - p
  {
    var (t, next) := ParseToken(level, data, p);
    if t.Truncated? || next >= |data| then Parsed([t], next)
    else
      var rest := Parse(level, data, next);
      Parsed([t] + rest.toks, rest.end)
  }

  /** The level named by the top three bits of the first byte. */
  function LevelOf(data: seq<Byte>): Option<Level> {
    if At(data, 0) / 32 == 0 then Some(One)
    else if At(data, 0) / 32 == 1 then Some(Two)
    else None
  }

  /** The bytes a compressed block stands for, when they fit `maxout`. */
  function Meaning(data: seq<Byte>, maxout: nat): Option<seq<Byte>> {
    match LevelOf(data)
    case None => None
    case Some(level) => Expand(Parse(level, data, 0).toks, maxout)
  }

  // ---------------------------------------------------------------- the grammar inverts the encoding

  lemma {:induction false} ReadExtensionOfExtension(m: nat, data: seq<Byte>, p: nat)
    requires p + m / 255 + 1 <= |data| && data[p..p + m / 255 + 1] == Extension(m)
    ensures ReadExtension(data, p) == (m, p + m / 255 + 1)
    decreases m
  {
    var e := Extension(m);
    assert data[p] == e[0];
    if m >= 255 {
      assert Extension(m - 255) == e[1..];
      assert data[p + 1..p + m / 255 + 1] == data[p..p + m / 255 + 1][1..];
      ReadExtensionOfExtension(m - 255, data, p + 1);
    }
  }

  lemma ParseEncodedLiteral(level: Level, bytes: seq<Byte>, data: seq<Byte>, p: nat)
    requires WellFormed(level, Literal(bytes))
    requires p + 1 + |bytes| <= |data| && ControlAt(data, p) == |bytes| - 1
    requires data[p + 1..p + 1 + |bytes|] == bytes
    ensures ParseToken(level, data, p) == (Literal(bytes), p + 1 + |bytes|)
  {
  }

  lemma ParseEncodedMatch(level: Level, len: nat, dist: nat, data: seq<Byte>, p: nat)
    requires WellFormed(level, Match(len, dist))
    requires p + |EncodeMatch(level, len, dist)| <= |data|
    requires ControlAt(data, p) == EncodeMatch(level, len, dist)[0]
    requires data[p + 1..p + |EncodeMatch(level, len, dist)|] == EncodeMatch(level, len, dist)[1..]
    ensures ParseToken(level, data, p) == (Match(len, dist), p + |EncodeMatch(level, len, dist)|)
  {
    var e := EncodeMatch(level, len, dist);
    var l := len - 2;
    forall i | 1 <= i < |e|
      ensures At(data, p + i) == e[i]
    {
      assert data[p + 1..p + |e|][i - 1] == e[1..][i - 1];
    }
    if l >= 7 {
      var x := LengthBytes(level, l - 7);
      assert data[p + 1..p + 1 + |x|] == x by {
        assert forall i :: 0 <= i < |x| ==> data[p + (1 + i)] == e[1 + i] == x[i];
      }
      ParseLongMatch(level, len, dist, data, p);
    } else {
      ParseShortMatch(level, len, dist, data, p);
    }
  }

  /** Behind its first byte `e` stands at `p`. */
  ghost predicate ReadsAs(data: seq<Byte>, p: nat, e: seq<Byte>) {
    forall i :: 1 <= i < |e| ==> At(data, p + i) == e[i]
  }

  lemma ReadsAt(data: seq<Byte>, p: nat, e: seq<Byte>, i: nat)
    requires ReadsAs(data, p, e) && 1 <= i < |e|
    ensures At(data, p + i) == e[i]
  {
  }

  lemma ParseShortMatch(level: Level, len: nat, dist: nat, data: seq<Byte>, p: nat)
    requires WellFormed(level, Match(len, dist)) && len < 9
    requires p + |EncodeMatch(level, len, dist)| <= |data|
    requires ControlAt(data, p) == EncodeMatch(level, len, dist)[0]
    requires ReadsAs(data, p, EncodeMatch(level, len, dist))
    ensures ParseToken(level, data, p) == (Match(len, dist), p + |EncodeMatch(level, len, dist)|)
  {
    var e, d := EncodeMatch(level, len, dist), dist - 1;
    assert At(data, p + 1) == e[1];
    if level == One || d < MaxDistance(Two) {
      assert ControlAt(data, p) / 32 == len - 2 && ControlAt(data, p) % 32 == d / 256;
    } else {
      assert At(data, p + 2) == e[2] && At(data, p + 3) == e[3];
      assert ControlAt(data, p) / 32 == len - 2 && ControlAt(data, p) % 32 == 31;
    }
  }

  lemma ParseLongMatch(level: Level, len: nat, dist: nat, data: seq<Byte>, p: nat)
    requires WellFormed(level, Match(len, dist)) && len >= 9
    requires p + |EncodeMatch(level, len, dist)| <= |data|
    requires ControlAt(data, p) == EncodeMatch(level, len, dist)[0]
    requires ReadsAs(data, p, EncodeMatch(level, len, dist))
    requires p + 1 + |LengthBytes(level, len - 9)| <= |data|
    requires data[p + 1..p + 1 + |LengthBytes(level, len - 9)|] == LengthBytes(level, len - 9)
    ensures ParseToken(level, data, p) == (Match(len, dist), p + |EncodeMatch(level, len, dist)|)
  {
    hide *;
    if level == One || dist - 1 < MaxDistance(Two) {
      ParseLongNearMatch(level, len, dist, data, p);
    } else {
      ParseLongFarMatch(level, len, dist, data, p);
    }
  }

  lemma ParseLongNearMatch(level: Level, len: nat, dist: nat, data: seq<Byte>, p: nat)
    requires WellFormed(level, Match(len, dist)) && len >= 9
    requires p + |EncodeMatch(level, len, dist)| <= |data|
    requires ControlAt(data, p) == EncodeMatch(level, len, dist)[0]
    requires ReadsAs(data, p, EncodeMatch(level, len, dist))
    requires p + 1 + |LengthBytes(level, len - 9)| <= |data|
    requires data[p + 1..p + 1 + |LengthBytes(level, len - 9)|] == LengthBytes(level, len - 9)
    requires level == One || dist - 1 < MaxDistance(Two)
    ensures ParseToken(level, data, p) == (Match(len, dist), p + |EncodeMatch(level, len, dist)|)
  {
    hide ParseToken, LengthBytes, Extension, ReadExtension, EncodeMatch, MatchHead, ReadsAs, ControlAt, At;
    var e, x := EncodeMatch(level, len, dist), LengthBytes(level, len - 9);
    ReadLengthBytes(level, len - 9, data, p + 1);
    LongMatchBytes(level, len, dist);
    ReadsAt(data, p, e, 1 + |x|);
    ParseLongNear(level, len, dist, data, p, p + 1 + |x|);
  }

  lemma ParseLongFarMatch(level: Level, len: nat, dist: nat, data: seq<Byte>, p: nat)
    requires WellFormed(level, Match(len, dist)) && len >= 9
    requires p + |EncodeMatch(level, len, dist)| <= |data|
    requires ControlAt(data, p) == EncodeMatch(level, len, dist)[0]
    requires ReadsAs(data, p, EncodeMatch(level, len, dist))
    requires p + 1 + |LengthBytes(level, len - 9)| <= |data|
    requires data[p + 1..p + 1 + |LengthBytes(level, len - 9)|] == LengthBytes(level, len - 9)
    requires level == Two && dist - 1 >= MaxDistance(Two)
    ensures ParseToken(level, data, p) == (Match(len, dist), p + |EncodeMatch(level, len, dist)|)
  {
    hide ParseToken, LengthBytes, Extension, ReadExtension, EncodeMatch, MatchHead, ReadsAs, ControlAt, At;
    var e, x := EncodeMatch(level, len, dist), LengthBytes(level, len - 9);
    ReadLengthBytes(level, len - 9, data, p + 1);
    LongMatchBytes(level, len, dist);
    ReadsAt(data, p, e, 1 + |x|);
    ReadsAt(data, p, e, 2 + |x|);
    ReadsAt(data, p, e, 3 + |x|);
    ParseLongFar(len, dist, data, p, p + 1 + |x|);
  }

  /** The bytes of a match of nine bytes or more around its length bytes. */
  lemma LongMatchBytes(level: Level, len: nat, dist: nat)
    requires WellFormed(level, Match(len, dist)) && len >= 9
    ensures var e, x, d := EncodeMatch(level, len, dist), LengthBytes(level, len - 9), dist - 1;
            && (level == One ==> |x| == 1)
            && if level == One || d < MaxDistance(Two) then
                 |e| == |x| + 2 && e[0] == 7 * 32 + d / 256 && e[1 + |x|] == d % 256
               else
                 var far := d - MaxDistance(Two);
                 && |e| == |x| + 4 && e[0] == 255 && e[1 + |x|] == 255
                 && e[2 + |x|] == far / 256 && e[3 + |x|] == far % 256
  {
    hide Extension;
  }

  /** The length bytes at `q`, one or as many as it takes. */
  lemma ReadLengthBytes(level: Level, m: nat, data: seq<Byte>, q: nat)
    requires (level == One ==> m <= 255) && q + |LengthBytes(level, m)| <= |data|
    requires data[q..q + |LengthBytes(level, m)|] == LengthBytes(level, m)
    ensures if level == One then At(data, q) == m else ReadExtension(data, q) == (m, q + |LengthBytes(level, m)|)
  {
    if level == One {
      assert At(data, q) == data[q..q + 1][0];
    } else {
      ReadExtensionOfExtension(m, data, q);
    }
  }

  /** A match of nine bytes or more whose distance byte is at `q`. */
  lemma ParseLongNear(level: Level, len: nat, dist: nat, data: seq<Byte>, p: nat, q: nat)
    requires 9 <= len < UINT32 && 1 <= dist && dist - 1 < MaxDistance(level) - (if level == One then 1 else 0)
    requires ControlAt(data, p) == 7 * 32 + (dist - 1) / 256 && At(data, q) == (dist - 1) % 256
    requires level == One ==> At(data, p + 1) == len - 9 && q == p + 2
    requires level == Two ==> ReadExtension(data, p + 1) == (len - 9, q)
    ensures ParseToken(level, data, p) == (Match(len, dist), q + 1)
  {
  }

  lemma ParseLongFar(len: nat, dist: nat, data: seq<Byte>, p: nat, q: nat)
    requires 9 <= len < UINT32 && MaxDistance(Two) < dist < DistanceLimit(Two)
    requires ControlAt(data, p) == 255 && At(data, q) == 255
    requires ReadExtension(data, p + 1) == (len - 9, q)
    requires At(data, q + 1) == (dist - 1 - MaxDistance(Two)) / 256 &&
             At(data, q + 2) == (dist - 1 - MaxDistance(Two)) % 256
    ensures ParseToken(Two, data, p) == (Match(len, dist), q + 3)
  {
  }

  lemma ParseEncodedToken(level: Level, t: Token, data: seq<Byte>, p: nat)
    requires WellFormed(level, t)
    requires p + |EncodeToken(level, t)| <= |data| && ControlAt(data, p) == EncodeToken(level, t)[0]
    requires data[p + 1..p + |EncodeToken(level, t)|] == EncodeToken(level, t)[1..]
    ensures ParseToken(level, data, p) == (t, p + |EncodeToken(level, t)|)
  {
    hide ParseToken, EncodeMatch;
    match t
    case Literal(bytes) => ParseEncodedLiteral(level, bytes, data, p);
    case Match(len, dist) => ParseEncodedMatch(level, len, dist, data, p);
  }

  lemma SplitAt(data: seq<Byte>, p: nat, e: seq<Byte>, rest: seq<Byte>)
    requires p <= |data| && data[p..] == e + rest && e != []
    ensures p + |e| <= |data| && data[p] == e[0]
    ensures data[p + 1..p + |e|] == e[1..] && data[p + |e|..] == rest
  {
    var d := data[p..];
    assert d[0] == e[0] && d[1..|e|] == e[1..] && d[|e|..] == rest;
  }

  lemma ParseCons(level: Level, data: seq<Byte>, p: nat, t: Token, next: nat)
    requires ParseToken(level, data, p) == (t, next) && !t.Truncated?
    ensures next >= |data| ==> Parse(level, data, p) == Parsed([t], next)
    ensures next < |data| ==>
              var rest := Parse(level, data, next);
              Parse(level, data, p) == Parsed([t] + rest.toks, rest.end)
  {
    hide ParseToken;
  }

  lemma EncodeCons(level: Level, t: Token, rest: seq<Token>)
    requires AllWellFormed(level, [t] + rest)
    ensures WellFormed(level, t) && !t.Truncated? && AllWellFormed(level, rest)
    ensures Encode(level, [t] + rest) == EncodeToken(level, t) + Encode(level, rest)
  {
    assert ([t] + rest)[0] == t && ([t] + rest)[1..] == rest;
    assert WellFormed(level, ([t] + rest)[0]);
    forall i | 0 <= i < |rest|
      ensures WellFormed(level, rest[i])
    {
      assert ([t] + rest)[i + 1] == rest[i];
    }
  }

  lemma ParseEncodedHead(level: Level, t: Token, rest: seq<Byte>, data: seq<Byte>, p: nat)
    requires WellFormed(level, t)
    requires 0 < p <= |data| && data[p..] == EncodeToken(level, t) + rest
    ensures var next := p + |EncodeToken(level, t)|;
            next <= |data| && data[next..] == rest && ParseToken(level, data, p) == (t, next)
  {
    hide ParseToken, EncodeToken, WellFormed;
    SplitAt(data, p, EncodeToken(level, t), rest);
    ParseEncodedToken(level, t, data, p);
  }

  /** Inside a block (past the marked first byte) the encoding of a token list is read back exactly. */
  lemma {:induction false} ParseEncodedFrom(level: Level, toks: seq<Token>, data: seq<Byte>, p: nat)
    requires AllWellFormed(level, toks) && toks != []
    requires 0 < p <= |data| && data[p..] == Encode(level, toks)
    ensures Parse(level, data, p) == Parsed(toks, |data|)
    decreases |toks|
  {
    var next := ParseEncodedFirst(level, toks, data, p);
    hide *;
    assert toks == [toks[0]] + toks[1..];
    if next < |data| {
      ParseEncodedFrom(level, toks[1..], data, next);
    }
  }

  /** The first token is read back, and the encoding of the others follows it. */
  lemma ParseEncodedFirst(level: Level, toks: seq<Token>, data: seq<Byte>, p: nat) returns (next: nat)
    requires AllWellFormed(level, toks) && toks != []
    requires 0 < p <= |data| && data[p..] == Encode(level, toks)
    ensures p < next <= |data| && (next < |data| <==> toks[1..] != []) && AllWellFormed(level, toks[1..])
    ensures data[next..] == Encode(level, toks[1..])
    ensures next == |data| ==> Parse(level, data, p) == Parsed([toks[0]], next)
    ensures next < |data| ==>
              Parse(level, data, p) == Parsed([toks[0]] + Parse(level, data, next).toks, Parse(level, data, next).end)
  {
    hide ParseToken, EncodeToken, WellFormed, AllWellFormed, Encode, Parse;
    var t, rest := toks[0], toks[1..];
    assert toks == [t] + rest;
    EncodeCons(level, t, rest);
    ParseEncodedHead(level, t, Encode(level, rest), data, p);
    next := p + |EncodeToken(level, t)|;
    ParseCons(level, data, p, t, next);
    if rest == [] {
      EncodeEmpty(level);
      assert |data[next..]| == 0;
    }
  }

  lemma EncodeEmpty(level: Level)
    ensures Encode(level, []) == []
  {
  }

  /** The bytes of `data` are those of `enc`, except that the first may carry a level marker. */
  predicate SameUpToMarker(data: seq<Byte>, enc: seq<Byte>) {
    && |data| == |enc| && enc != []
    && data[0] % 32 == enc[0] % 32
    && data[1..] == enc[1..]
  }

  lemma SplitMarked(data: seq<Byte>, e: seq<Byte>, rest: seq<Byte>)
    requires SameUpToMarker(data, e + rest) && e != []
    ensures data[1..|e|] == e[1..] && data[|e|..] == rest
  {
    var d := data[1..];
    assert d == e[1..] + rest;
    assert d[..|e| - 1] == e[1..] && d[|e| - 1..] == rest;
  }

  /** Reading an encoded block gives its tokens back and consumes exactly its bytes. */
  lemma ParseEncode(level: Level, toks: seq<Token>, data: seq<Byte>)
    requires toks != [] && AllWellFormed(level, toks) && toks[0].Literal?
    requires SameUpToMarker(data, Encode(level, toks))
    ensures Parse(level, data, 0) == Parsed(toks, |data|)
  {
    var t, rest := toks[0], toks[1..];
    assert toks == [t] + rest;
    EncodeCons(level, t, rest);
    var e := EncodeToken(level, t);
    assert e[0] < 32;
    hide ParseToken, EncodeToken, WellFormed, AllWellFormed, Encode, Parse;
    SplitMarked(data, e, Encode(level, rest));
    ParseEncodedToken(level, t, data, 0);
    ParseCons(level, data, 0, t, |e|);
    if rest != [] {
      ParseEncodedFrom(level, rest, data, |e|);
    } else {
      EncodeEmpty(level);
    }
  }
}
