/** The FastLZ compressor (src/navigation/fastlz.c, lines 130-138, 154-162 and 166-418).

    While it runs, the output is the encoding of the closed tokens, a provisional literal header
    (31), and the literals of the open run; `Pending` says so, together with the size bound.
    The hash is an arbitrary function of the position: it only picks a table slot, so the block stands for the input
    whichever one it is.  What the search finds with a hash of the three bytes there, and how small the block is
    then, is proved in FastLZSearch. */
module FastLZCompressor {
  import opened Options
  import opened FastLZFormat
  import opened FastLZSearch

  /** `data` is a complete block that stands for `input`: every byte of it is read and none beyond. */
  ghost predicate BlockFor(data: seq<Byte>, input: seq<Byte>) {
    && data != [] && LevelOf(data).Some?
    && Parse(LevelOf(data).value, data, 0).end == |data|
    && forall maxout :: maxout >= |input| ==> Meaning(data, maxout) == Some(input)
  }

  // ---------------------------------------------------------------- the state of a run

  /** `w` encodes `toks`, which stand for `consumed`; the size exceeds 33/32 of that by at most `slack` 32nds. */
  ghost predicate Settled(level: Level, toks: seq<Token>, w: seq<Byte>, consumed: seq<Byte>, slack: nat, n: nat) {
    && AllWellFormed(level, toks) && (toks != [] ==> toks[0].Literal?)
    && Encode(level, toks) == w
    && Expand(toks, n) == Some(consumed)
    && 32 * |w| <= 33 * |consumed| + slack
  }

  /** A settled part and the literals of the open run after it. */
  datatype Open = Open(toks: seq<Token>, head: seq<Byte>, done: seq<Byte>, lits: seq<Byte>)

  /** `w` is the output while the run of literals `s.lits` is open. */
  ghost predicate Pending(level: Level, s: Open, w: seq<Byte>, consumed: seq<Byte>, n: nat) {
    && Settled(level, s.toks, s.head, s.done, 0, n)
    && |s.lits| < MAX_COPY && (s.toks == [] ==> s.lits != [])
    && consumed == s.done + s.lits && |consumed| <= n
    && w == s.head + ([MAX_COPY - 1] + s.lits)
  }

  /** At every moment at most consumed + consumed/32 + 1 bytes have been written. */
  lemma PendingSize(level: Level, s: Open, w: seq<Byte>, consumed: seq<Byte>, n: nat)
    requires Pending(level, s, w, consumed, n)
    ensures |w| <= SizeBound(|consumed|)
    ensures |s.lits| + 1 == MAX_COPY ==> |w| + 2 <= SizeBound(|consumed| + 1)
  {
    hide Encode, Expand, AllWellFormed;
  }

  /** Appending a token to settled output. */
  lemma SettledSnoc(level: Level, toks: seq<Token>, w: seq<Byte>, consumed: seq<Byte>, slack: nat, n: nat,
                    t: Token, more: seq<Byte>, slack': nat)
    requires Settled(level, toks, w, consumed, slack, n)
    requires WellFormed(level, t) && (toks == [] ==> t.Literal?)
    requires Apply(consumed, t, n) == Some(consumed + more)
    requires 32 * |EncodeToken(level, t)| + slack <= 33 * |more| + slack'
    ensures Settled(level, toks + [t], w + EncodeToken(level, t), consumed + more, slack', n)
  {
    EncodeSnoc(level, toks, t);
    ExpandSnoc([], toks, t, n);
    hide Encode, ExpandFrom, Apply, EncodeToken;
    assert toks != [] ==> (toks + [t])[0] == toks[0];
  }

  /** The open run after one more literal `b`: a full run is closed. */
  function WithLiteral(s: Open, b: Byte): Open {
    if |s.lits| + 1 < MAX_COPY then s.(lits := s.lits + [b])
    else
      var lits := s.lits + [b];
      Open(s.toks + [Literal(lits)], s.head + ([MAX_COPY - 1] + lits), s.done + lits, [])
  }

  lemma PendingLiteral(level: Level, s: Open, w: seq<Byte>, consumed: seq<Byte>, n: nat, b: Byte)
    requires Pending(level, s, w, consumed, n) && |consumed| < n
    ensures Pending(level, WithLiteral(s, b), if |s.lits| + 1 < MAX_COPY then w + [b] else w + [b] + [MAX_COPY - 1],
                    consumed + [b], n)
  {
    var lits := s.lits + [b];
    assert w + [b] == s.head + ([MAX_COPY - 1] + lits) && consumed + [b] == s.done + lits;
    if |s.lits| + 1 == MAX_COPY {
      SettledSnoc(level, s.toks, s.head, s.done, 0, n, Literal(lits), lits, 0);
    }
    hide Settled;
    assert s.done + lits == (s.done + lits) + [] && [MAX_COPY - 1] == [MAX_COPY - 1] + [];
  }

  /** The tokens once the open run is closed. */
  function ClosedTokens(s: Open): seq<Token> {
    if s.lits == [] then s.toks else s.toks + [Literal(s.lits)]
  }

  /** The output once the open run is closed: its header is patched, or dropped when the run is empty. */
  function ClosedOutput(s: Open): seq<Byte>
    requires |s.lits| < MAX_COPY
  {
    if s.lits == [] then s.head else s.head + ([|s.lits| - 1] + s.lits)
  }

  lemma PendingClose(level: Level, s: Open, w: seq<Byte>, consumed: seq<Byte>, n: nat)
    requires Pending(level, s, w, consumed, n)
    ensures ClosedTokens(s) != []
    ensures Settled(level, ClosedTokens(s), ClosedOutput(s), consumed, 32, n)
  {
    SettledSlack(level, s.toks, s.head, s.done, n);
    if s.lits == [] {
      assert consumed == s.done;
    } else {
      SettledSnoc(level, s.toks, s.head, s.done, 0, n, Literal(s.lits), s.lits, 32);
    }
    hide Settled;
  }

  lemma SettledSlack(level: Level, toks: seq<Token>, w: seq<Byte>, consumed: seq<Byte>, n: nat)
    requires Settled(level, toks, w, consumed, 0, n)
    ensures Settled(level, toks, w, consumed, 32, n)
  {
  }

  lemma PendingReopen(level: Level, toks: seq<Token>, w: seq<Byte>, consumed: seq<Byte>, n: nat)
    requires Settled(level, toks, w, consumed, 0, n) && toks != [] && |consumed| <= n
    ensures Pending(level, Open(toks, w, consumed, []), w + [MAX_COPY - 1], consumed, n)
  {
    hide Settled;
    assert consumed + [] == consumed && [MAX_COPY - 1] + [] == [MAX_COPY - 1];
  }

  /** A match always takes fewer bytes than it stands for; a far one needs five bytes for that. */
  lemma {:induction false} MatchIsShorter(level: Level, len: nat, dist: nat)
    requires WellFormed(level, Match(len, dist)) && (dist > MaxDistance(Two) && level == Two ==> len >= 5)
    ensures |EncodeMatch(level, len, dist)| <= len - 1
  {
  }

  lemma {:induction false} RepeatsPeriodic(input: seq<Byte>, a: nat, b: nat, dist: nat, i: nat)
    requires 1 <= dist <= a && a + i < b <= |input| && Repeats(input, a, b, dist)
    ensures input[a + i] == PeriodicByte(input[..a], dist, i)
    decreases i
  {
    PeriodicByteBack(input[..a], dist, i);
    hide PeriodicByte;
    if i >= dist {
      RepeatsPeriodic(input, a, b, dist, i - dist);
    }
  }

  lemma SettledMatch(level: Level, toks: seq<Token>, w: seq<Byte>, input: seq<Byte>, a: nat, len: nat, dist: nat)
    requires a + len <= |input| && Settled(level, toks, w, input[..a], 32, |input|) && toks != []
    requires WellFormed(level, Match(len, dist)) && dist <= a && (dist > MaxDistance(Two) && level == Two ==> len >= 5)
    requires Repeats(input, a, a + len, dist)
    ensures Settled(level, toks + [Match(len, dist)], w + EncodeMatch(level, len, dist), input[..a + len], 0, |input|)
  {
    var more := input[a..a + len];
    forall i | 0 <= i < len
      ensures more[i] == PeriodicByte(input[..a], dist, i)
    {
      RepeatsPeriodic(input, a, a + len, dist, i);
    }
    assert more == Periodic(input[..a], dist, len);
    assert input[..a] + more == input[..a + len];
    MatchIsShorter(level, len, dist);
    SettledSnoc(level, toks, w, input[..a], 32, |input|, Match(len, dist), more, 0);
  }

  // ---------------------------------------------------------------- the compressor

  /** `*op++ = b` */
  method Put(output: array<Byte>, start: nat, b: Byte) returns (op: nat)
    requires start < output.Length
    modifies output
    ensures op == start + 1
    ensures output[..op] == old(output[..start]) + [b]
    ensures forall i :: op <= i < output.Length ==> output[i] == old(output[i])
  {
    output[start] := b;
    op := start + 1;
  }

  method PutExtension(output: array<Byte>, start: nat, m: nat) returns (op: nat)
    requires start + m / 255 + 1 <= output.Length
    modifies output
    ensures op == start + m / 255 + 1
    ensures output[..op] == old(output[..start]) + Extension(m)
    ensures forall i :: op <= i < output.Length ==> output[i] == old(output[i])
  {
    op := start;
    var len := m;
    while len >= 255
      invariant start <= op && op + len / 255 == start + m / 255
      invariant output[..op] + Extension(len) == old(output[..start]) + Extension(m)
      invariant forall i :: op <= i < output.Length ==> output[i] == old(output[i])
    {
      ghost var w := output[..op];
      assert w + Extension(len) == (w + [255]) + Extension(len - 255);
      op := Put(output, op, 255);
      len := len - 255;
    }
    op := Put(output, op, len);
  }

  method PutLength(level: Level, output: array<Byte>, start: nat, m: nat) returns (op: nat)
    requires level == One ==> m <= 255
    requires start + |LengthBytes(level, m)| <= output.Length
    modifies output
    ensures op == start + |LengthBytes(level, m)|
    ensures output[..op] == old(output[..start]) + LengthBytes(level, m)
    ensures forall i :: op <= i < output.Length ==> output[i] == old(output[i])
  {
    if level == One {
      op := Put(output, start, m);
    } else {
      op := PutExtension(output, start, m);
    }
  }

  method PutHead(level: Level, output: array<Byte>, start: nat, len: nat, low: nat) returns (op: nat)
    requires 1 <= len && low < 32 && (level == One ==> len <= 262)
    requires start + |MatchHead(level, len, low)| <= output.Length
    modifies output
    ensures op == start + |MatchHead(level, len, low)|
    ensures output[..op] == old(output[..start]) + MatchHead(level, len, low)
    ensures forall i :: op <= i < output.Length ==> output[i] == old(output[i])
  {
    hide LengthBytes;
    if len < 7 {
      op := Put(output, start, len * 32 + low);
    } else {
      op := Put(output, start, 7 * 32 + low);
      op := PutLength(level, output, op, len - 7);
    }
  }

  /** Writes one match; `len` and `distance` are biased (match length minus 2, distance minus 1). */
  method PutMatch(level: Level, output: array<Byte>, start: nat, len: nat, distance: nat) returns (op: nat)
    requires WellFormed(level, Match(len + 2, distance + 1))
    requires start + |EncodeMatch(level, len + 2, distance + 1)| <= output.Length
    modifies output
    ensures op == start + |EncodeMatch(level, len + 2, distance + 1)|
    ensures output[..op] == old(output[..start]) + EncodeMatch(level, len + 2, distance + 1)
    ensures forall i :: op <= i < output.Length ==> output[i] == old(output[i])
  {
    hide MatchHead;
    if level == One || distance < MaxDistance(Two) {
      op := PutHead(level, output, start, len, distance / 256);
      op := Put(output, op, distance % 256);
    } else {
      var far := distance - MaxDistance(Two);
      op := PutHead(level, output, start, len, 31);
      op := Put(output, op, 255);
      op := Put(output, op, far / 256);
      op := Put(output, op, far % 256);
    }
  }

  /** Looks for a match at `ip`: a run (level 2 only), or the candidate in the hash slot. */
  method FindMatch(level: Level, input: seq<Byte>, ip: nat, htab: array<nat>, hash: nat -> nat)
    returns (found: bool, len: nat, dist: nat)
    requires htab.Length == HASH_SIZE && forall p :: hash(p) < HASH_SIZE
    requires 2 <= ip && ip + 12 < |input|
    requires forall i :: 0 <= i < HASH_SIZE ==> htab[i] < ip
    modifies htab
    ensures forall i :: 0 <= i < HASH_SIZE ==> htab[i] <= ip
    ensures found ==> 1 <= dist <= ip && dist < DistanceLimit(level) && 3 <= len <= 5
    ensures found ==> Repeats(input, ip, ip + len, dist)
    ensures found && level == Two && dist >= MaxDistance(Two) ==> len == 5
    ensures RunAt(level, input, ip) ==> found && len == 3 && dist == 1 && htab[..] == old(htab[..])
    ensures !RunAt(level, input, ip) ==>
              && htab[..] == old(htab[..])[hash(ip) := ip]
              && (found <==> MatchAt(level, input, ip, ip - old(htab[hash(ip)])))
              && (found ==> dist == ip - old(htab[hash(ip)]) && len == MatchLength(level, dist))
  {
    found, len := false, 3;
    if level == Two && input[ip] == input[ip - 1] && input[ip - 1] == input[ip + 1] && input[ip] == input[ip + 2] {
      return true, 3, 1;
    }
    var hval := hash(ip);
    var ref := htab[hval];
    dist := ip - ref;
    htab[hval] := ip;
    if dist == 0 || dist >= DistanceLimit(level) {
      return;
    }
    if input[ref] != input[ip] || input[ref + 1] != input[ip + 1] || input[ref + 2] != input[ip + 2] {
      return;
    }
    if level == Two && dist >= MaxDistance(Two) {
      if input[ip + 3] != input[ref + 3] || input[ip + 4] != input[ref + 4] {
        return;
      }
      len := len + 2;
    }
    found := true;
  }

  /** Extends a match of `len` bytes at `anchor`; up to one byte before the result the match holds, and there
      it ends unless the end of the input is near. */
  method ExtendMatch(input: seq<Byte>, anchor: nat, len: nat, dist: nat) returns (ip: nat)
    requires 3 <= len <= 5 && anchor + 12 < |input| && 1 <= dist <= anchor
    requires Repeats(input, anchor, anchor + len, dist)
    ensures anchor + len + 1 <= ip <= |input|
    ensures Repeats(input, anchor, ip - 1, dist)
    ensures ip < |input| - 2 ==> input[ip - 1] != input[ip - 1 - dist]
  {
    if dist == 1 {
      ip := ExtendRun(input, anchor, len);
    } else {
      ip := ExtendCopy(input, anchor, len, dist);
    }
  }

  /** Extends a run of one byte. */
  method ExtendRun(input: seq<Byte>, anchor: nat, len: nat) returns (ip: nat)
    requires 3 <= len <= 5 && 1 <= anchor && anchor + 12 < |input|
    requires Repeats(input, anchor, anchor + len, 1)
    ensures anchor + len + 1 <= ip <= |input|
    ensures Repeats(input, anchor, ip - 1, 1)
    ensures ip < |input| - 2 ==> input[ip - 1] != input[ip - 2]
  {
    var bound := |input| - 2;
    ip := anchor + len;
    var ref, x := ip - 1, input[ip - 1];
    while ip < bound
      invariant anchor + len <= ip <= bound && ref == ip - 1
      invariant ip == anchor + len ==> input[ip - 1] == x
      invariant ip > anchor + len ==> Repeats(input, anchor, ip - 1, 1) && input[ip - 2] == x
    {
      if input[ref] != x {
        return;
      }
      ref, ip := ref + 1, ip + 1;
    }
  }

  /** Extends a match at a greater distance: eight bytes first, then up to the bound. */
  method ExtendCopy(input: seq<Byte>, anchor: nat, len: nat, dist: nat) returns (ip: nat)
    requires 3 <= len <= 5 && anchor + 12 < |input| && 1 <= dist <= anchor
    requires Repeats(input, anchor, anchor + len, dist)
    ensures anchor + len + 1 <= ip <= |input|
    ensures Repeats(input, anchor, ip - 1, dist)
    ensures ip < |input| - 2 ==> input[ip - 1] != input[ip - 1 - dist]
  {
    var bound := |input| - 2;
    ip := anchor + len;
    var ref, equal, k := ip - dist, true, 0;
    while k < 8 && equal
      invariant k <= 8 && ip == anchor + len + k && ref == ip - dist
      invariant if equal then Repeats(input, anchor, ip, dist)
                else k >= 1 && Repeats(input, anchor, ip - 1, dist) && input[ip - 1] != input[ip - 1 - dist]
      decreases 8 - k
    {
      equal := input[ref] == input[ip];
      ref, ip, k := ref + 1, ip + 1, k + 1;
    }
    while ip < bound && equal
      invariant anchor + len + 1 <= ip <= |input| && ref == ip - dist
      invariant if equal then Repeats(input, anchor, ip, dist)
                else Repeats(input, anchor, ip - 1, dist) && input[ip - 1] != input[ip - 1 - dist]
      decreases |input| - ip
    {
      equal := input[ref] == input[ip];
      ref, ip := ref + 1, ip + 1;
    }
  }

  /** Appends one literal to the open run; a full run is closed and a new header started. */
  method PutLiteral(level: Level, ghost s: Open, output: array<Byte>, start: nat, copy: nat,
                    b: Byte, ghost consumed: seq<Byte>, ghost n: nat)
    returns (op: nat, copy': nat, ghost s': Open)
    requires start <= output.Length && |consumed| < n && SizeBound(|consumed| + 1) <= output.Length
    requires Pending(level, s, output[..start], consumed, n) && copy == |s.lits|
    modifies output
    ensures start < op <= SizeBound(|consumed| + 1)
    ensures Pending(level, s', output[..op], consumed + [b], n) && copy' == |s'.lits|
    ensures s' == WithLiteral(s, b) && op == start + 1 + (copy + 1) / MAX_COPY && copy' == (copy + 1) % MAX_COPY
    ensures forall i :: op <= i < output.Length ==> output[i] == old(output[i])
  {
    assert copy < MAX_COPY;
    hide Pending;
    PendingLiteral(level, s, output[..start], consumed, n, b);
    PendingSize(level, s, output[..start], consumed, n);
    s' := WithLiteral(s, b);
    op := Put(output, start, b);
    copy' := copy + 1;
    if copy' == MAX_COPY {
      copy' := 0;
      op := Put(output, op, MAX_COPY - 1);
    }
  }

  /** Closes the open run: patch its header, or step back over it when it is empty. */
  method CloseRun(level: Level, ghost s: Open, output: array<Byte>, start: nat, copy: nat,
                  ghost consumed: seq<Byte>, ghost n: nat)
    returns (op: nat, ghost toks': seq<Token>)
    requires start <= output.Length && Pending(level, s, output[..start], consumed, n) && copy == |s.lits|
    modifies output
    ensures op == (if copy == 0 then start - 1 else start) && toks' != [] && |consumed| <= n && toks' == ClosedTokens(s)
    ensures Settled(level, toks', output[..op], consumed, 32, n)
    ensures forall i :: start <= i < output.Length ==> output[i] == old(output[i])
  {
    PendingClose(level, s, output[..start], consumed, n);
    hide Settled;
    toks' := ClosedTokens(s);
    assert start == |s.head| + 1 + copy && output[..start] == s.head + ([MAX_COPY - 1] + s.lits);
    if copy != 0 {
      output[start - copy - 1] := copy - 1;
      op := start;
    } else {
      op := start - 1;
    }
    assert output[..op] == ClosedOutput(s);
  }

  lemma SettledBounds(level: Level, toks: seq<Token>, w: seq<Byte>, consumed: seq<Byte>, n: nat)
    requires Settled(level, toks, w, consumed, 32, n)
    ensures |w| <= SizeBound(|consumed|)
  {
    hide Encode, Expand, AllWellFormed;
  }

  /** The tokens of a match: level 1 splits off pieces of 262 bytes while more than 264 are left. */
  function Pieces(level: Level, total: nat, dist: nat): seq<Token> {
    if level == One && total > MAX_LEN then [Match(MAX_LEN - 2, dist)] + Pieces(level, total - (MAX_LEN - 2), dist)
    else [Match(total, dist)]
  }

  lemma LastPiece(level: Level, total: nat, dist: nat)
    requires level == One ==> total <= MAX_LEN
    ensures Pieces(level, total, dist) == [Match(total, dist)]
  {
  }

  lemma PiecesNext(toks: seq<Token>, total: nat, dist: nat)
    requires total > MAX_LEN
    ensures toks + Pieces(One, total, dist) ==
            (toks + [Match(MAX_LEN - 2, dist)]) + Pieces(One, total - (MAX_LEN - 2), dist)
  {
  }

  /** Encodes one piece of a match, of `len + 2` bytes at `a`; both numbers are biased. */
  method PutPiece(level: Level, ghost toks: seq<Token>, output: array<Byte>, start: nat,
                  input: seq<Byte>, ghost a: nat, len: nat, distance: nat) returns (op: nat)
    requires WellFormed(level, Match(len + 2, distance + 1)) && a + len + 2 <= |input| && distance < a
    requires level == Two && distance >= MaxDistance(Two) ==> len >= 3
    requires Repeats(input, a, a + len + 2, distance + 1)
    requires start <= output.Length && SizeBound(a + len + 2) <= output.Length
    requires toks != [] && Settled(level, toks, output[..start], input[..a], 32, |input|)
    modifies output
    ensures start < op <= output.Length && op == start + |EncodeMatch(level, len + 2, distance + 1)|
    ensures Settled(level, toks + [Match(len + 2, distance + 1)], output[..op], input[..a + len + 2], 0, |input|)
    ensures forall i :: op <= i < output.Length ==> output[i] == old(output[i])
  {
    hide Settled, EncodeMatch;
    ghost var w, t := output[..start], Match(len + 2, distance + 1);
    ghost var e := EncodeMatch(level, len + 2, distance + 1);
    SettledMatch(level, toks, w, input, a, len + 2, distance + 1);
    SettledSlack(level, toks + [t], w + e, input[..a + len + 2], |input|);
    SettledBounds(level, toks + [t], w + e, input[..a + len + 2], |input|);
    op := PutMatch(level, output, start, len, distance);
  }

  /** The size of one piece. */
  lemma PieceSize(level: Level, len: nat, dist: nat)
    requires WellFormed(level, Match(len, dist))
    ensures |EncodeMatch(level, len, dist)| ==
            (if len < 9 then 2 else if level == One then 3 else (len - 9) / 255 + 3)
            + (if level == Two && dist > MaxDistance(Two) then 2 else 0)
  {
  }

  lemma PiecesCost(level: Level, before: nat, last: nat, dist: nat)
    requires before % 262 == 0 && last >= 3 && (level == One ==> last <= MAX_LEN) && (level == Two ==> before == 0)
    ensures 3 * (before / 262) + (if last < 9 then 2 else if level == One then 3 else (last - 9) / 255 + 3)
            + (if level == Two && dist > MaxDistance(Two) then 2 else 0) <= MatchCost(level, before + last, dist)
  {
  }

  lemma RepeatsPart(input: seq<Byte>, a: nat, b: nat, c: nat, d: nat, dist: nat)
    requires 1 <= dist <= a <= b <= c <= d <= |input| && Repeats(input, a, d, dist)
    ensures Repeats(input, b, c, dist)
  {
  }

  /** Encodes pieces of 262 bytes from `a` while more than 264 bytes are left. */
  method PutFullPieces(ghost toks: seq<Token>, output: array<Byte>, start: nat,
                       input: seq<Byte>, ghost a: nat, total: nat, dist: nat)
    returns (op: nat, left: nat, ghost toks': seq<Token>)
    requires 3 <= total && a + total <= |input| && 1 <= dist <= a && dist < DistanceLimit(One)
    requires Repeats(input, a, a + total, dist)
    requires start <= output.Length && SizeBound(a + total) <= output.Length
    requires toks != [] && Settled(One, toks, output[..start], input[..a], 32, |input|)
    modifies output
    ensures 3 <= left <= MAX_LEN && left <= total && (total - left) % 262 == 0
    ensures op == start + 3 * ((total - left) / 262) && op <= output.Length
    ensures toks' != [] && toks' + Pieces(One, left, dist) == toks + Pieces(One, total, dist)
    ensures Settled(One, toks', output[..op], input[..a + total - left], 32, |input|)
    ensures forall i :: op <= i < output.Length ==> output[i] == old(output[i])
  {
    hide Settled, EncodeMatch, Pieces, Repeats, WellFormed, SizeBound;
    op, left, toks' := start, total, toks;
    while left > MAX_LEN
      invariant 3 <= left <= total && (total - left) % 262 == 0 && op == start + 3 * ((total - left) / 262)
      invariant op <= output.Length && toks' != []
      invariant Settled(One, toks', output[..op], input[..a + total - left], 32, |input|)
      invariant toks' + Pieces(One, left, dist) == toks + Pieces(One, total, dist)
      invariant forall i :: op <= i < output.Length ==> output[i] == old(output[i])
    {
      ghost var at: nat := a + total - left;
      PiecesNext(toks', left, dist);
      FullPiece(input, a, at, total, dist);
      op := PutPiece(One, toks', output, op, input, at, MAX_LEN - 2 - 2, dist - 1);
      toks' := toks' + [Match(MAX_LEN - 2, dist)];
      SettledSlack(One, toks', output[..op], input[..at + 262], |input|);
      left := left - (MAX_LEN - 2);
    }
  }

  lemma FullPiece(input: seq<Byte>, a: nat, at: nat, total: nat, dist: nat)
    requires a <= at && at + MAX_LEN < a + total <= |input| && 1 <= dist <= a && dist < DistanceLimit(One)
    requires Repeats(input, a, a + total, dist)
    ensures WellFormed(One, Match(MAX_LEN - 2, dist)) && |EncodeMatch(One, MAX_LEN - 2, dist)| == 3
    ensures Repeats(input, at, at + MAX_LEN - 2, dist) && SizeBound(at + MAX_LEN - 2) <= SizeBound(a + total)
  {
    PieceSize(One, MAX_LEN - 2, dist);
    hide EncodeMatch;
  }

  /** Encodes the match of `total` bytes at `a`. */
  method PutMatchPieces(level: Level, ghost toks: seq<Token>, output: array<Byte>, start: nat,
                        input: seq<Byte>, ghost a: nat, total: nat, dist: nat)
    returns (op: nat, ghost toks': seq<Token>)
    requires |input| < 0x8000_0000
    requires 3 <= total && a + total <= |input| && 1 <= dist <= a && dist < DistanceLimit(level)
    requires level == Two && dist > MaxDistance(Two) ==> total >= 5
    requires Repeats(input, a, a + total, dist)
    requires start <= output.Length && SizeBound(a + total) <= output.Length
    requires toks != [] && Settled(level, toks, output[..start], input[..a], 32, |input|)
    modifies output
    ensures start < op <= output.Length && toks' == toks + Pieces(level, total, dist)
    ensures op <= start + MatchCost(level, total, dist)
    ensures Settled(level, toks', output[..op], input[..a + total], 0, |input|)
    ensures forall i :: op <= i < output.Length ==> output[i] == old(output[i])
  {
    hide Settled, EncodeMatch, Pieces, MatchCost, Repeats, SizeBound;
    var left := total;
    op, toks' := start, toks;
    if level == One && left > MAX_LEN {
      op, left, toks' := PutFullPieces(toks, output, start, input, a, total, dist);
    }
    ghost var at: nat := a + total - left;
    PieceSize(level, left, dist);
    PiecesCost(level, at - a, left, dist);
    RepeatsPart(input, a, at, a + total, a + total, dist);
    LastPiece(level, left, dist);
    op := PutPiece(level, toks', output, op, input, at, left - 2, dist - 1);
    toks' := toks' + [Match(left, dist)];
  }

  /** Level 2 marks the first byte. */
  lemma MarkedBlock(level: Level, toks: seq<Token>, data: seq<Byte>, input: seq<Byte>)
    requires toks != [] && Settled(level, toks, data, input, 32, |input|)
    ensures data != [] && data[0] < 32
    ensures level == One ==> BlockFor(data, input)
    ensures level == Two ==> BlockFor(data[0 := data[0] + 32], input)
    ensures LevelOf(if level == One then data else data[0 := data[0] + 32]) == Some(level)
  {
    EncodeCons(level, toks[0], toks[1..]);
    assert toks == [toks[0]] + toks[1..];
    assert data[0] < 32;
    var marked := if level == One then data else data[0 := data[0] + 32];
    assert marked[1..] == data[1..];
    ParseEncode(level, toks, marked);
    assert LevelOf(marked) == Some(level);
    forall maxout | maxout >= |input|
      ensures Meaning(marked, maxout) == Some(input)
    {
      ExpandMonotonic([], toks, |input|, maxout);
    }
  }

  /** Blocks of fewer than four bytes are a single literal run, without a level marker. */
  lemma ShortBlock(input: seq<Byte>)
    requires 1 <= |input| < 4
    ensures BlockFor([|input| - 1] + input, input)
  {
    var toks := [Literal(input)];
    assert Encode(One, toks) == [|input| - 1] + input by { EncodeCons(One, toks[0], []); EncodeEmpty(One); }
    assert [] + input == input;
    assert ExpandFrom(input, [], |input|) == Some(input);
    MarkedBlock(One, toks, [|input| - 1] + input, input);
  }

  lemma PendingStart(level: Level, input: seq<Byte>)
    requires |input| >= 2
    ensures Pending(level, Open([], [], [], input[..2]), [MAX_COPY - 1, input[0], input[1]], input[..2], |input|)
  {
    assert Settled(level, [], [], [], 0, |input|);
    hide Settled;
    assert input[..2] == [input[0], input[1]] == [] + input[..2];
    assert [MAX_COPY - 1, input[0], input[1]] == [] + ([MAX_COPY - 1] + input[..2]);
  }

  /** How many bytes of the buffer compressing `input` writes: none for no input, never more than the bound,
      and as many as that when nothing repeats. */
  ghost predicate Writes(input: seq<Byte>, written: nat) {
    && (input == [] ==> written == 0)
    && written <= SizeBound(|input|)
    && (input != [] && NoRepeat(input) ==> written == SizeBound(|input|))
  }

  /** `written` is the length of the part of the buffer that was written, `size` that of the block. */
  method CompressLevel(level: Level, input: seq<Byte>, output: array<Byte>, hash: nat -> nat)
    returns (size: nat, ghost written: nat)
    requires |input| < 0x8000_0000 && output.Length >= SizeBound(|input|)
    requires forall p :: hash(p) < HASH_SIZE
    modifies output
    ensures size <= SizeBound(|input|) && (size == 0 <==> input == [])
    ensures input != [] ==>
              BlockFor(output[..size], input) && LevelOf(output[..size]) == Some(if |input| < 4 then One else level)
    ensures Writes(input, written) && size <= written
    ensures input != [] ==> Compressed(level, input, hash, size)
    ensures forall i :: written <= i < output.Length ==> output[i] == old(output[i])
  {
    hide Pending, Settled, BlockFor, NoRepeat, Compressed;
    var n, ip := |input|, 0;
    var op: nat := 0;
    if n < 4 {
      if n == 0 {
        return 0, 0;
      }
      op := Put(output, op, n - 1);
      while ip < n
        invariant ip <= n && op == ip + 1
        invariant output[..op] == [n - 1] + input[..ip]
        invariant forall i :: op <= i < output.Length ==> output[i] == old(output[i])
      {
        op := Put(output, op, input[ip]);
        ip := ip + 1;
      }
      assert input[..n] == input;
      ShortBlock(input);
      ShortCompressed(level, input, hash);
      return n + 1, n + 1;
    }
    op, written := CompressLong(level, input, output, hash);
    size := op;
  }

  /** Blocks of four bytes or more. */
  method CompressLong(level: Level, input: seq<Byte>, output: array<Byte>, hash: nat -> nat)
    returns (op: nat, ghost written: nat)
    requires 4 <= |input| < 0x8000_0000 && output.Length >= SizeBound(|input|)
    requires forall p :: hash(p) < HASH_SIZE
    modifies output
    ensures 0 < op <= written <= SizeBound(|input|)
    ensures Compressed(level, input, hash, op) && (NoRepeat(input) ==> written == SizeBound(|input|))
    ensures BlockFor(output[..op], input) && LevelOf(output[..op]) == Some(level)
    ensures forall i :: written <= i < output.Length ==> output[i] == old(output[i])
  {
    hide Pending, Settled, BlockFor, NoRepeat, Behaves, Compressed;
    ghost var s, toks, c;
    var copy;
    op, copy, s, c := CompressRuns(level, input, output, hash);
    written := op;
    op, toks := CloseRun(level, s, output, op, copy, input, |input|);
    FinalSize(level, input, hash, c, op);
    MarkedBlock(level, toks, output[..op], input);
    if level == Two {
      ghost var w := output[..op];
      output[0] := output[0] + 32;
      assert output[..op] == w[0 := w[0] + 32];
    }
  }

  /** The main loop, which ends in `c`, and the left-over literals; the last run is still open. */
  method CompressRuns(level: Level, input: seq<Byte>, output: array<Byte>, hash: nat -> nat)
    returns (op: nat, copy: nat, ghost s: Open, ghost c: Config)
    requires 4 <= |input| < 0x8000_0000 && output.Length >= SizeBound(|input|)
    requires forall p :: hash(p) < HASH_SIZE
    modifies output
    ensures op <= SizeBound(|input|)
    ensures Pending(level, s, output[..op], input, |input|) && copy == |s.lits|
    ensures Proper(hash, c) && Behaves(level, input, hash, c) && c.ip <= |input| <= c.ip + 12
    ensures (op, copy) == AfterLiterals(c, |input| - c.ip)
    ensures forall i :: op <= i < output.Length ==> output[i] == old(output[i])
  {
    hide Pending, Behaves, WithLiteral, Proper, AfterLiterals;
    var ip;
    op, copy, s, ip, c := CompressMatches(level, input, output, hash);
    var n := |input|;
    AfterNone(hash, c);
    while ip < n
      invariant c.ip <= ip <= n && op <= SizeBound(ip)
      invariant Pending(level, s, output[..op], input[..ip], n) && copy == |s.lits|
      invariant (op, copy) == AfterLiterals(c, ip - c.ip)
      invariant forall i :: op <= i < output.Length ==> output[i] == old(output[i])
    {
      assert input[..ip + 1] == input[..ip] + [input[ip]];
      AfterNext(c, ip - c.ip);
      op, copy, s := PutLiteral(level, s, output, op, copy, input[ip], input[..ip], n);
      ip := ip + 1;
    }
    assert input[..n] == input;
  }

  /** The first two literals and the main loop. */
  method CompressMatches(level: Level, input: seq<Byte>, output: array<Byte>, hash: nat -> nat)
    returns (op: nat, copy: nat, ghost s: Open, ip: nat, ghost c: Config)
    requires 4 <= |input| < 0x8000_0000 && output.Length >= SizeBound(|input|)
    requires forall p :: hash(p) < HASH_SIZE
    modifies output
    ensures 2 <= ip <= |input| <= ip + 12 && op <= SizeBound(ip)
    ensures Pending(level, s, output[..op], input[..ip], |input|) && copy == |s.lits|
    ensures c == Config(ip, c.table, op, copy) && Proper(hash, c) && Behaves(level, input, hash, c)
    ensures forall i :: op <= i < output.Length ==> output[i] == old(output[i])
  {
    hide Pending, Behaves, Trip, WithLiteral, RunAt, MatchAt, Pieces, ClosedTokens;
    ip := 2;
    var htab := new nat[HASH_SIZE](_ => 0);
    copy := 2;
    op := Put(output, 0, MAX_COPY - 1);
    op := Put(output, op, input[0]);
    op := Put(output, op, input[1]);
    s := Open([], [], [], input[..2]);
    c := Config(ip, htab[..], op, copy);
    PendingStart(level, input);
    BehavesStart(level, input, hash, c);
    assert output[..op] == [MAX_COPY - 1, input[0], input[1]];
    while ip + 12 < |input|
      invariant 2 <= ip <= |input| && op <= SizeBound(ip)
      invariant c == Config(ip, htab[..], op, copy) && Proper(hash, c) && Behaves(level, input, hash, c)
      invariant Pending(level, s, output[..op], input[..ip], |input|) && copy == |s.lits|
      invariant forall i :: op <= i < output.Length ==> output[i] == old(output[i])
      decreases |input| - ip
    {
      op, copy, s, ip := CompressStep(level, s, output, op, copy, input, ip, htab, hash);
      BehavesNext(level, input, hash, c, Config(ip, htab[..], op, copy));
      c := Config(ip, htab[..], op, copy);
    }
  }

  /** Enters the last two positions of a match into the table. */
  method EnterBoundary(htab: array<nat>, hash: nat -> nat, boundary: nat) returns (ip: nat)
    requires htab.Length == HASH_SIZE && forall p :: hash(p) < HASH_SIZE
    modifies htab
    ensures ip == boundary + 2
    ensures htab[..] == old(htab[..])[hash(ip - 2) := ip - 2][hash(ip - 1) := ip - 1]
  {
    ip := boundary;
    var hval := hash(ip);
    htab[hval] := ip;
    ip := ip + 1;
    hval := hash(ip);
    htab[hval] := ip;
    ip := ip + 1;
  }

  /** Extends the match found, encodes it, enters the match boundary into the table and opens a new run. */
  method TakeMatch(level: Level, ghost s: Open, output: array<Byte>, start: nat, copy: nat, input: seq<Byte>,
                   anchor: nat, len: nat, dist: nat, htab: array<nat>, hash: nat -> nat)
    returns (op: nat, ghost s': Open, ip: nat)
    requires htab.Length == HASH_SIZE && forall p :: hash(p) < HASH_SIZE
    requires |input| < 0x8000_0000 && output.Length >= SizeBound(|input|) && start <= SizeBound(anchor)
    requires 3 <= len <= 5 && anchor + 12 < |input| && 1 <= dist <= anchor && dist < DistanceLimit(level)
    requires Repeats(input, anchor, anchor + len, dist) && (level == Two && dist >= MaxDistance(Two) ==> len == 5)
    requires forall i :: 0 <= i < HASH_SIZE ==> htab[i] <= anchor
    requires Pending(level, s, output[..start], input[..anchor], |input|) && copy == |s.lits|
    modifies htab, output
    ensures anchor < ip <= |input| && start < op <= SizeBound(ip)
    ensures forall i :: 0 <= i < HASH_SIZE ==> htab[i] < ip
    ensures Pending(level, s', output[..op], input[..ip], |input|)
    ensures s'.toks == ClosedTokens(s) + Pieces(level, ip - anchor, dist) && s'.lits == []
    ensures Taken(level, input, hash, Config(anchor, old(htab[..]), start, copy), Config(ip, htab[..], op, 0), dist)
    ensures forall i :: op <= i < output.Length ==> output[i] == old(output[i])
  {
    hide Pending, Settled, Pieces, ClosedTokens, WithLiteral, MatchCost, Repeats, Taken, SizeBound;
    ip := ExtendMatch(input, anchor, len, dist);
    ip := ip - 3;
    ghost var toks;
    op, toks := CloseAndMatch(level, s, output, start, copy, input, anchor, ip - anchor + 2, dist);
    ip := EnterBoundary(htab, hash, ip);
    TakenAs(level, input, hash, Config(anchor, old(htab[..]), start, copy), Config(ip, htab[..], op + 1, 0), dist);
    op, s' := OpenRun(level, toks, output, op, input, ip);
  }

  /** Closes the open run and encodes the match of `total` bytes behind it. */
  method CloseAndMatch(level: Level, ghost s: Open, output: array<Byte>, start: nat, copy: nat, input: seq<Byte>,
                       ghost anchor: nat, total: nat, dist: nat)
    returns (op: nat, ghost toks: seq<Token>)
    requires |input| < 0x8000_0000 && output.Length >= SizeBound(|input|) && start <= SizeBound(anchor)
    requires 3 <= total && anchor + total <= |input| && 1 <= dist <= anchor && dist < DistanceLimit(level)
    requires Repeats(input, anchor, anchor + total, dist) && (level == Two && dist > MaxDistance(Two) ==> total >= 5)
    requires Pending(level, s, output[..start], input[..anchor], |input|) && copy == |s.lits|
    modifies output
    ensures toks == ClosedTokens(s) + Pieces(level, total, dist) && toks != []
    ensures start <= op && op + (if copy == 0 then 1 else 0) <= start + MatchCost(level, total, dist)
    ensures op <= output.Length && Settled(level, toks, output[..op], input[..anchor + total], 0, |input|)
    ensures forall i :: op <= i < output.Length ==> output[i] == old(output[i])
  {
    hide Pending, Settled, Pieces, ClosedTokens, MatchCost, Repeats;
    op, toks := CloseRun(level, s, output, start, copy, input[..anchor], |input|);
    op, toks := PutMatchPieces(level, toks, output, op, input, anchor, total, dist);
  }

  /** Opens a new run behind a match. */
  method OpenRun(level: Level, ghost toks: seq<Token>, output: array<Byte>, start: nat, input: seq<Byte>,
                 ghost ip: nat)
    returns (op: nat, ghost s': Open)
    requires ip <= |input| && output.Length >= SizeBound(|input|) && start <= output.Length
    requires toks != [] && Settled(level, toks, output[..start], input[..ip], 0, |input|)
    modifies output
    ensures op == start + 1 && op <= SizeBound(ip)
    ensures Pending(level, s', output[..op], input[..ip], |input|) && s'.toks == toks && s'.lits == []
    ensures forall i :: op <= i < output.Length ==> output[i] == old(output[i])
  {
    hide Pending, Settled;
    s' := Open(toks, output[..start], input[..ip], []);
    PendingReopen(level, toks, output[..start], input[..ip], |input|);
    PendingSize(level, s', output[..start] + [MAX_COPY - 1], input[..ip], |input|);
    op := Put(output, start, MAX_COPY - 1);
  }

  /** One trip round the main loop: the match found, taken as far as it goes, or else one literal. */
  method CompressStep(level: Level, ghost s: Open, output: array<Byte>, start: nat, copy: nat,
                      input: seq<Byte>, anchor: nat, htab: array<nat>, hash: nat -> nat)
    returns (op: nat, copy': nat, ghost s': Open, ip: nat)
    requires htab.Length == HASH_SIZE && forall p :: hash(p) < HASH_SIZE
    requires |input| < 0x8000_0000 && output.Length >= SizeBound(|input|) && start <= SizeBound(anchor)
    requires 2 <= anchor && anchor + 12 < |input|
    requires Proper(hash, Config(anchor, htab[..], start, copy))
    requires Pending(level, s, output[..start], input[..anchor], |input|) && copy == |s.lits|
    modifies htab, output
    ensures anchor < ip <= |input| && start < op <= SizeBound(ip)
    ensures Pending(level, s', output[..op], input[..ip], |input|) && copy' == |s'.lits|
    ensures var c, c' := Config(anchor, old(htab[..]), start, copy), Config(ip, htab[..], op, copy');
            Proper(hash, c') && Trip(level, input, hash, c, c')
    ensures var dist := if RunAt(level, input, anchor) then 1 else anchor - old(htab[hash(anchor)]);
            if RunAt(level, input, anchor) || MatchAt(level, input, anchor, dist) then
              s'.toks == ClosedTokens(s) + Pieces(level, ip - anchor, dist) && s'.lits == []
            else ip == anchor + 1 && s' == WithLiteral(s, input[anchor])
    ensures forall i :: op <= i < output.Length ==> output[i] == old(output[i])
  {
    hide Pending, Settled, Pieces, ClosedTokens, WithLiteral, RunAt, MatchAt;
    var found, len, dist := FindMatch(level, input, anchor, htab, hash);
    if found {
      op, s', ip := TakeMatch(level, s, output, start, copy, input, anchor, len, dist, htab, hash);
      copy' := 0;
    } else {
      assert input[..anchor + 1] == input[..anchor] + [input[anchor]];
      op, copy', s' := PutLiteral(level, s, output, start, copy, input[anchor], input[..anchor], |input|);
      ip := anchor + 1;
    }
  }

  /** `fastlz_compress_level`: an unsupported level writes nothing. */
  method CompressAtLevel(level: int, input: seq<Byte>, output: array<Byte>, hash: nat -> nat)
    returns (size: nat, ghost written: nat)
    requires |input| < 0x8000_0000 && output.Length >= SizeBound(|input|)
    requires forall p :: hash(p) < HASH_SIZE
    modifies output
    ensures level == 1 || level == 2 ==>
              && size <= SizeBound(|input|) && (size == 0 <==> input == [])
              && (input != [] ==> BlockFor(output[..size], input))
              && (|input| >= 4 ==> LevelOf(output[..size]) == Some(if level == 1 then One else Two))
              && (input != [] ==> Compressed(if level == 1 then One else Two, input, hash, size))
              && Writes(input, written)
    ensures level != 1 && level != 2 ==> size == 0 && output[..] == old(output[..])
    ensures size <= written <= SizeBound(|input|) && forall i :: written <= i < output.Length ==>
            output[i] == old(output[i])
  {
    if level == 1 {
      size, written := CompressLevel(One, input, output, hash);
    } else if level == 2 {
      size, written := CompressLevel(Two, input, output, hash);
    } else {
      size, written := 0, 0;
    }
  }

  /** `fastlz_compress`: level 1 for blocks under 64 KiB, level 2 otherwise. */
  method Compress(input: seq<Byte>, output: array<Byte>, hash: nat -> nat)
    returns (size: nat, ghost written: nat)
    requires |input| < 0x8000_0000 && output.Length >= SizeBound(|input|)
    requires forall p :: hash(p) < HASH_SIZE
    modifies output
    ensures size <= SizeBound(|input|) && (size == 0 <==> input == [])
    ensures input != [] ==>
              BlockFor(output[..size], input) && LevelOf(output[..size]) == Some(if |input| < 65536 then One else Two)
    ensures Writes(input, written) && size <= written
    ensures input != [] ==> Compressed(if |input| < 65536 then One else Two, input, hash, size)
    ensures OneByte(input) ==>
              size <= if |input| < 65536 then 3 * (|input| / 262) + 10 else |input| / 255 + 12
    ensures forall i :: written <= i < output.Length ==> output[i] == old(output[i])
  {
    if |input| < 65536 {
      size, written := CompressLevel(One, input, output, hash);
    } else {
      size, written := CompressLevel(Two, input, output, hash);
    }
    OneByteCompressed(if |input| < 65536 then One else Two, input, hash, size);
  }

  /** The documented buffer, 5% larger than the input and at least 66 bytes, has room for every write. */
  lemma DocumentedBufferSuffices(n: nat, capacity: nat)
    requires capacity >= 66 && 20 * capacity >= 21 * n
    ensures SizeBound(n) <= capacity
  {
  }

  /** `FastLZCompressor::maxCompressedSize`: 1.05 times the input, rounded down. */
  function MaxCompressedSize(n: nat): nat {
    21 * n / 20
  }

  /** The lengths for which the tile cache's buffer is large enough. */
  predicate BufferSuffices(n: nat) {
    n == 0 || 20 <= n <= 31 || n >= 40
  }

  /** It has room for every write of every input of `n` bytes exactly for these lengths. */
  lemma MaxCompressedSizeSuffices(n: nat)
    ensures (forall input, written: nat :: |input| == n && Writes(input, written) ==>
             written <= MaxCompressedSize(n)) <==>
            BufferSuffices(n)
  {
    assert 21 * n / 20 == n + n / 20;
    if !BufferSuffices(n) {
      CountingHasNoRepeat(n);
      assert |Counting(n)| == n && Writes(Counting(n), SizeBound(n));
    }
  }

  /** The bytes 0, 1, 2, ... */
  function Counting(n: nat): seq<Byte>
    requires n <= 256
  {
    seq(n, i requires 0 <= i < n => i as Byte)
  }

  lemma CountingHasNoRepeat(n: nat)
    requires n <= 256
    ensures NoRepeat(Counting(n))
  {
  }

  /** For any other length compressing the counting bytes goes beyond it, at either level and with any hash.  So
      does the block itself, except for 32 bytes, where only a header that is dropped again does. */
  method OverrunTileCacheBuffer(n: nat, level: Level, hash: nat -> nat) returns (size: nat, ghost written: nat)
    requires !BufferSuffices(n) && forall p :: hash(p) < HASH_SIZE
    ensures written > MaxCompressedSize(n)
    ensures size > MaxCompressedSize(n) <==> n != 32
  {
    var input := Counting(n);
    assert |input| == n > 0;
    CountingHasNoRepeat(n);
    OverrunSizes(n);
    hide *;
    var output := new Byte[SizeBound(n)];
    size, written := CompressLevel(level, input, output, hash);
    LiteralsWritten(level, input, hash, size, written);
  }

  lemma OverrunSizes(n: nat)
    requires !BufferSuffices(n)
    ensures 0 < n <= 256 && SizeBound(n) > MaxCompressedSize(n)
    ensures LiteralSize(n) > MaxCompressedSize(n) <==> n != 32
  {
  }

  lemma LiteralsWritten(level: Level, input: seq<Byte>, hash: nat -> nat, size: nat, written: nat)
    requires input != [] && NoRepeat(input) && Compressed(level, input, hash, size) && Writes(input, written)
    ensures size == LiteralSize(|input|) && written == SizeBound(|input|)
  {
    hide NoRepeat, RepeatsFrom;
  }
}
