/** The FastLZ decompressor (src/navigation/fastlz.c, lines 140-152 and 420-549): on any input bytes
    it computes the meaning of the tokens the input denotes, and touches nothing at or beyond `maxout`. */
module FastLZDecompressor {
  import opened Options
  import opened FastLZFormat

  /** A run (distance one): the last byte written is repeated. */
  method FillRun(output: array<Byte>, start: nat, len: nat) returns (op: nat)
    requires 1 <= start && start + len <= output.Length
    modifies output
    ensures op == start + len
    ensures output[..op] == old(output[..start]) + Periodic(old(output[..start]), 1, len)
    ensures forall i :: op <= i < output.Length ==> output[i] == old(output[i])
  {
    var b := output[start - 1];
    op := start;
    ghost var before := output[..start];
    while op < start + len
      invariant start <= op <= start + len
      invariant output[..start] == before
      invariant forall i :: start <= i < op ==> output[i] == b
      invariant forall i :: op <= i < output.Length ==> output[i] == old(output[i])
    {
      output[op] := b;
      op := op + 1;
    }
    assert output[..op] == before + Periodic(before, 1, len);
  }

  /** The copy with two moving indices; source and destination may overlap. */
  method CopyForward(output: array<Byte>, start: nat, dist: nat, len: nat) returns (op: nat)
    requires 1 <= dist <= start && start + len <= output.Length
    modifies output
    ensures op == start + len
    ensures output[..op] == old(output[..start]) + Periodic(old(output[..start]), dist, len)
    ensures forall i :: op <= i < output.Length ==> output[i] == old(output[i])
  {
    var ref := start - dist;
    op := start;
    ghost var before := output[..start];
    hide PeriodicByte;
    while op < start + len
      invariant start <= op <= start + len && ref + dist == op
      invariant output[..op] == before + Periodic(before, dist, op - start)
      invariant forall i :: op <= i < output.Length ==> output[i] == old(output[i])
    {
      ghost var w := output[..op];
      PeriodicNext(before, dist, op - start);
      assert output[ref] == w[ref];
      output[op] := output[ref];
      op, ref := op + 1, ref + 1;
      assert output[..op] == w + [output[op - 1]];
    }
  }

  method CopyMatch(output: array<Byte>, start: nat, dist: nat, len: nat) returns (op: nat)
    requires 1 <= dist <= start && start + len <= output.Length
    modifies output
    ensures op == start + len
    ensures output[..op] == old(output[..start]) + Periodic(old(output[..start]), dist, len)
    ensures forall i :: op <= i < output.Length ==> output[i] == old(output[i])
  {
    if dist == 1 {
      op := FillRun(output, start, len);
    } else {
      op := CopyForward(output, start, dist, len);
    }
  }

  /** The byte `dist` positions back in a periodic extension continues the extension. */
  lemma PeriodicNext(w: seq<Byte>, dist: nat, k: nat)
    requires 1 <= dist <= |w|
    ensures var all := w + Periodic(w, dist, k);
            all + [all[|w| + k - dist]] == w + Periodic(w, dist, k + 1)
  {
    var all := w + Periodic(w, dist, k);
    PeriodicByteBack(w, dist, k);
    hide PeriodicByte;
    assert all[|w| + k - dist] == PeriodicByte(w, dist, k);
    assert Periodic(w, dist, k + 1) == Periodic(w, dist, k) + [PeriodicByte(w, dist, k)];
  }

  /** The do-while loop of level 2: add up length bytes until one is not 255; `len` wraps at 32 bits. */
  method AddLengthBytes(input: seq<Byte>, start: nat, base: nat) returns (len: nat, ip: nat)
    ensures len == (base + ReadExtension(input, start).0) % UINT32
    ensures ip == ReadExtension(input, start).1
  {
    var code := At(input, start);
    ip := start + 1;
    len := (base + code) % UINT32;
    ghost var total: nat := base + code;
    while code == 255
      invariant start < ip
      invariant len == total % UINT32
      invariant base + ReadExtension(input, start).0 == if code == 255
                then total + ReadExtension(input, ip).0 else total
      invariant ReadExtension(input, start).1 == if code == 255 then ReadExtension(input, ip).1 else ip
      decreases code == 255, |input| - ip
    {
      code := At(input, ip);
      ip := ip + 1;
      WrapAgain(total, code);
      len := (len + code) % UINT32;
      total := total + code;
    }
  }

  lemma WrapAgain(a: nat, b: nat)
    ensures (a % UINT32 + b) % UINT32 == (a + b) % UINT32
  {
  }

  /** The operands of a match whose control byte, just before `start`, is `ctrl`. */
  method ReadMatch(level: Level, input: seq<Byte>, start: nat, ctrl: Byte)
    returns (len: nat, dist: nat, ip: nat)
    requires 1 <= start && ctrl == ControlAt(input, start - 1) && ctrl >= 32
    ensures ParseToken(level, input, start - 1) == (Match(len + 3, dist), ip)
  {
    ip := start;
    len := ctrl / 32 - 1;
    var ofs := ctrl % 32 * 256;
    if len == 7 - 1 {
      if level == One {
        len := len + At(input, ip);
        ip := ip + 1;
      } else {
        len, ip := AddLengthBytes(input, ip, len);
      }
    }
    var code := At(input, ip);
    ip := ip + 1;
    dist := ofs + code + 1;
    if level == Two && code == 255 {
      if ofs == 31 * 256 {
        ofs := At(input, ip) * 256;
        ip := ip + 1;
        ofs := ofs + At(input, ip);
        ip := ip + 1;
        dist := ofs + MaxDistance(Two) + 1;
      }
    }
  }

  /** What `Decompress` leaves in the output buffer and returns, given the meaning of its input. */
  predicate Produces(meaning: Option<seq<Byte>>, n: nat, buffer: seq<Byte>) {
    match meaning
    case None => n == 0
    case Some(w) => n == |w| && n <= |buffer| && buffer[..n] == w
  }

  /** The result of continuing with the token at `p` when the output so far is `w`. */
  function Continue(level: Level, input: seq<Byte>, p: nat, w: seq<Byte>, maxout: nat): Option<seq<Byte>>
    requires |w| <= maxout
  {
    ExpandFrom(w, Parse(level, input, p).toks, maxout)
  }

  lemma ContinueStep(level: Level, input: seq<Byte>, p: nat, w: seq<Byte>, maxout: nat)
    requires |w| <= maxout
    ensures var t, next := ParseToken(level, input, p).0, ParseToken(level, input, p).1;
            match Apply(w, t, maxout)
            case None => Continue(level, input, p, w, maxout) == None
            case Some(w') =>
              if next < |input| then
                && Continue(level, input, p, w, maxout) == Continue(level, input, next, w', maxout)
                && Parse(level, input, p).end == Parse(level, input, next).end
              else
                && Continue(level, input, p, w, maxout) == Some(w')
                && Parse(level, input, p).end == next
  {
    var t, next := ParseToken(level, input, p).0, ParseToken(level, input, p).1;
    var toks := Parse(level, input, p).toks;
    hide ParseToken;
    assert toks[0] == t;
    if Apply(w, t, maxout).Some? {
      assert !t.Truncated?;
      if next < |input| {
        assert toks[1..] == Parse(level, input, next).toks;
      } else {
        assert toks[1..] == [];
        assert ExpandFrom(Apply(w, t, maxout).value, [], maxout) == Apply(w, t, maxout);
      }
    }
  }

  /** One trip round the main loop: execute the token whose control byte, just before `start`, is `ctrl`. */
  method ExecuteToken(level: Level, input: seq<Byte>, start: nat, ctrl: Byte, output: array<Byte>, from: nat,
                      maxout: nat)
    returns (ok: bool, ip: nat, op: nat)
    requires 1 <= start && ctrl == ControlAt(input, start - 1)
    requires from <= maxout <= output.Length
    modifies output
    ensures forall i :: maxout <= i < output.Length ==> output[i] == old(output[i])
    ensures op <= maxout
    ensures var effect := Apply(old(output[..from]), ParseToken(level, input, start - 1).0, maxout);
            if ok then effect == Some(output[..op]) && ip == ParseToken(level, input, start - 1).1
            else effect == None
  {
    if ctrl >= 32 {
      var len, dist, q := ReadMatch(level, input, start, ctrl);
      hide ParseToken;
      if from + len + 3 > maxout {
        return false, q, from;
      }
      if dist > from {
        return false, q, from;
      }
      op := CopyMatch(output, from, dist, len + 3);
      return true, q, op;
    } else {
      ParseLiteral(level, input, start - 1);
      hide ParseToken;
      var run := ctrl + 1;
      if from + run > maxout {
        return false, start, from;
      }
      if start + run > |input| {
        return false, start, from;
      }
      op := CopyLiterals(input, start, run, output, from);
      return true, start + run, op;
    }
  }

  /** `ExecuteToken` in terms of the rest of the block. */
  method Advance(level: Level, input: seq<Byte>, start: nat, ctrl: Byte, output: array<Byte>, from: nat, maxout: nat)
    returns (ok: bool, ip: nat, op: nat)
    requires 1 <= start && ctrl == ControlAt(input, start - 1)
    requires from <= maxout <= output.Length
    modifies output
    ensures forall i :: maxout <= i < output.Length ==> output[i] == old(output[i])
    ensures op <= maxout && start <= ip
    ensures var result := Continue(level, input, start - 1, old(output[..from]), maxout);
            if !ok then result == None
            else if ip < |input| then result == Continue(level, input, ip, output[..op], maxout)
            else result == Some(output[..op])
    ensures ok ==> Parse(level, input, start - 1).end == if ip < |input| then Parse(level, input, ip).end else ip
  {
    ContinueStep(level, input, start - 1, output[..from], maxout);
    hide ParseToken, Parse, Apply, Continue;
    ok, ip, op := ExecuteToken(level, input, start, ctrl, output, from, maxout);
    if !ok {
      ip := start;
    }
  }

  /** The loop is about to execute the token whose control byte `ctrl` it has just read, before `ip`; `w` is the
      output so far.  Continuing from there gives what the whole block gives. */
  ghost predicate InFlight(level: Level, input: seq<Byte>, ip: nat, ctrl: Byte, w: seq<Byte>, maxout: nat) {
    && 1 <= ip && |w| <= maxout && ctrl == ControlAt(input, ip - 1)
    && Continue(level, input, 0, [], maxout) == Continue(level, input, ip - 1, w, maxout)
    && Parse(level, input, 0).end == Parse(level, input, ip - 1).end
  }

  lemma InFlightAtStart(level: Level, input: seq<Byte>, maxout: nat)
    ensures InFlight(level, input, 1, At(input, 0) % 32, [], maxout)
  {
    hide Parse, Continue;
  }

  /** One trip round the main loop. */
  method Trip(level: Level, input: seq<Byte>, start: nat, ctrl: Byte, output: array<Byte>, from: nat, maxout: nat)
    returns (ok: bool, loop: bool, ip: nat, ctrl': Byte, op: nat)
    requires from <= maxout <= output.Length && InFlight(level, input, start, ctrl, output[..from], maxout)
    modifies output
    ensures forall i :: maxout <= i < output.Length ==> output[i] == old(output[i])
    ensures op <= maxout
    ensures !ok ==> Continue(level, input, 0, [], maxout) == None
    ensures ok && loop ==> start < ip <= |input| && InFlight(level, input, ip, ctrl', output[..op], maxout)
    ensures ok && !loop ==>
              Continue(level, input, 0, [], maxout) == Some(output[..op]) && ip == Parse(level, input, 0).end
  {
    hide Parse, Continue;
    ok, ip, op := Advance(level, input, start, ctrl, output, from, maxout);
    ctrl' := 0;
    loop := ip < |input|;
    if loop {
      ctrl' := input[ip];
      ip := ip + 1;
    }
  }

  /** The main loop. */
  method ExecuteTokens(level: Level, input: seq<Byte>, output: array<Byte>, maxout: nat)
    returns (ok: bool, op: nat, ip: nat)
    requires maxout <= output.Length
    modifies output
    ensures op <= maxout
    ensures Continue(level, input, 0, [], maxout) == if ok then Some(output[..op]) else None
    ensures forall i :: maxout <= i < output.Length ==> output[i] == old(output[i])
    ensures ok ==> ip == Parse(level, input, 0).end
  {
    InFlightAtStart(level, input, maxout);
    hide *;
    ip, op := 1, 0;
    var ctrl: Byte := At(input, 0) % 32;
    var loop := true;
    assert output[..0] == [];
    while loop
      invariant op <= maxout
      invariant forall i :: maxout <= i < output.Length ==> output[i] == old(output[i])
      invariant loop ==> InFlight(level, input, ip, ctrl, output[..op], maxout)
      invariant !loop ==>
                  Continue(level, input, 0, [], maxout) == Some(output[..op]) && ip == Parse(level, input, 0).end
      decreases loop, |input| - ip
    {
      ok, loop, ip, ctrl, op := Trip(level, input, ip, ctrl, output, op, maxout);
      if !ok {
        return;
      }
    }
    ok := true;
  }

  method DecompressLevel(level: Level, input: seq<Byte>, output: array<Byte>, maxout: nat)
    returns (n: nat, ghost end: nat)
    requires maxout <= output.Length
    modifies output
    ensures n <= maxout
    ensures Produces(Expand(Parse(level, input, 0).toks, maxout), n, output[..])
    ensures forall i :: maxout <= i < output.Length ==> output[i] == old(output[i])
    ensures n > 0 ==> end == Parse(level, input, 0).end
  {
    assert Expand(Parse(level, input, 0).toks, maxout) == Continue(level, input, 0, [], maxout);
    hide Parse, Expand, Continue;
    var ok, op, ip := ExecuteTokens(level, input, output, maxout);
    n, end := if ok then op else 0, ip;
    assert output[..][..op] == output[..op];
  }

  lemma ParseLiteral(level: Level, data: seq<Byte>, p: nat)
    requires ControlAt(data, p) < 32
    ensures var n := ControlAt(data, p) + 1;
            ParseToken(level, data, p) ==
            if p + 1 + n > |data| then (Truncated, p + 1) else (Literal(data[p + 1..p + 1 + n]), p + 1 + n)
  {
  }

  method CopyLiterals(input: seq<Byte>, from: nat, n: nat, output: array<Byte>, start: nat) returns (op: nat)
    requires from + n <= |input| && start + n <= output.Length
    modifies output
    ensures op == start + n
    ensures output[..op] == old(output[..start]) + input[from..from + n]
    ensures forall i :: op <= i < output.Length ==> output[i] == old(output[i])
  {
    op := start;
    while op < start + n
      invariant start <= op <= start + n
      invariant output[..op] == old(output[..start]) + input[from..from + (op - start)]
      invariant forall i :: op <= i < output.Length ==> output[i] == old(output[i])
    {
      ghost var w := output[..op];
      output[op] := input[from + (op - start)];
      op := op + 1;
      assert output[..op] == w + [output[op - 1]];
    }
  }

  /** `end` is how far the input of an accepted block was read. */
  method Decompress(input: seq<Byte>, output: array<Byte>, maxout: nat) returns (n: nat, ghost end: nat)
    requires maxout <= output.Length
    modifies output
    ensures n <= maxout
    ensures Produces(Meaning(input, maxout), n, output[..])
    ensures n == 0 <==> Meaning(input, maxout) == None
    ensures n > 0 ==> end == Parse(LevelOf(input).value, input, 0).end
    ensures forall i :: maxout <= i < output.Length ==> output[i] == old(output[i])
  {
    MeaningNonEmpty(input, maxout);
    hide Parse, Expand;
    var level := At(input, 0) / 32 + 1;
    if level == 1 {
      n, end := DecompressLevel(One, input, output, maxout);
    } else if level == 2 {
      n, end := DecompressLevel(Two, input, output, maxout);
    } else {
      n, end := 0, 0;
    }
  }

  /** Every token yields bytes, so an accepted block is never empty: the result is 0 exactly on rejection. */
  lemma {:induction false} ContinueNonEmpty(level: Level, data: seq<Byte>, p: nat, w: seq<Byte>, maxout: nat)
    requires |w| <= maxout
    ensures Continue(level, data, p, w, maxout) != Some([])
    decreases |data| - p
  {
    ContinueStep(level, data, p, w, maxout);
    var t, next := ParseToken(level, data, p).0, ParseToken(level, data, p).1;
    hide ParseToken, Parse, Continue;
    match Apply(w, t, maxout)
    case None =>
    case Some(w') =>
      if next < |data| {
        ContinueNonEmpty(level, data, next, w', maxout);
      }
  }

  lemma MeaningNonEmpty(data: seq<Byte>, maxout: nat)
    ensures Meaning(data, maxout) != Some([])
  {
    match LevelOf(data)
    case None =>
    case Some(level) => ContinueNonEmpty(level, data, 0, [], maxout);
  }
}
