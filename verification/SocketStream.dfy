/** The double-buffered socket writer (src/common/CommAsioClient_impl.h, lines 146-194 and 363-407), after
    negotiation and before any write error. */
module SocketStream {
  import opened Options
  import Sequences

  type Bytes = seq<bv8>

  /** The writer's fields, the bytes that reached the socket, all bytes encoded, and the writes in flight. */
  datatype State = State(writeBuffer: Bytes, sendBuffer: Bytes, isSending: bool, shouldSend: bool,
                         wire: Bytes, encoded: Bytes, outstanding: nat)

  datatype Event = Encode(bytes: Bytes) | Flush | Complete

  const Initial := State([], [], false, false, [], [], 0)

  ghost predicate Inv(s: State) {
    && s.encoded == s.wire + s.sendBuffer + s.writeBuffer
    && s.outstanding == (if s.isSending then 1 else 0)
    && (s.isSending <==> s.sendBuffer != [])
    && (s.shouldSend ==> s.isSending && s.writeBuffer != [])
  }

  function Write(s: State): State {
    if s.writeBuffer == [] then s
    else if s.isSending then s.(shouldSend := true)
    else State(s.sendBuffer, s.writeBuffer, true, false, s.wire, s.encoded, s.outstanding + 1)
  }

  /** The successful completion of the write in flight. */
  function Completed(s: State): State
    requires s.outstanding > 0
  {
    var s' := s.(isSending := false, sendBuffer := [], wire := s.wire + s.sendBuffer, outstanding := s.outstanding - 1);
    if s.shouldSend then Write(s') else s'
  }

  function Step(s: State, e: Event): Option<State> {
    match e
    case Encode(bytes) => Some(s.(writeBuffer := s.writeBuffer + bytes, encoded := s.encoded + bytes))
    case Flush => Some(Write(s))
    case Complete => if s.outstanding > 0 then Some(Completed(s)) else None
  }

  function Run(s: State, es: seq<Event>): Option<State>
    decreases |es|
  {
    if es == [] then Some(s)
    else match Step(s, es[0]) case None => None case Some(s') => Run(s', es[1..])
  }

  lemma StepKeepsInv(s: State, e: Event)
    requires Inv(s) && Step(s, e).Some?
    ensures Inv(Step(s, e).value) && s.encoded <= Step(s, e).value.encoded
  {
    var s' := Step(s, e).value;
    match e
    case Encode(bytes) =>
      assert s'.encoded == s.wire + s.sendBuffer + (s.writeBuffer + bytes);
    case Flush =>
      assert s'.wire + s'.sendBuffer + s'.writeBuffer == s.wire + s.sendBuffer + s.writeBuffer;
    case Complete =>
      assert s'.wire + s'.sendBuffer + s'.writeBuffer == s.wire + s.sendBuffer + s.writeBuffer;
  }

  lemma {:induction false} RunKeepsInv(s: State, es: seq<Event>)
    requires Inv(s) && Run(s, es).Some?
    ensures Inv(Run(s, es).value) && s.encoded <= Run(s, es).value.encoded
    decreases |es|
  {
    if es != [] {
      StepKeepsInv(s, es[0]);
      RunKeepsInv(Step(s, es[0]).value, es[1..]);
    }
  }

  /** The bytes of all operations encoded, in order. */
  function EncodedBytes(es: seq<Event>): Bytes {
    if es == [] then [] else EncodedBy(es[0]) + EncodedBytes(es[1..])
  }

  function EncodedBy(e: Event): Bytes {
    if e.Encode? then e.bytes else []
  }

  lemma {:induction false} EncodedIsAll(s: State, es: seq<Event>)
    requires Run(s, es).Some?
    ensures Run(s, es).value.encoded == s.encoded + EncodedBytes(es)
    decreases |es|
  {
    if es == [] {
      assert s.encoded + EncodedBytes(es) == s.encoded;
    } else {
      EncodedNext(s, es[0]);
      hide Step, EncodedBy;
      EncodedIsAll(Step(s, es[0]).value, es[1..]);
      Sequences.ConcatAssociates(s.encoded, EncodedBy(es[0]), EncodedBytes(es[1..]));
    }
  }

  lemma EncodedNext(s: State, e: Event)
    requires Step(s, e).Some?
    ensures Step(s, e).value.encoded == s.encoded + EncodedBy(e)
  {
  }

  /** In every reachable state no byte is lost, repeated or reordered, and at most one write is in flight. */
  lemma ReachableStates(es: seq<Event>)
    requires Run(Initial, es).Some?
    ensures var s := Run(Initial, es).value;
            && s.wire + s.sendBuffer + s.writeBuffer == s.encoded == EncodedBytes(es)
            && s.outstanding <= 1
            && (s.shouldSend ==> s.outstanding == 1 && s.writeBuffer != [])
  {
    RunKeepsInv(Initial, es);
    EncodedIsAll(Initial, es);
  }

  /** The first `n` encoded bytes are on the wire after at most `k` more completions, and while they
      are not, a write is in flight. */
  ghost predicate ArrivesWithin(s: State, n: nat, k: nat) {
    || |s.wire| >= n
    || (k >= 1 && s.isSending && |s.wire| + |s.sendBuffer| >= n)
    || (k >= 2 && s.isSending && s.shouldSend && |s.wire| + |s.sendBuffer| + |s.writeBuffer| >= n)
  }

  function Completions(es: seq<Event>): nat {
    if es == [] then 0 else (if es[0] == Complete then 1 else 0) + Completions(es[1..])
  }

  lemma {:induction false} RunArrives(s: State, es: seq<Event>, n: nat, k: nat)
    requires Inv(s) && ArrivesWithin(s, n, k) && k <= 2 && Run(s, es).Some?
    ensures ArrivesWithin(Run(s, es).value, n, if Completions(es) >= k then 0 else k - Completions(es))
    decreases |es|
  {
    if es != [] {
      var s' := Step(s, es[0]).value;
      StepKeepsInv(s, es[0]);
      var k' := if es[0] == Complete && k > 0 then k - 1 else k;
      assert ArrivesWithin(s', n, k');
      RunArrives(s', es[1..], n, k');
    }
  }

  /** Bytes encoded before a flush are on the wire after at most two completions, whatever happens in
      between; and until they are, a write is in flight. */
  lemma FlushedBytesArrive(before: seq<Event>, after: seq<Event>)
    requires Run(Initial, before).Some? && Run(Write(Run(Initial, before).value), after).Some?
    ensures var target := Run(Initial, before).value.encoded;
            var s := Run(Write(Run(Initial, before).value), after).value;
            if Completions(after) >= 2 then target <= s.wire else target <= s.wire || s.outstanding == 1
  {
    var s0 := Run(Initial, before).value;
    RunKeepsInv(Initial, before);
    StepKeepsInv(s0, Flush);
    var s1 := Write(s0);
    var n := |s0.encoded|;
    RunKeepsInv(s1, after);
    var s := Run(s1, after).value;
    assert ArrivesWithin(s1, n, 2);
    RunArrives(s1, after, n, 2);
    assert s.wire <= s.encoded && s0.encoded <= s.encoded;
    if |s.wire| >= n {
      assert s0.encoded == s.encoded[..n] == s.wire[..n];
    }
  }

  /** The client itself; its methods take the steps above. */
  class AsioClient {
    var writeBuffer: Bytes
    var sendBuffer: Bytes
    var isSending: bool
    var shouldSend: bool
    var autoFlush: bool
    var open: bool
    ghost var wire: Bytes
    ghost var encoded: Bytes
    ghost var outstanding: nat

    ghost function Abstract(): State
      reads this
    {
      State(writeBuffer, sendBuffer, isSending, shouldSend, wire, encoded, outstanding)
    }

    constructor ()
      ensures Abstract() == Initial && Inv(Abstract()) && open && !autoFlush
    {
      writeBuffer, sendBuffer, isSending, shouldSend := [], [], false, false;
      autoFlush, open := false, true;
      wire, encoded, outstanding := [], [], 0;
    }

    method WriteBuffered()
      modifies this
      ensures Abstract() == Write(old(Abstract()))
      ensures autoFlush == old(autoFlush) && open == old(open)
    {
      if |writeBuffer| != 0 {
        if isSending {
          shouldSend := true;
          return;
        }
        shouldSend := false;
        writeBuffer, sendBuffer := sendBuffer, writeBuffer;
        isSending := true;
        outstanding := outstanding + 1;
      }
    }

    /** The completion handler of a successful write of the whole send buffer. */
    method OnWritten()
      requires Inv(Abstract()) && outstanding > 0
      modifies this
      ensures Abstract() == Completed(old(Abstract())) && Inv(Abstract())
      ensures autoFlush == old(autoFlush) && open == old(open)
    {
      StepKeepsInv(Abstract(), Complete);
      isSending := false;
      wire := wire + sendBuffer;
      outstanding := outstanding - 1;
      sendBuffer := sendBuffer[|sendBuffer|..];
      if shouldSend {
        WriteBuffered();
      }
    }

    method FlushBuffered() returns (result: int)
      requires Inv(Abstract())
      modifies this
      ensures Abstract() == Write(old(Abstract())) && Inv(Abstract()) && result == 0
      ensures autoFlush == old(autoFlush) && open == old(open)
    {
      StepKeepsInv(Abstract(), Flush);
      WriteBuffered();
      result := 0;
    }

    /** Encodes one operation, given as the bytes the codec writes for it. */
    method Send(op: Bytes) returns (result: int)
      requires Inv(Abstract())
      modifies this
      ensures Inv(Abstract()) && autoFlush == old(autoFlush) && open == old(open)
      ensures !open ==> result == -1 && Abstract() == old(Abstract())
      ensures open ==>
                && result == 0
                && var s := Step(old(Abstract()), Encode(op)).value;
                   Abstract() == if autoFlush then Write(s) else s
    {
      if !open {
        return -1;
      }
      StepKeepsInv(Abstract(), Encode(op));
      writeBuffer := writeBuffer + op;
      encoded := encoded + op;
      if autoFlush {
        result := FlushBuffered();
      } else {
        result := 0;
      }
    }
  }
}
