/** The timed operation dispatcher (src/common/OperationsDispatcher.h and OperationsDispatcher_impl.h). */
module OperationsDispatcher {
  /** An operation: what it is, whom it comes from, and when it is due (in seconds). */
  datatype Operation = Operation(payload: int, from: int, seconds: real)

  /** OpQueEntry; the time is in milliseconds. */
  datatype Entry = Entry(op: Operation, time: int, sequence: nat)

  /** The cast to a 64-bit integer truncates toward zero. */
  function Truncate(x: real): int {
    if x >= 0.0 then x.Floor else -((-x).Floor)
  }

  /** The time an operation is dispatched at. */
  function DueTime(op: Operation): int {
    Truncate(op.seconds * 1000.0)
  }

  function MakeEntry(op: Operation, sequence: nat): Entry {
    Entry(op, DueTime(op), sequence)
  }

  /** The entry is filed at the millisecond its operation is due in, counting away from zero. */
  ghost predicate Timed(e: Entry) {
    var due := e.op.seconds * 1000.0;
    if e.op.seconds >= 0.0 then e.time as real <= due < e.time as real + 1.0
    else e.time as real - 1.0 < due <= e.time as real
  }

  lemma MakeEntryTimed(op: Operation, sequence: nat)
    ensures Timed(MakeEntry(op, sequence))
  {
    var x := op.seconds * 1000.0;
    assert op.seconds >= 0.0 ==> x >= 0.0;
    assert op.seconds < 0.0 ==> x < 0.0;
  }

  /** What the time of an entry says about its operation. */
  lemma TimedBy(e: Entry, now: int)
    requires Timed(e)
    ensures e.time <= now ==> e.op.seconds * 1000.0 < now as real + 1.0
    ensures e.time > now ==> e.op.seconds * 1000.0 > now as real
  {
  }

  /** Operations follow each other by their seconds, to a millisecond. */
  ghost predicate InSeconds(es: seq<Entry>) {
    forall i, j :: 0 <= i < j < |es| && es[i].op.seconds >= 0.0 && es[j].op.seconds >= 0.0 ==>
      es[i].op.seconds * 1000.0 < es[j].op.seconds * 1000.0 + 1.0
  }

  lemma SortedInSeconds(es: seq<Entry>)
    requires Sorted(es) && AllTimed(es)
    ensures InSeconds(es)
  {
    forall i, j | 0 <= i < j < |es| && es[i].op.seconds >= 0.0 && es[j].op.seconds >= 0.0
      ensures es[i].op.seconds * 1000.0 < es[j].op.seconds * 1000.0 + 1.0
    {
      assert es[i] in es && es[j] in es && Less(es[i], es[j]);
    }
  }

  ghost predicate AllTimed(es: seq<Entry>) {
    forall e :: e in es ==> Timed(e)
  }

  /** operator< of OpQueEntry. */
  predicate Less(a: Entry, b: Entry) {
    if a.time == b.time then a.sequence < b.sequence else a.time < b.time
  }

  /** operator> of OpQueEntry. */
  predicate Greater(a: Entry, b: Entry) {
    if a.time == b.time then a.sequence > b.sequence else a.time > b.time
  }

  /** The two operators are one strict total order on entries with different sequence numbers. */
  lemma LessIsStrictOrder(a: Entry, b: Entry, c: Entry)
    ensures !Less(a, a) && (Greater(a, b) <==> Less(b, a))
    ensures Less(a, b) && Less(b, c) ==> Less(a, c)
    ensures a.sequence != b.sequence ==> (Less(a, b) <==> !Less(b, a))
  {
  }

  ghost predicate Sorted(es: seq<Entry>) {
    forall i, j :: 0 <= i < j < |es| ==> Less(es[i], es[j])
  }

  /** std::priority_queue, as the sequence of its entries in pop order. */
  function Insert(q: seq<Entry>, e: Entry): seq<Entry> {
    if q == [] || Less(e, q[0]) then [e] + q else [q[0]] + Insert(q[1..], e)
  }

  lemma {:induction false} InsertAdds(q: seq<Entry>, e: Entry)
    ensures multiset(Insert(q, e)) == multiset(q) + multiset{e}
  {
    if q == [] || Less(e, q[0]) {
      assert multiset([e] + q) == multiset{e} + multiset(q);
    } else {
      InsertAdds(q[1..], e);
      assert q == [q[0]] + q[1..];
    }
  }

  lemma InsertElements(q: seq<Entry>, e: Entry, x: Entry)
    ensures x in Insert(q, e) <==> x in q || x == e
  {
    InsertAdds(q, e);
    hide Insert;
    assert x in Insert(q, e) <==> x in multiset(Insert(q, e));
    assert x in q <==> x in multiset(q);
  }

  lemma {:induction false} InsertSorted(q: seq<Entry>, e: Entry)
    requires Sorted(q) && forall x :: x in q ==> x.sequence != e.sequence
    ensures Sorted(Insert(q, e)) && Insert(q, e) != []
    ensures Insert(q, e)[0] == if q == [] || Less(e, q[0]) then e else q[0]
  {
    if q != [] && !Less(e, q[0]) {
      var rest := Insert(q[1..], e);
      InsertSorted(q[1..], e);
      forall x | x in rest
        ensures Less(q[0], x)
      {
        InsertElements(q[1..], e, x);
        assert q[0] in q;
      }
      assert Insert(q, e) == [q[0]] + rest;
    } else if q != [] {
      forall x | x in q
        ensures Less(e, x)
      {
        LessIsStrictOrder(e, q[0], x);
      }
    }
  }

  /** All entries, dispatched or waiting, carry different sequence numbers from 1 to `last`. */
  ghost predicate Numbered(es: seq<Entry>, last: nat) {
    && (forall i :: 0 <= i < |es| ==> 1 <= es[i].sequence <= last)
    && forall i, j :: 0 <= i < j < |es| ==> es[i].sequence != es[j].sequence
  }

  lemma NumberedParts(history: seq<Entry>, queue: seq<Entry>, last: nat)
    requires Numbered(history + queue, last)
    ensures forall x :: x in history || x in queue ==> 1 <= x.sequence <= last
  {
    var all := history + queue;
    forall x | x in history || x in queue
      ensures 1 <= x.sequence <= last
    {
      assert x in all;
      var i :| 0 <= i < |all| && all[i] == x;
    }
  }

  /** The history is sorted, and will stay so while what waits now is dispatched. */
  ghost predicate InOrder(history: seq<Entry>, queue: seq<Entry>) {
    Sorted(history) && (history != [] ==> forall e :: e in queue ==> Less(history[|history| - 1], e))
  }

  /** Dispatching the head keeps the order, and cannot repair it. */
  lemma DispatchKeepsOrder(history: seq<Entry>, queue: seq<Entry>)
    requires queue != [] && Sorted(queue)
    ensures InOrder(history + [queue[0]], queue[1..]) <==> InOrder(history, queue)
  {
    var h' := history + [queue[0]];
    if InOrder(history, queue) {
      assert queue[0] in queue;
      forall i | 0 <= i < |history|
        ensures Less(history[i], queue[0])
      {
        LessIsStrictOrder(history[i], history[|history| - 1], queue[0]);
      }
      assert Sorted(h');
      assert forall e :: e in queue[1..] ==> exists i :: 1 <= i < |queue| && queue[i] == e;
    }
    if InOrder(h', queue[1..]) {
      assert forall i :: 0 <= i < |history| ==> h'[i] == history[i];
      if history != [] {
        forall e | e in queue
          ensures Less(history[|history| - 1], e)
        {
          assert Less(h'[|history| - 1], h'[|history|]);
          if e != queue[0] {
            assert e in queue[1..];
            LessIsStrictOrder(history[|history| - 1], queue[0], e);
          }
        }
      }
    }
  }

  /** Adding an entry numbered last keeps the order exactly when it is not due before the last dispatched one. */
  lemma AddKeepsOrder(history: seq<Entry>, queue: seq<Entry>, queue': seq<Entry>, e: Entry)
    requires multiset(queue') == multiset(queue) + multiset{e}
    requires forall x :: x in history ==> x.sequence < e.sequence
    ensures InOrder(history, queue') <==>
            InOrder(history, queue) && (history == [] || history[|history| - 1].time <= e.time)
  {
    forall x
      ensures x in queue' <==> x in queue || x == e
    {
      assert x in queue' <==> x in multiset(queue');
      assert x in queue <==> x in multiset(queue);
    }
    if history != [] {
      var last := history[|history| - 1];
      assert last in history;
      assert Less(last, e) <==> last.time <= e.time;
      assert e in queue';
    }
  }

  /** Every entry added was dispatched, waits or was thrown away, as often as it was added. */
  ghost predicate Conserved(added: multiset<Entry>, history: seq<Entry>, queue: seq<Entry>, dropped: multiset<Entry>) {
    added == multiset(history) + multiset(queue) + dropped
  }

  /** What the dispatcher's fields always satisfy. */
  ghost predicate Accounted(queue: seq<Entry>, sequence: nat, history: seq<Entry>, dropped: multiset<Entry>,
                            added: multiset<Entry>, timely: bool) {
    && Sorted(queue)
    && Numbered(history + queue, sequence)
    && Conserved(added, history, queue, dropped)
    && (timely <==> InOrder(history, queue))
    && AllTimed(history) && AllTimed(queue)
  }

  lemma HeadFirst(queue: seq<Entry>, e: Entry)
    requires Sorted(queue) && e in queue
    ensures queue[0].time <= e.time
  {
    var i :| 0 <= i < |queue| && queue[i] == e;
    assert i == 0 || Less(queue[0], queue[i]);
  }

  /** What adding an entry numbered last does. */
  lemma InsertAccounts(queue: seq<Entry>, history: seq<Entry>, dropped: multiset<Entry>, added: multiset<Entry>,
                       timely: bool, e: Entry)
    requires e.sequence >= 1 && Timed(e) && Accounted(queue, e.sequence - 1, history, dropped, added, timely)
    ensures var queue' := Insert(queue, e);
            && Accounted(queue', e.sequence, history, dropped, added + multiset{e},
                         timely && (history == [] || history[|history| - 1].time <= e.time))
            && queue' != [] && queue'[0].sequence != 0
            && (queue != [] ==> (queue'[0].sequence == queue[0].sequence <==> queue'[0] == queue[0]))
  {
    NumberedParts(history, queue, e.sequence - 1);
    InsertSorted(queue, e);
    InsertAdds(queue, e);
    AddKeepsOrder(history, queue, Insert(queue, e), e);
    NumberedInsert(history, queue, e, e.sequence);
    forall x | x in Insert(queue, e)
      ensures Timed(x)
    {
      InsertElements(queue, e, x);
    }
    hide Insert, InOrder, Sorted, Numbered, Timed;
    assert queue != [] ==> queue[0] in queue;
  }

  /** The entries made of operations added one after the other. */
  function Entries(ops: seq<Operation>, sequence: nat): multiset<Entry> {
    if ops == [] then multiset{}
    else Entries(ops[..|ops| - 1], sequence) + multiset{MakeEntry(ops[|ops| - 1], sequence + |ops|)}
  }

  lemma NoEntries(ops: seq<Operation>, sequence: nat)
    requires ops == []
    ensures Entries(ops, sequence) == multiset{}
  {
  }

  lemma EntriesNext(ops: seq<Operation>, i: nat, sequence: nat)
    requires i < |ops|
    ensures Entries(ops[..i + 1], sequence) ==
            Entries(ops[..i], sequence) + multiset{MakeEntry(ops[i], sequence + i + 1)}
  {
    assert ops[..i + 1][..i] == ops[..i];
  }

  /** None of the operations is due before the entry dispatched last. */
  ghost predicate InTime(history: seq<Entry>, ops: seq<Operation>) {
    history == [] || forall op :: op in ops ==> history[|history| - 1].time <= DueTime(op)
  }

  lemma InTimeNext(history: seq<Entry>, ops: seq<Operation>, i: nat)
    requires i < |ops|
    ensures InTime(history, [])
    ensures InTime(history, ops[..i + 1]) <==>
            InTime(history, ops[..i]) && (history == [] || history[|history| - 1].time <= DueTime(ops[i]))
  {
    assert ops[..i + 1] == ops[..i] + [ops[i]];
  }

  /** How many operations the first `count` dispatched entries add. */
  function TotalAdded(reactions: nat -> seq<Operation>, count: nat): nat {
    if count == 0 then 0 else TotalAdded(reactions, count - 1) + |reactions(count)|
  }

  /** The entries they make. */
  function AllEntries(reactions: nat -> seq<Operation>, count: nat, sequence: nat): multiset<Entry> {
    if count == 0 then multiset{}
    else AllEntries(reactions, count - 1, sequence)
         + Entries(reactions(count), sequence + TotalAdded(reactions, count - 1))
  }

  /** Every operation added by the first `count` entries dispatched after `start` others was added in time. */
  ghost predicate AllInTime(history: seq<Entry>, start: nat, reactions: nat -> seq<Operation>, count: nat)
    requires start + count <= |history|
  {
    forall k {:trigger reactions(k)} :: 1 <= k <= count ==> InTime(history[..start + k], reactions(k))
  }

  lemma AllInTimeNext(history: seq<Entry>, e: Entry, start: nat, reactions: nat -> seq<Operation>, count: nat)
    requires start + count == |history|
    ensures AllInTime(history + [e], start, reactions, count + 1) <==>
            AllInTime(history, start, reactions, count) && InTime(history + [e], reactions(count + 1))
  {
    hide InTime;
    var history' := history + [e];
    assert history'[..start + (count + 1)] == history';
    forall k {:trigger reactions(k)} | 1 <= k <= count
      ensures history'[..start + k] == history[..start + k]
    {
    }
    if AllInTime(history', start, reactions, count + 1) {
      assert InTime(history'[..start + (count + 1)], reactions(count + 1));
    }
  }

  lemma NothingAdded(history: seq<Entry>, reactions: nat -> seq<Operation>, sequence: nat)
    ensures AllInTime(history, |history|, reactions, 0)
    ensures AllEntries(reactions, 0, sequence) == multiset{} && TotalAdded(reactions, 0) == 0
  {
  }

  lemma ReactionAdded(reactions: nat -> seq<Operation>, count: nat, sequence: nat)
    ensures TotalAdded(reactions, count + 1) == TotalAdded(reactions, count) + |reactions(count + 1)|
    ensures AllEntries(reactions, count + 1, sequence) ==
            AllEntries(reactions, count, sequence)
            + Entries(reactions(count + 1), sequence + TotalAdded(reactions, count))
  {
  }

  /** Throwing away what waits. */
  lemma DropAccounts(queue: seq<Entry>, sequence: nat, history: seq<Entry>, dropped: multiset<Entry>,
                     added: multiset<Entry>, timely: bool)
    requires Accounted(queue, sequence, history, dropped, added, timely)
    ensures Accounted([], sequence, history, dropped + multiset(queue), added, Sorted(history))
  {
    assert forall i :: 0 <= i < |history| ==> (history + queue)[i] == history[i];
    assert history + [] == history;
  }

  /** Moving the head from the queue to the history. */
  lemma PopAccounts(queue: seq<Entry>, sequence: nat, history: seq<Entry>, dropped: multiset<Entry>,
                    added: multiset<Entry>, timely: bool)
    requires queue != [] && Accounted(queue, sequence, history, dropped, added, timely)
    ensures Accounted(queue[1..], sequence, history + [queue[0]], dropped, added, timely)
  {
    DispatchKeepsOrder(history, queue);
    assert history + queue == (history + [queue[0]]) + queue[1..];
    assert queue == [queue[0]] + queue[1..];
    assert queue[0] in queue;
    hide InOrder, Timed;
  }

  /** A call of the dispatcher's owner. */
  datatype Call =
    | Add(op: Operation)
    | Process(now: int, maxWall: int, clock: nat -> int, reactions: nat -> seq<Operation>, deadline: nat)
    | Clear

  /** The time of the calls never runs backwards from `now`, and no operation is due before the time it is added
      at, be it by a call or while an entry is processed. */
  ghost predicate Punctual(calls: seq<Call>, now: int) {
    |calls| == 0 ||
    match calls[0]
    case Add(op) => now <= DueTime(op) && Punctual(calls[1..], now)
    case Process(later, maxWall, clock, reactions, deadline) =>
      && now <= later && (forall k :: k >= deadline ==> clock(k) >= clock(0) + maxWall)
      && (forall k, op {:trigger op in reactions(k)} :: k >= 1 && op in reactions(k) ==> later <= DueTime(op))
      && Punctual(calls[1..], later)
    case Clear => Punctual(calls[1..], now)
  }

  /** Nothing dispatched so far was due after `now`. */
  ghost predicate DueBy(history: seq<Entry>, now: int) {
    forall i :: 0 <= i < |history| ==> history[i].time <= now
  }

  ghost predicate Holds(added: multiset<Entry>, op: Operation) {
    exists e :: e in added && e.op == op
  }

  /** Every operation added by one of the calls is among the entries. */
  ghost predicate HoldsAll(added: multiset<Entry>, calls: seq<Call>) {
    forall i :: 0 <= i < |calls| && calls[i].Add? ==> Holds(added, calls[i].op)
  }

  lemma HoldsFirst(added: multiset<Entry>, added': multiset<Entry>, calls: seq<Call>)
    requires |calls| > 0 && added <= added' && HoldsAll(added', calls[1..])
    requires calls[0].Add? ==> exists n :: added[MakeEntry(calls[0].op, n)] > 0
    ensures HoldsAll(added', calls)
  {
    if calls[0].Add? {
      var n :| added[MakeEntry(calls[0].op, n)] > 0;
      assert MakeEntry(calls[0].op, n) in added';
    }
    assert forall i :: 1 <= i < |calls| ==> calls[i] == calls[1..][i - 1];
  }

  lemma DueByLater(history: seq<Entry>, later: seq<Entry>, now: int, now': int)
    requires DueBy(history, now) && now <= now' && history <= later
    requires forall i :: |history| <= i < |later| ==> later[i].time <= now'
    ensures DueBy(later, now')
  {
    assert forall i :: 0 <= i < |history| ==> later[i] == history[i];
  }

  /** Reactions that are not due before the time of the call are added in time. */
  lemma ReactionsInTime(history: seq<Entry>, start: nat, reactions: nat -> seq<Operation>, count: nat, now: int)
    requires start + count == |history| && forall i :: start <= i < |history| ==> history[i].time <= now
    requires forall k, op {:trigger op in reactions(k)} :: k >= 1 && op in reactions(k) ==> now <= DueTime(op)
    ensures AllInTime(history, start, reactions, count)
  {
    hide DueTime;
  }

  class OperationsDispatcher {
    var queue: seq<Entry>
    var dirty: bool
    var sequence: nat
    /** Dispatched entries, in dispatch order, and entries thrown away by clearQueues. */
    ghost var history: seq<Entry>
    ghost var dropped: multiset<Entry>
    /** Every entry ever added. */
    ghost var added: multiset<Entry>
    /** No entry still relevant was added with a due time before that of the entry dispatched last. */
    ghost var timely: bool

    ghost predicate Valid()
      reads this
    {
      Accounted(queue, sequence, history, dropped, added, timely)
    }

    constructor ()
      ensures Valid() && queue == [] && history == [] && timely && !dirty
    {
      queue, dirty, sequence := [], false, 0;
      history, dropped, added, timely := [], multiset{}, multiset{}, true;
    }

    method AddOperationToQueue(op: Operation)
      requires Valid()
      modifies this
      ensures Valid()
      ensures sequence == old(sequence) + 1 && history == old(history) && dropped == old(dropped)
      ensures added == old(added) + multiset{MakeEntry(op, sequence)} && Timed(MakeEntry(op, sequence))
      ensures timely <==> old(timely) && (history == [] || history[|history| - 1].time <= DueTime(op))
      ensures queue != [] && (dirty <==> old(dirty) || old(queue) == [] || queue[0] != old(queue)[0])
    {
      hide Insert, Accounted, Less, Truncate, Timed;
      var topSequenceNr := 0;
      if queue != [] {
        topSequenceNr := queue[0].sequence;
      }
      sequence := sequence + 1;
      var e := MakeEntry(op, sequence);
      MakeEntryTimed(op, sequence);
      InsertAccounts(queue, history, dropped, added, timely, e);
      timely := timely && (history == [] || history[|history| - 1].time <= e.time);
      added := added + multiset{e};
      queue := Insert(queue, e);
      if topSequenceNr != queue[0].sequence {
        dirty := true;
      }
    }

    method DispatchNextOp(reaction: seq<Operation>)
      requires Valid()
      modifies this
      ensures Valid()
      ensures old(queue) == [] ==> unchanged(this)
      ensures old(queue) != [] ==>
                && history == old(history) + [old(queue)[0]] && dropped == old(dropped)
                && added == old(added) + Entries(reaction, old(sequence)) && sequence == old(sequence) + |reaction|
                && (old(dirty) ==> dirty) && (timely <==> old(timely) && InTime(history, reaction))
                && (reaction == [] ==> queue == old(queue)[1..] && dirty == old(dirty))
    {
      if queue != [] {
        Dispatch(reaction);
      }
    }

    /** Pops the first entry, then processes it; processing adds the operations of `reaction`. */
    method Dispatch(reaction: seq<Operation>)
      requires Valid() && queue != []
      modifies this
      ensures Valid()
      ensures history == old(history) + [old(queue)[0]] && dropped == old(dropped)
      ensures added == old(added) + Entries(reaction, old(sequence)) && sequence == old(sequence) + |reaction|
      ensures (old(dirty) ==> dirty) && (timely <==> old(timely) && InTime(history, reaction))
      ensures reaction == [] ==> queue == old(queue)[1..] && dirty == old(dirty)
    {
      PopAccounts(queue, sequence, history, dropped, added, timely);
      hide Accounted, Entries, InTime;
      history := history + [queue[0]];
      queue := queue[1..];
      React(reaction);
    }

    /** Processing an entry adds operations. */
    method React(reaction: seq<Operation>)
      requires Valid()
      modifies this
      ensures Valid() && history == old(history) && dropped == old(dropped)
      ensures added == old(added) + Entries(reaction, old(sequence)) && sequence == old(sequence) + |reaction|
      ensures (old(dirty) ==> dirty) && (timely <==> old(timely) && InTime(history, reaction))
      ensures reaction == [] ==> queue == old(queue) && dirty == old(dirty)
    {
      hide Accounted, Less, MakeEntry, DueTime, Entries;
      var i := 0;
      assert InTime(history, reaction[..i]);
      NoEntries(reaction[..i], sequence);
      while i < |reaction|
        invariant i <= |reaction| && Valid() && history == old(history) && dropped == old(dropped)
        invariant added == old(added) + Entries(reaction[..i], old(sequence)) && sequence == old(sequence) + i
        invariant timely <==> old(timely) && InTime(history, reaction[..i])
        invariant (old(dirty) ==> dirty) && (i == 0 ==> queue == old(queue) && dirty == old(dirty))
      {
        EntriesNext(reaction, i, old(sequence));
        InTimeNext(history, reaction, i);
        AddOperationToQueue(reaction[i]);
        i := i + 1;
      }
      assert reaction[..i] == reaction;
    }

    predicate Due(now: int)
      reads this
    {
      queue != [] && queue[0].time <= now
    }

    /** Dispatches what is due at `now`, until nothing is or the wall clock has run for `maxWall`.
        `clock` gives the successive readings of the wall clock, `reactions` the operations added while the
        n-th dispatched entry is processed; `deadline` says that the wall clock does not stand still. */
    method ProcessUntil(now: int, maxWall: int, clock: nat -> int, reactions: nat -> seq<Operation>,
                        ghost deadline: nat)
      returns (count: nat, ghost readings: nat)
      requires Valid()
      requires forall k :: k >= deadline ==> clock(k) >= clock(0) + maxWall
      modifies this
      ensures Valid()
      ensures |history| == |old(history)| + count && old(history) <= history && dropped == old(dropped)
      ensures added == old(added) + AllEntries(reactions, count, old(sequence))
      ensures sequence == old(sequence) + TotalAdded(reactions, count) && (old(dirty) ==> dirty)
      ensures timely <==> old(timely) && AllInTime(history, |old(history)|, reactions, count)
      ensures forall i :: |old(history)| <= i < |history| ==> history[i].time <= now
      ensures old(Due(now)) ==> count >= 1 && history[|old(history)|] == old(queue)[0]
      ensures Due(now) ==> clock(readings) >= clock(0) + maxWall
      ensures forall i :: |old(history)| <= i < |history| ==> history[i].op.seconds * 1000.0 < now as real + 1.0
      ensures clock(readings) >= clock(0) + maxWall || forall e :: e in queue ==> e.op.seconds * 1000.0 > now as real
    {
      NothingAdded(history, reactions, sequence);
      hide Accounted, Entries, AllEntries, TotalAdded, AllInTime, InTime;
      count, readings := 0, 0;
      var reading := 0;
      var until := clock(reading) + maxWall;
      var again := true;
      while again
        invariant Valid()
        invariant |history| == |old(history)| + count && old(history) <= history && dropped == old(dropped)
        invariant added == old(added) + AllEntries(reactions, count, old(sequence))
        invariant sequence == old(sequence) + TotalAdded(reactions, count) && (old(dirty) ==> dirty)
        invariant timely <==> old(timely) && AllInTime(history, |old(history)|, reactions, count)
        invariant forall i :: |old(history)| <= i < |history| ==> history[i].time <= now
        invariant again && count == 0 ==> queue == old(queue)
        invariant count > 0 && old(queue) != [] ==> history[|old(history)|] == old(queue)[0]
        invariant !again && old(Due(now)) ==> count >= 1
        invariant again && reading > 0 ==> reading < deadline
        invariant !again ==> !Due(now) || clock(reading) >= until
        decreases again, deadline - reading
      {
        var opsAvailableRightNow := queue != [] && queue[0].time <= now;
        if opsAvailableRightNow {
          AllInTimeNext(history, queue[0], |old(history)|, reactions, count);
          ReactionAdded(reactions, count, old(sequence));
          count := count + 1;
          Dispatch(reactions(count));
        }
        reading := reading + 1;
        again := opsAvailableRightNow && clock(reading) < until;
      }
      readings := reading;
      TimesRespected(|old(history)|, now);
    }

    /** Due times in terms of the operations themselves. */
    lemma TimesRespected(start: nat, now: int)
      requires Valid() && start <= |history| && forall i :: start <= i < |history| ==> history[i].time <= now
      ensures forall i :: start <= i < |history| ==> history[i].op.seconds * 1000.0 < now as real + 1.0
      ensures !Due(now) ==> forall e :: e in queue ==> e.op.seconds * 1000.0 > now as real
    {
      forall i | start <= i < |history|
        ensures history[i].op.seconds * 1000.0 < now as real + 1.0
      {
        assert history[i] in history;
        TimedBy(history[i], now);
      }
      if !Due(now) {
        forall e | e in queue
          ensures e.op.seconds * 1000.0 > now as real
        {
          HeadFirst(queue, e);
          TimedBy(e, now);
        }
      }
    }

    method TimeUntilNextOp(now: int) returns (wait: int)
      ensures queue == [] ==> wait == 600 * 1000
      ensures queue != [] ==> (wait <= 0 <==> Due(now)) && queue[0].time == now + wait
      ensures Valid() && queue != [] && queue[0].op.seconds >= 0.0 ==>
                (now + wait) as real <= queue[0].op.seconds * 1000.0 < (now + wait) as real + 1.0
      ensures Valid() ==> forall e :: e in queue ==> e.op.seconds * 1000.0 > (now + wait) as real - 1.0
    {
      if queue == [] {
        return 600 * 1000;
      }
      wait := queue[0].time - now;
      assert queue[0] in queue;
      ghost var head := queue[0].time - 1;
      forall e | Valid() && e in queue
        ensures e.op.seconds * 1000.0 > head as real
      {
        HeadFirst(queue, e);
        TimedBy(e, head);
      }
    }

    method MarkQueueAsClean()
      requires Valid()
      modifies `dirty
      ensures Valid() && !dirty
    {
      dirty := false;
    }

    method ClearQueues()
      requires Valid()
      modifies this
      ensures Valid() && queue == [] && history == old(history) && dropped == old(dropped) + multiset(old(queue))
      ensures added == old(added) && sequence == old(sequence) && dirty == old(dirty)
      ensures timely <==> Sorted(history)
    {
      DropAccounts(queue, sequence, history, dropped, added, timely);
      hide Accounted, Sorted;
      dropped := dropped + multiset(queue);
      queue := [];
      timely := Sorted(history);
    }

    /** While operations are added in time the whole dispatch history is strictly sorted; once all
        are dispatched it is sorted only if they were.  No operation is dispatched twice. */
    lemma HistorySorted()
      requires Valid()
      ensures timely ==> Sorted(history) && InSeconds(history)
      ensures queue == [] ==> (Sorted(history) <==> timely)
      ensures forall i, j :: 0 <= i < j < |history| ==> history[i].sequence != history[j].sequence
    {
      assert forall i :: 0 <= i < |history| ==> (history + queue)[i] == history[i];
      if timely {
        SortedInSeconds(history);
      }
    }

    /** Any calls, the first of them at `now`, if they are punctual. */
    method Perform(calls: seq<Call>, ghost now: int)
      requires Valid() && timely && DueBy(history, now) && Punctual(calls, now)
      modifies this
      ensures Valid() && timely && old(history) <= history && old(added) <= added && HoldsAll(added, calls)
      decreases |calls|
    {
      assert |calls| == 0 ==> HoldsAll(added, calls);
      if |calls| == 0 {
        return;
      }
      ghost var later := if calls[0].Process? then calls[0].now else now;
      hide Accounted, DueBy, HoldsAll, MakeEntry;
      assert calls == [calls[0]] + calls[1..];
      PerformOne(calls[0], calls[1..], now, later);
      ghost var entries := added;
      Perform(calls[1..], later);
      HoldsFirst(entries, added, calls);
    }

    /** One of the calls, made at `later` or at no particular time. */
    method PerformOne(c: Call, ghost rest: seq<Call>, ghost now: int, ghost later: int)
      requires Valid() && timely && DueBy(history, now) && Punctual([c] + rest, now)
      requires later == if c.Process? then c.now else now
      modifies this
      ensures Valid() && timely && DueBy(history, later) && Punctual(rest, later)
      ensures old(history) <= history && old(added) <= added
      ensures c.Add? ==> exists n :: added[MakeEntry(c.op, n)] > 0
    {
      assert history == [] || history[|history| - 1].time <= now;
      assert ([c] + rest)[1..] == rest;
      hide Accounted, DueBy, AllInTime, DueTime, AllEntries, TotalAdded, MakeEntry, InSeconds, Timed, Sorted;
      match c {
        case Add(op) =>
          AddOperationToQueue(op);
        case Process(now', maxWall, clock, reactions, deadline) =>
          var count;
          ghost var readings;
          count, readings := ProcessUntil(now', maxWall, clock, reactions, deadline);
          DueByLater(old(history), history, now, now');
          ReactionsInTime(history, |old(history)|, reactions, count, now');
        case Clear =>
          HistorySorted();
          ClearQueues();
      }
    }
  }

  lemma {:induction false} NumberedInsert(history: seq<Entry>, queue: seq<Entry>, e: Entry, last: nat)
    requires e.sequence == last >= 1 && Numbered(history + queue, last - 1)
    ensures Numbered(history + Insert(queue, e), last)
    decreases |queue|
  {
    if queue == [] || Less(e, queue[0]) {
      NumberedAmid(history, queue, e, last);
    } else {
      var insert := Insert(queue[1..], e);
      assert history + queue == (history + [queue[0]]) + queue[1..];
      NumberedInsert(history + [queue[0]], queue[1..], e, last);
      assert history + ([queue[0]] + insert) == (history + [queue[0]]) + insert;
      hide Numbered;
    }
  }

  /** A new number between two numbered parts. */
  lemma NumberedAmid(front: seq<Entry>, back: seq<Entry>, e: Entry, last: nat)
    requires e.sequence == last >= 1 && Numbered(front + back, last - 1)
    ensures Numbered(front + ([e] + back), last)
  {
    var all, all' := front + back, front + ([e] + back);
    forall i | 0 <= i < |all'|
      ensures all'[i] == if i < |front| then all[i] else if i == |front| then e else all[i - 1]
      ensures 1 <= all'[i].sequence <= last
    {
      var k := if i < |front| then i else i - 1;
      assert i != |front| ==> all'[i] == all[k] && 1 <= all[k].sequence < last;
    }
    forall i, j | 0 <= i < j < |all'|
      ensures all'[i].sequence != all'[j].sequence
    {
      var k, l := if i < |front| then i else i - 1, if j < |front| then j else j - 1;
      if i == |front| {
        assert all'[j] == all[l] && all[l].sequence < last;
      } else if j == |front| {
        assert all'[i] == all[k] && all[k].sequence < last;
      } else {
        assert all'[i] == all[k] && all'[j] == all[l] && k < l;
      }
    }
  }

  /** Over any punctual calls of a new dispatcher, whatever is dispatched is dispatched in the strict order of
      due times and numbers, and nothing is lost. */
  method Session(calls: seq<Call>, ghost now: int) returns (d: OperationsDispatcher)
    requires Punctual(calls, now)
    ensures d.Valid() && Sorted(d.history) && InSeconds(d.history)
    ensures HoldsAll(d.added, calls) && Conserved(d.added, d.history, d.queue, d.dropped)
  {
    d := new OperationsDispatcher();
    assert DueBy(d.history, now);
    d.Perform(calls, now);
    d.HistorySorted();
  }
}
