/** The queue of asynchronous Postgres queries (src/common/DatabasePostgres.cpp, lines 639-747). */
module PostgresQueue {
  import Sequences

  /** ExecStatusType: a query is scheduled wanting `CommandOk`, and marked done with `EmptyQuery`. */
  datatype Status = CommandOk | EmptyQuery | Other(code: int)

  datatype Query = Query(text: string, status: Status)

  function Texts(qs: seq<Query>): seq<string> {
    seq(|qs|, i requires 0 <= i < |qs| => qs[i].text)
  }

  /** `scheduled`, `launched` and `finished` are histories. */
  datatype State = State(queue: seq<Query>, inProgress: bool,
                         scheduled: seq<string>, launched: seq<string>, finished: seq<string>)

  const Initial := State([], false, [], [], [])

  /** `sends`: the connection is there and PQsendQuery accepts the query. */
  datatype Event =
    | Schedule(text: string, sends: bool) | Launch(sends: bool)
    | Result(status: Status) | QueryComplete | ClearPending

  predicate HeadDone(s: State) {
    s.queue != [] && s.queue[0].status == EmptyQuery
  }

  ghost predicate Inv(s: State) {
    && (s.inProgress ==> s.queue != [])
    && (forall i :: 1 <= i < |s.queue| ==> s.queue[i].status == CommandOk)
    && (s.queue != [] ==> s.queue[0].status == CommandOk || (HeadDone(s) && s.inProgress))
    && s.scheduled == s.finished + Texts(s.queue)
    && s.launched == s.finished + (if s.inProgress && s.queue != [] then [s.queue[0].text] else [])
  }

  function LaunchNew(s: State, sends: bool): State {
    if s.inProgress || s.queue == [] || !sends then s
    else s.(inProgress := true, launched := s.launched + [s.queue[0].text])
  }

  function PopHead(s: State): State
    requires s.queue != []
  {
    s.(inProgress := false, queue := s.queue[1..], finished := s.finished + [s.queue[0].text])
  }

  function Step(s: State, e: Event): State {
    match e
    case Schedule(text, sends) =>
      var s' := s.(queue := s.queue + [Query(text, CommandOk)], scheduled := s.scheduled + [text]);
      if s.inProgress then s' else LaunchNew(s', sends)
    case Launch(sends) => LaunchNew(s, sends)
    case Result(status) =>
      if !s.inProgress || s.queue == [] || HeadDone(s) then s
      else s.(queue := s.queue[0 := s.queue[0].(status := EmptyQuery)])
    case QueryComplete =>
      if !s.inProgress || s.queue == [] || !HeadDone(s) then s else PopHead(s)
    case ClearPending =>
      if s.inProgress && s.queue != [] && s.queue[0].status == CommandOk then PopHead(s) else s
  }

  function Run(s: State, es: seq<Event>): State
    decreases |es|
  {
    if es == [] then s else Run(Step(s, es[0]), es[1..])
  }

  lemma TextsPop(qs: seq<Query>)
    requires qs != []
    ensures Texts(qs) == [qs[0].text] + Texts(qs[1..])
  {
  }

  lemma StepKeepsInv(s: State, e: Event)
    requires Inv(s)
    ensures Inv(Step(s, e)) && s.launched <= Step(s, e).launched
  {
    var s' := Step(s, e);
    match e
    case Schedule(text, _) =>
      assert Texts(s.queue + [Query(text, CommandOk)]) == Texts(s.queue) + [text];
      assert s'.launched == s'.finished + (if s'.inProgress then [s'.queue[0].text] else []);
    case Launch(_) =>
    case Result(_) =>
      assert Texts(s'.queue) == Texts(s.queue);
    case QueryComplete =>
      if s.queue != [] { TextsPop(s.queue); }
    case ClearPending =>
      if s.queue != [] { TextsPop(s.queue); }
  }

  lemma {:induction false} RunKeepsInv(s: State, es: seq<Event>)
    requires Inv(s)
    ensures Inv(Run(s, es))
    decreases |es|
  {
    if es != [] {
      StepKeepsInv(s, es[0]);
      RunKeepsInv(Step(s, es[0]), es[1..]);
    }
  }

  /** The texts of the commands scheduled, in order. */
  function ScheduledTexts(es: seq<Event>): seq<string> {
    if es == [] then [] else ScheduledBy(es[0]) + ScheduledTexts(es[1..])
  }

  function ScheduledBy(e: Event): seq<string> {
    if e.Schedule? then [e.text] else []
  }

  lemma {:induction false} ScheduledIsAll(s: State, es: seq<Event>)
    ensures Run(s, es).scheduled == s.scheduled + ScheduledTexts(es)
    decreases |es|
  {
    if es == [] {
      assert s.scheduled + ScheduledTexts(es) == s.scheduled;
    } else {
      ScheduledNext(s, es[0]);
      hide Step, ScheduledBy;
      ScheduledIsAll(Step(s, es[0]), es[1..]);
      Sequences.ConcatAssociates(s.scheduled, ScheduledBy(es[0]), ScheduledTexts(es[1..]));
    }
  }

  lemma ScheduledNext(s: State, e: Event)
    ensures Step(s, e).scheduled == s.scheduled + ScheduledBy(e)
  {
  }

  /** The query in progress is finished by its result, whatever that is, and the next one can then be launched;
      completing before there is a result does nothing. */
  lemma QueryRunsItsCourse(s: State, status: Status)
    requires Inv(s) && s.inProgress && !HeadDone(s)
    ensures Step(s, QueryComplete) == s
    ensures var done := Step(Step(s, Result(status)), QueryComplete);
            && done.queue == s.queue[1..] && done.finished == s.finished + [s.queue[0].text]
            && !done.inProgress && done.launched == s.launched
            && (done.queue != [] ==>
                  && Step(done, Launch(true)).inProgress
                  && Step(done, Launch(true)).launched == s.launched + [s.queue[1].text])
  {
  }

  /** Scheduling a command while no query is in progress launches the head of the queue, when sending succeeds. */
  lemma IdleQueueLaunched(s: State, text: string)
    requires Inv(s) && !s.inProgress
    ensures Step(s, Schedule(text, true)).inProgress
    ensures Step(s, Schedule(text, true)).launched ==
            s.launched + [if s.queue == [] then text else s.queue[0].text]
    ensures !Step(s, Schedule(text, false)).inProgress
    ensures Texts(Step(s, Schedule(text, false)).queue) == Texts(s.queue) + [text]
  {
  }

  /** In every reachable state a query in progress means a non-empty queue, only the head can be marked done
      and only while in progress, and the queries were launched once each, in schedule order. */
  lemma ReachableStates(es: seq<Event>)
    ensures var s := Run(Initial, es);
            && (s.inProgress ==> s.queue != [])
            && (forall i :: 0 <= i < |s.queue| && s.queue[i].status == EmptyQuery ==> i == 0 && s.inProgress)
            && s.launched <= s.scheduled == ScheduledTexts(es)
            && |s.launched| == |s.finished| + (if s.inProgress then 1 else 0)
  {
    RunKeepsInv(Initial, es);
    ScheduledIsAll(Initial, es);
    var s := Run(Initial, es);
    if s.queue != [] {
      TextsPop(s.queue);
    }
  }

  // ---------------------------------------------------------------- blockUntilAllQueriesComplete

  /** The state after at most `k` trips round the blocking loop; `sends(j)` is the outcome of its attempt `j`
      to launch a query. */
  function BlockTrips(s: State, sends: nat -> bool, j: nat, k: nat): State
    decreases k
  {
    if k == 0 || s.queue == [] then s
    else if !s.inProgress then BlockTrips(LaunchNew(s, sends(j)), sends, j + 1, k - 1)
    else BlockTrips(Step(s, ClearPending), sends, j, k - 1)
  }

  /** How many of the attempts from `j` up to `n` succeed. */
  function Successes(sends: nat -> bool, j: nat, n: nat): nat
    decreases n - j
  {
    if j >= n then 0 else (if sends(j) then 1 else 0) + Successes(sends, j + 1, n)
  }

  /** The queries that have yet to be launched. */
  function ToLaunch(s: State): nat {
    if s.inProgress && s.queue != [] then |s.queue| - 1 else |s.queue|
  }

  /** With enough successful attempts ahead the loop empties the queue. */
  lemma {:induction false} EnoughAttemptsEnd(s: State, sends: nat -> bool, j: nat, n: nat) returns (k: nat)
    requires Inv(s) && !HeadDone(s) && j <= n && Successes(sends, j, n) >= ToLaunch(s)
    ensures BlockTrips(s, sends, j, k).queue == []
    decreases n - j, |s.queue|
  {
    if s.queue == [] {
      k := 0;
    } else if !s.inProgress {
      StepKeepsInv(s, Launch(sends(j)));
      k := EnoughAttemptsEnd(LaunchNew(s, sends(j)), sends, j + 1, n);
      k := k + 1;
    } else {
      StepKeepsInv(s, ClearPending);
      k := EnoughAttemptsEnd(Step(s, ClearPending), sends, j, n);
      k := k + 1;
    }
  }

  /** A loop that empties the queue has had them. */
  lemma {:induction false} EndedAfterEnough(s: State, sends: nat -> bool, j: nat, k: nat) returns (n: nat)
    requires Inv(s) && s.queue != [] && BlockTrips(s, sends, j, k).queue == []
    ensures !HeadDone(s) && j <= n && Successes(sends, j, n) >= ToLaunch(s)
    decreases k
  {
    if !s.inProgress {
      StepKeepsInv(s, Launch(sends(j)));
      n := EndedAfterEnough(LaunchNew(s, sends(j)), sends, j + 1, k - 1);
    } else {
      StepKeepsInv(s, ClearPending);
      var s' := Step(s, ClearPending);
      if s'.queue == [] {
        n := j;
      } else {
        n := EndedAfterEnough(s', sends, j, k - 1);
      }
    }
  }

  /** The blocking loop ends exactly when there is nothing to wait for, or the head is not already marked
      done and sooner or later as many attempts succeed as there are queries still to launch. */
  lemma BlockingEnds(s: State, sends: nat -> bool)
    requires Inv(s)
    ensures (exists k: nat :: BlockTrips(s, sends, 0, k).queue == []) <==>
            s.queue == [] || (!HeadDone(s) && exists n: nat :: Successes(sends, 0, n) >= ToLaunch(s))
  {
    if s.queue == [] {
      assert BlockTrips(s, sends, 0, 0).queue == [];
    } else {
      if k: nat :| BlockTrips(s, sends, 0, k).queue == [] {
        var n := EndedAfterEnough(s, sends, 0, k);
      }
      if n: nat :| !HeadDone(s) && Successes(sends, 0, n) >= ToLaunch(s) {
        var k := EnoughAttemptsEnd(s, sends, 0, n);
      }
    }
  }

  /** A result that came in before the call leaves the head marked done: then it never ends, even if every
      attempt succeeds. */
  lemma ResultBeforeBlocking(text: string, status: Status, k: nat)
    ensures var s := Run(Initial, [Schedule(text, true), Result(status)]);
            HeadDone(s) && BlockTrips(s, _ => true, 0, k).queue != []
  {
    var s1 := Step(Initial, Schedule(text, true));
    var s2 := Step(s1, Result(status));
    assert [Schedule(text, true), Result(status)][1..] == [Result(status)];
    assert Run(s1, [Result(status)]) == Run(s2, []);
    RunKeepsInv(Initial, [Schedule(text, true), Result(status)]);
    BlockingEnds(s2, _ => true);
  }

  /** The database's queue; its methods take the steps above. */
  class DatabasePostgres {
    var pendingQueries: seq<Query>
    var queryInProgress: bool
    ghost var scheduled: seq<string>
    ghost var launched: seq<string>
    ghost var finished: seq<string>

    ghost function Abstract(): State
      reads this
    {
      State(pendingQueries, queryInProgress, scheduled, launched, finished)
    }

    constructor ()
      ensures Abstract() == Initial && Inv(Abstract())
    {
      pendingQueries, queryInProgress := [], false;
      scheduled, launched, finished := [], [], [];
    }

    method QueryResult(status: Status)
      requires Inv(Abstract())
      modifies this
      ensures Abstract() == Step(old(Abstract()), Result(status)) && Inv(Abstract())
    {
      StepKeepsInv(Abstract(), Result(status));
      if !queryInProgress || pendingQueries == [] {
        return;
      }
      var q := pendingQueries[0];
      if q.status == EmptyQuery {
        return;
      }
      if q.status == status {
        pendingQueries := pendingQueries[0 := q.(status := EmptyQuery)];
      } else {
        // The error is reported; the query counts as done all the same.
        pendingQueries := pendingQueries[0 := q.(status := EmptyQuery)];
      }
    }

    method CompleteQuery()
      requires Inv(Abstract())
      modifies this
      ensures Abstract() == Step(old(Abstract()), QueryComplete) && Inv(Abstract())
    {
      StepKeepsInv(Abstract(), QueryComplete);
      if !queryInProgress || pendingQueries == [] {
        return;
      }
      var q := pendingQueries[0];
      if q.status != EmptyQuery {
        return;
      }
      finished := finished + [q.text];
      pendingQueries := pendingQueries[1..];
      queryInProgress := false;
    }

    method LaunchNewQuery(connected: bool, accepted: bool) returns (result: int)
      requires Inv(Abstract())
      modifies this
      ensures Abstract() == Step(old(Abstract()), Launch(connected && accepted)) && Inv(Abstract())
      ensures result == 0 <==> !old(queryInProgress) && queryInProgress
      ensures result == 0 || result == -1
    {
      StepKeepsInv(Abstract(), Launch(connected && accepted));
      if !connected {
        return -1;
      }
      if queryInProgress {
        return -1;
      }
      if pendingQueries == [] {
        return -1;
      }
      if !accepted {
        return -1;
      } else {
        queryInProgress := true;
        launched := launched + [pendingQueries[0].text];
        return 0;
      }
    }

    method ScheduleCommand(text: string, connected: bool, accepted: bool) returns (result: int)
      requires Inv(Abstract())
      modifies this
      ensures Abstract() == Step(old(Abstract()), Schedule(text, connected && accepted)) && Inv(Abstract())
      ensures result == 0 <==> queryInProgress
    {
      StepKeepsInv(Abstract(), Schedule(text, connected && accepted));
      pendingQueries := pendingQueries + [Query(text, CommandOk)];
      scheduled := scheduled + [text];
      if !queryInProgress {
        assert Texts(pendingQueries) == Texts(old(pendingQueries)) + [text];
        result := LaunchNewQuery(connected, accepted);
      } else {
        result := 0;
      }
    }

    /** `outcome` is what commandOk() returns after reading the query's results. */
    method ClearPendingQuery(outcome: int) returns (result: int)
      requires Inv(Abstract())
      modifies this
      ensures Abstract() == Step(old(Abstract()), ClearPending) && Inv(Abstract())
      ensures result == if !old(queryInProgress) then 0 else if HeadDone(old(Abstract())) then -1 else outcome
    {
      StepKeepsInv(Abstract(), ClearPending);
      if !queryInProgress {
        return 0;
      }
      var q := pendingQueries[0];
      if q.status == CommandOk {
        queryInProgress := false;
        finished := finished + [q.text];
        pendingQueries := pendingQueries[1..];
        return outcome;
      } else {
        return -1;
      }
    }

    /** `sends(j)` is the outcome of the loop's attempt `j` to launch a query.  The precondition is the
        condition for the loop to end. */
    method BlockUntilAllQueriesComplete(sends: nat -> bool, ghost n: nat)
      requires Inv(Abstract())
      requires pendingQueries == [] || (!HeadDone(Abstract()) && Successes(sends, 0, n) >= ToLaunch(Abstract()))
      modifies this
      ensures Inv(Abstract()) && pendingQueries == [] && !queryInProgress
      ensures scheduled == old(scheduled) && finished == scheduled && launched == scheduled
    {
      var j := 0;
      while pendingQueries != []
        invariant Inv(Abstract()) && scheduled == old(scheduled) && j <= n
        invariant pendingQueries == [] || (!HeadDone(Abstract()) && Successes(sends, j, n) >= ToLaunch(Abstract()))
        decreases n - j, |pendingQueries|
      {
        if !queryInProgress {
          var _ := LaunchNewQuery(true, sends(j));
          j := j + 1;
        } else {
          var _ := ClearPendingQuery(0);
        }
      }
      assert Texts(pendingQueries) == [];
    }
  }
}
