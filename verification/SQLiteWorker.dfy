/** The SQLite worker thread (src/common/DatabaseSQLite.cpp, lines 58-103 and 379-388) as a step system.

    A step is one critical section of one thread, or one action between two of them, so a run is any
    interleaving of the worker, any number of scheduling threads and any number of threads in
    blockUntilAllQueriesComplete.  The worker may wake up spuriously; blocked callers do not. */
module SQLiteWorker {
  import opened Options
  import Sequences

  type ThreadId = nat

  datatype Worker =
    | AtTop                 // about to take the lock at the top of the loop
    | Running(cmd: string)  // lock released, the command is being run
    | Ran(cmd: string)      // the command has been run, its queue entry is still there
    | Idle                  // lock held; found the queue empty and m_active set, notified the callers
    | Asleep                // in m_workerCondition.wait
    | Exited

  /** A caller of blockUntilAllQueriesComplete in m_queueEmptyCondition.wait; `since` commands had been
      scheduled when it called. */
  datatype Waiter = Blocked(since: nat) | Notified(since: nat)

  /** `scheduled` and `executed` are histories; `toNotify` counts schedulers between their critical section and
      their notify_all, `stopping` is the destructor between clearing m_active and its notify_all. */
  datatype State = State(queue: seq<string>, worker: Worker, active: bool, stopping: bool, toNotify: nat,
                         waiters: map<ThreadId, Waiter>, scheduled: seq<string>, executed: seq<string>)

  datatype Event =
    | Push(cmd: string) | Notify
    | Stop | StopNotify
    | Take | RunCommand | Pop | GoIdle | Sleep | Exit | SpuriousWake
    | BlockCall(t: ThreadId) | BlockReturn(t: ThreadId)

  const Initial := State([], AtTop, true, false, 0, map[], [], [])

  function Wake(w: Worker): Worker {
    if w == Asleep then AtTop else w
  }

  function NotifyAll(waiters: map<ThreadId, Waiter>): map<ThreadId, Waiter> {
    map t | t in waiters :: Notified(waiters[t].since)
  }

  /** The state after the step, or None when the step cannot be taken.  Critical sections of other threads
      wait while the worker holds the lock; m_active is cleared without it. */
  function Step(s: State, e: Event): Option<State> {
    match e
    case Push(cmd) =>
      if s.worker == Idle then None
      else Some(s.(queue := s.queue + [cmd], scheduled := s.scheduled + [cmd], toNotify := s.toNotify + 1))
    case Notify =>
      if s.toNotify > 0 then Some(s.(toNotify := s.toNotify - 1, worker := Wake(s.worker))) else None
    case Stop =>
      if s.active then Some(s.(active := false, stopping := true)) else None
    case StopNotify =>
      if s.stopping then Some(s.(stopping := false, worker := Wake(s.worker))) else None
    case Take =>
      if s.worker == AtTop && s.queue != [] then Some(s.(worker := Running(s.queue[0]))) else None
    case RunCommand =>
      if s.worker.Running? then Some(s.(worker := Ran(s.worker.cmd), executed := s.executed + [s.worker.cmd])) else None
    case Pop =>
      if s.worker.Ran? && s.queue != [] then Some(s.(worker := AtTop, queue := s.queue[1..])) else None
    case GoIdle =>
      if s.worker == AtTop && s.queue == [] && s.active then
        Some(s.(worker := Idle, waiters := NotifyAll(s.waiters)))
      else None
    case Sleep =>
      if s.worker == Idle then Some(s.(worker := Asleep)) else None
    case Exit =>
      if s.worker == AtTop && s.queue == [] && !s.active then Some(s.(worker := Exited)) else None
    case SpuriousWake =>
      if s.worker == Asleep then Some(s.(worker := AtTop)) else None
    case BlockCall(t) =>
      if t in s.waiters || s.worker == Idle then None
      else if s.queue == [] then Some(s)
      else Some(s.(waiters := s.waiters[t := Blocked(|s.scheduled|)]))
    case BlockReturn(t) =>
      if t in s.waiters && s.waiters[t].Notified? && s.worker != Idle
        then Some(s.(waiters := s.waiters - {t})) else None
  }

  function Run(s: State, es: seq<Event>): Option<State>
    decreases |es|
  {
    if es == [] then Some(s)
    else match Step(s, es[0]) case None => None case Some(s') => Run(s', es[1..])
  }

  /** The commands not yet executed. */
  function Remaining(s: State): seq<string> {
    if s.worker.Ran? && s.queue != [] then s.queue[1..] else s.queue
  }

  predicate QueueOk(s: State) {
    && s.scheduled == s.executed + Remaining(s)
    && (s.worker.Running? || s.worker.Ran? ==> s.queue != [] && s.worker.cmd == s.queue[0])
    && (s.worker.Ran? ==> s.executed != [] && s.executed[|s.executed| - 1] == s.worker.cmd)
    // A sleeping worker with work to do is about to be notified.
    && (s.worker == Asleep && s.queue != [] ==> s.toNotify > 0)
    && (s.worker == Idle ==> s.queue == [])
    && (s.worker == Exited ==> !s.active)
  }

  predicate WaitersOk(s: State) {
    forall t :: t in s.waiters ==>
      && s.waiters[t].since <= |s.scheduled|
      && (s.waiters[t].Notified? ==> s.waiters[t].since <= |s.executed|)
      // Nobody stays blocked while the worker sleeps on an empty queue.
      && (s.waiters[t].Blocked? && (s.worker == Idle || s.worker == Asleep) ==> s.queue != [])
  }

  predicate Inv(s: State) {
    QueueOk(s) && WaitersOk(s)
  }

  lemma StepKeepsQueue(s: State, e: Event)
    requires QueueOk(s) && Step(s, e).Some?
    ensures QueueOk(Step(s, e).value)
  {
    var s' := Step(s, e).value;
    match e
    case Push(cmd) =>
      assert Remaining(s') == Remaining(s) + [cmd];
      Sequences.ConcatAssociates(s.executed, Remaining(s), [cmd]);
    case RunCommand =>
      assert Remaining(s) == [s.worker.cmd] + Remaining(s');
      Sequences.ConcatAssociates(s.executed, [s.worker.cmd], Remaining(s'));
    case _ =>
  }

  lemma StepKeepsWaiters(s: State, e: Event)
    requires Inv(s) && Step(s, e).Some?
    ensures WaitersOk(Step(s, e).value)
  {
    if e == GoIdle {
      assert s.scheduled == s.executed;
    }
  }

  lemma StepKeepsInv(s: State, e: Event)
    requires Inv(s) && Step(s, e).Some?
    ensures Inv(Step(s, e).value)
  {
    StepKeepsQueue(s, e);
    StepKeepsWaiters(s, e);
    hide Step;
  }

  lemma {:induction false} RunKeepsInv(s: State, es: seq<Event>)
    requires Inv(s) && Run(s, es).Some?
    ensures Inv(Run(s, es).value)
    decreases |es|
  {
    if es != [] {
      StepKeepsInv(s, es[0]);
      RunKeepsInv(Step(s, es[0]).value, es[1..]);
    }
  }

  /** The commands that were pushed, in order. */
  function Pushed(es: seq<Event>): seq<string> {
    if es == [] then [] else PushedBy(es[0]) + Pushed(es[1..])
  }

  function PushedBy(e: Event): seq<string> {
    if e.Push? then [e.cmd] else []
  }

  lemma {:induction false} ScheduledIsPushed(s: State, es: seq<Event>)
    requires Run(s, es).Some?
    ensures Run(s, es).value.scheduled == s.scheduled + Pushed(es)
    decreases |es|
  {
    if es == [] {
      assert s.scheduled + Pushed(es) == s.scheduled;
    } else {
      ScheduledNext(s, es[0]);
      hide Step, PushedBy;
      ScheduledIsPushed(Step(s, es[0]).value, es[1..]);
      Sequences.ConcatAssociates(s.scheduled, PushedBy(es[0]), Pushed(es[1..]));
    }
  }

  lemma ScheduledNext(s: State, e: Event)
    requires Step(s, e).Some?
    ensures Step(s, e).value.scheduled == s.scheduled + PushedBy(e)
  {
  }

  /** In every reachable state the executed commands and the rest of the queue are the commands in schedule
      order, and a worker that sleeps on a non-empty queue has a scheduler that is yet to notify it. */
  lemma ReachableStates(es: seq<Event>)
    requires Run(Initial, es).Some?
    ensures var s := Run(Initial, es).value;
            && s.scheduled == s.executed + Remaining(s) == Pushed(es)
            && (s.worker.Running? ==> Remaining(s) != [] && s.worker.cmd == Remaining(s)[0])
            && (s.worker == Asleep && s.queue != [] ==> s.toNotify > 0)
  {
    RunKeepsInv(Initial, es);
    ScheduledIsPushed(Initial, es);
  }

  /** Histories only grow, and a blocked call keeps the number it noted until it returns. */
  lemma {:induction false} RunKeepsWaiter(s: State, es: seq<Event>, t: ThreadId)
    requires t in s.waiters && Run(s, es).Some? && BlockReturn(t) !in es
    ensures var s' := Run(s, es).value;
            t in s'.waiters && s'.waiters[t].since == s.waiters[t].since && s.scheduled <= s'.scheduled
    decreases |es|
  {
    if es != [] {
      assert es[0] in es;
      var s1 := Step(s, es[0]).value;
      assert forall e :: e in es[1..] ==> e in es;
      StepKeepsWaiter(s, es[0], t);
      hide Step;
      RunKeepsWaiter(s1, es[1..], t);
    }
  }

  lemma StepKeepsWaiter(s: State, e: Event, t: ThreadId)
    requires t in s.waiters && Step(s, e).Some? && e != BlockReturn(t)
    ensures var s' := Step(s, e).value;
            t in s'.waiters && s'.waiters[t].since == s.waiters[t].since && s.scheduled <= s'.scheduled
  {
  }

  lemma {:induction false} RunAppend(s: State, es: seq<Event>, fs: seq<Event>)
    ensures Run(s, es + fs) == match Run(s, es) case None => None case Some(s') => Run(s', fs)
    decreases |es|
  {
    if es == [] {
      assert es + fs == fs;
    } else {
      assert (es + fs)[0] == es[0] && (es + fs)[1..] == es[1..] + fs;
      match Step(s, es[0])
      case None =>
      case Some(s') => RunAppend(s', es[1..], fs);
    }
  }

  /** When a call of blockUntilAllQueriesComplete returns, every command scheduled before the call has run,
      whatever the other threads did meanwhile: at once when the queue was empty, else at its wake-up. */
  lemma BlockedCallSawItsCommands(before: seq<Event>, during: seq<Event>, t: ThreadId)
    requires Run(Initial, before).Some? && t !in Run(Initial, before).value.waiters
    requires BlockReturn(t) !in during
    ensures var called := Run(Initial, before).value;
            called.queue == [] ==> called.executed == called.scheduled
    ensures var called := Run(Initial, before).value;
            var run := Run(Initial, before + [BlockCall(t)] + during);
            called.queue != [] && run.Some? && Step(run.value, BlockReturn(t)).Some? ==>
              called.scheduled <= run.value.executed
  {
    var called := Run(Initial, before).value;
    RunKeepsInv(Initial, before);
    var run := Run(Initial, before + [BlockCall(t)] + during);
    if called.queue != [] && run.Some? && Step(run.value, BlockReturn(t)).Some? {
      assert before + [BlockCall(t)] + during == before + ([BlockCall(t)] + during);
      RunAppend(Initial, before, [BlockCall(t)] + during);
      var blocked := Step(called, BlockCall(t)).value;
      RunFirst(called, BlockCall(t), during);
      StepKeepsInv(called, BlockCall(t));
      NotifiedSawAll(blocked, during, t);
    }
  }

  /** A caller whose wait is over finds the commands it counted executed. */
  lemma NotifiedSawAll(blocked: State, during: seq<Event>, t: ThreadId)
    requires Inv(blocked) && t in blocked.waiters && blocked.waiters[t].since == |blocked.scheduled|
    requires BlockReturn(t) !in during && Run(blocked, during).Some?
    requires Step(Run(blocked, during).value, BlockReturn(t)).Some?
    ensures blocked.scheduled <= Run(blocked, during).value.executed
  {
    var s := Run(blocked, during).value;
    RunKeepsWaiter(blocked, during, t);
    RunKeepsInv(blocked, during);
    assert s.scheduled == s.executed + Remaining(s) && |blocked.scheduled| <= |s.executed|;
    hide Run, Remaining;
    assert blocked.scheduled == s.scheduled[..|blocked.scheduled|] == s.executed[..|blocked.scheduled|];
  }

  /** The steps the program takes on its own: those of the worker and of notifying threads. */
  predicate Internal(e: Event) {
    e.Take? || e.RunCommand? || e.Pop? || e.GoIdle? || e.Sleep? || e.Exit? || e.Notify? || e.StopNotify?
  }

  /** The program waits for others: no such step is left. */
  ghost predicate Quiet(s: State) {
    forall e :: Internal(e) ==> Step(s, e).None?
  }

  /** When no such step is left and the worker has not exited, all work is done and nobody is stuck. */
  lemma NobodyStuck(s: State)
    requires Inv(s) && Quiet(s)
    requires s.worker != Exited
    ensures s.executed == s.scheduled && forall t :: t in s.waiters ==> s.waiters[t].Notified?
  {
    assert Step(s, Take).None? && Step(s, RunCommand).None? && Step(s, Pop).None?;
    assert Step(s, GoIdle).None? && Step(s, Sleep).None? && Step(s, Exit).None? && Step(s, Notify).None?;
  }

  /** Steps the program can still take on its own. */
  function Measure(s: State): nat {
    6 * |s.queue| + 3 * s.toNotify + (if s.stopping then 3 else 0)
    + match s.worker
      case AtTop => 5
      case Running(_) => 4
      case Ran(_) => 3
      case Idle => 4
      case Asleep => 3
      case Exited => 0
  }

  lemma InternalStepsEnd(s: State, e: Event)
    requires Inv(s) && Internal(e) && Step(s, e).Some?
    ensures Measure(Step(s, e).value) < Measure(s)
  {
  }

  /** Left alone, the program comes to rest; it neither stops nor gains or loses waiters on the way. */
  lemma {:induction false} ComesToRest(s: State) returns (es: seq<Event>)
    requires Inv(s)
    ensures Run(s, es).Some?
    ensures var s' := Run(s, es).value;
            Inv(s') && Quiet(s') && s'.active == s.active && s'.waiters.Keys == s.waiters.Keys
    decreases Measure(s)
  {
    es := [];
    if e :| Internal(e) && Step(s, e).Some? {
      StepKeepsInv(s, e);
      InternalStepsEnd(s, e);
      InternalKeeps(s, e);
      hide Step, Inv, Measure, Quiet;
      var rest := ComesToRest(Step(s, e).value);
      RunFirst(s, e, rest);
      es := [e] + rest;
    }
  }

  lemma InternalKeeps(s: State, e: Event)
    requires Internal(e) && Step(s, e).Some?
    ensures Step(s, e).value.active == s.active && Step(s, e).value.waiters.Keys == s.waiters.Keys
  {
  }

  /** Once the flag is cleared a blocked caller stays blocked, whatever happens: nobody notifies it any more. */
  lemma {:induction false} NobodyReleased(s: State, es: seq<Event>, t: ThreadId)
    requires !s.active && t in s.waiters && s.waiters[t].Blocked? && Run(s, es).Some?
    ensures t in Run(s, es).value.waiters && Run(s, es).value.waiters[t].Blocked?
    decreases |es|
  {
    if es != [] {
      NobodyReleased(Step(s, es[0]).value, es[1..], t);
    }
  }

  /** A blocked caller stays blocked in every continuation exactly when the worker was told to stop before it
      could notify the caller; while it was not, coming to rest releases the caller. */
  lemma BlockedForEverIff(s: State, t: ThreadId)
    requires Inv(s) && t in s.waiters && s.waiters[t].Blocked?
    ensures (forall es :: Run(s, es).Some? ==>
             t in Run(s, es).value.waiters && Run(s, es).value.waiters[t].Blocked?) <==>
            !s.active
    ensures s.active ==> forall es :: Run(s, es).Some? && Quiet(Run(s, es).value) && Run(s, es).value.active ==>
              (t in Run(s, es).value.waiters ==> Run(s, es).value.waiters[t].Notified?)
  {
    if s.active {
      var es := ComesToRest(s);
      NobodyStuck(Run(s, es).value);
      forall es | Run(s, es).Some? && Quiet(Run(s, es).value) && Run(s, es).value.active
        ensures t in Run(s, es).value.waiters ==> Run(s, es).value.waiters[t].Notified?
      {
        RunKeepsInv(s, es);
        NobodyStuck(Run(s, es).value);
      }
    } else {
      forall es | Run(s, es).Some?
        ensures t in Run(s, es).value.waiters && Run(s, es).value.waiters[t].Blocked?
      {
        NobodyReleased(s, es, t);
      }
    }
  }

  /** A stop that overtakes the last command leaves a caller blocked, although every command has run. */
  lemma StopOvertakesCaller(cmd: string, t: ThreadId)
    ensures var es := [Push(cmd), BlockCall(t), Take, RunCommand, Pop, Stop, Exit];
            && Run(Initial, es).Some?
            && var s := Run(Initial, es).value;
            && s.worker == Exited && s.executed == s.scheduled
            && t in s.waiters && s.waiters[t].Blocked?
  {
    var w := map[t := Blocked(1)];
    var s2 := State([cmd], AtTop, true, false, 1, w, [cmd], []);
    var s5 := State([], AtTop, true, false, 1, w, [cmd], [cmd]);
    CommandScheduledAndAwaited(cmd, t);
    CommandExecuted(cmd, w);
    RunAppend(Initial, [Push(cmd), BlockCall(t)], [Take, RunCommand, Pop]);
    RunAppend(Initial, [Push(cmd), BlockCall(t), Take, RunCommand, Pop], [Stop, Exit]);
    assert [Push(cmd), BlockCall(t)] + [Take, RunCommand, Pop] == [Push(cmd), BlockCall(t), Take, RunCommand, Pop];
    assert [Push(cmd), BlockCall(t), Take, RunCommand, Pop] + [Stop, Exit]
        == [Push(cmd), BlockCall(t), Take, RunCommand, Pop, Stop, Exit];
    RunFirst(s5, Stop, [Exit]);
    RunFirst(Step(s5, Stop).value, Exit, []);
  }

  lemma CommandScheduledAndAwaited(cmd: string, t: ThreadId)
    ensures Run(Initial, [Push(cmd), BlockCall(t)]) ==
            Some(State([cmd], AtTop, true, false, 1, map[t := Blocked(1)], [cmd], []))
  {
    var s1 := Step(Initial, Push(cmd)).value;
    RunFirst(Initial, Push(cmd), [BlockCall(t)]);
    RunFirst(s1, BlockCall(t), []);
    assert s1.queue == [cmd] && s1.scheduled == [cmd];
    assert s1.waiters[t := Blocked(1)] == map[t := Blocked(1)];
  }

  lemma CommandExecuted(cmd: string, w: map<ThreadId, Waiter>)
    ensures Run(State([cmd], AtTop, true, false, 1, w, [cmd], []), [Take, RunCommand, Pop]) ==
            Some(State([], AtTop, true, false, 1, w, [cmd], [cmd]))
  {
    var s2 := State([cmd], AtTop, true, false, 1, w, [cmd], []);
    var s3 := Step(s2, Take).value;
    var s4 := Step(s3, RunCommand).value;
    RunFirst(s2, Take, [RunCommand, Pop]);
    RunFirst(s3, RunCommand, [Pop]);
    RunFirst(s4, Pop, []);
    assert s4.executed == [cmd] && s4.queue[1..] == [];
  }

  lemma RunFirst(s: State, e: Event, es: seq<Event>)
    requires Step(s, e).Some?
    ensures Run(s, [e] + es) == Run(Step(s, e).value, es)
  {
    assert ([e] + es)[0] == e && ([e] + es)[1..] == es;
  }

  /** The worker will see the stop: it is not between its check of the flag and its wait, and if it sleeps,
      somebody is about to notify it. */
  predicate WillSeeStop(s: State) {
    !s.active && s.worker != Idle && (s.worker == Asleep ==> s.stopping || s.toNotify > 0)
  }

  lemma {:induction false} RunKeepsWillSeeStop(s: State, es: seq<Event>)
    requires WillSeeStop(s) && Run(s, es).Some?
    ensures WillSeeStop(Run(s, es).value)
    decreases |es|
  {
    if es != [] {
      RunKeepsWillSeeStop(Step(s, es[0]).value, es[1..]);
    }
  }

  /** At rest, a worker that will see the stop has seen it. */
  lemma SeenAtRest(s: State)
    requires Inv(s) && Quiet(s) && WillSeeStop(s)
    ensures s.worker == Exited
  {
    assert Step(s, Take).None? && Step(s, RunCommand).None? && Step(s, Pop).None? && Step(s, Exit).None?;
    assert Step(s, Notify).None? && Step(s, StopNotify).None?;
  }

  /** The worker exits with nothing left to run, and runs nothing afterwards. */
  lemma ExitLeavesNothing(s: State, e: Event)
    requires Inv(s) && Step(s, e).Some? && Step(s, e).value.worker == Exited
    ensures s.worker != Exited ==> s.queue == [] && s.executed == s.scheduled && !s.active
    ensures s.worker == Exited ==> Step(s, e).value.executed == s.executed
    ensures s.executed <= Step(s, e).value.executed
  {
  }

  lemma StepKeepsHistories(s: State, e: Event)
    requires Step(s, e).Some?
    ensures s.scheduled <= Step(s, e).value.scheduled && s.executed <= Step(s, e).value.executed
  {
  }

  lemma {:induction false} RunKeepsHistories(s: State, es: seq<Event>)
    requires Run(s, es).Some?
    ensures s.scheduled <= Run(s, es).value.scheduled && s.executed <= Run(s, es).value.executed
    decreases |es|
  {
    if es != [] {
      StepKeepsHistories(s, es[0]);
      hide Step;
      RunKeepsHistories(Step(s, es[0]).value, es[1..]);
    }
  }

  /** Whatever was scheduled while the worker was there has been run when it is gone. */
  lemma {:induction false} GoneAfterWork(s: State, es: seq<Event>)
    requires Inv(s) && s.worker != Exited
    requires Run(s, es).Some? && Run(s, es).value.worker == Exited
    ensures s.scheduled <= Run(s, es).value.executed
    decreases |es|
  {
    var s1, rest := Step(s, es[0]).value, es[1..];
    StepKeepsInv(s, es[0]);
    StepKeepsHistories(s, es[0]);
    RunKeepsHistories(s1, rest);
    if s1.worker == Exited {
      ExitLeavesNothing(s, es[0]);
    } else {
      hide Step;
      GoneAfterWork(s1, rest);
    }
  }

  /** A stop loses no command: in every run that stops the worker and ends after its exit, all commands scheduled
      before the stop have been run, and so have those scheduled later while the worker was still there. */
  lemma StopRunsEverything(before: seq<Event>, during: seq<Event>)
    requires Run(Initial, before).Some? && Run(Initial, before + during).Some?
    requires Run(Initial, before + during).value.worker == Exited
    ensures Run(Initial, before).value.active || Run(Initial, before).value.worker != Exited ==>
              Run(Initial, before).value.scheduled <= Run(Initial, before + during).value.executed
  {
    RunAppend(Initial, before, during);
    RunKeepsInv(Initial, before);
    var s := Run(Initial, before).value;
    if s.worker != Exited {
      GoneAfterWork(s, during);
    }
  }

  /** The run in which an idle worker sleeps only after everybody has notified it. */
  lemma {:induction false} SleepsAfterNotifications(s: State) returns (es: seq<Event>)
    requires Inv(s) && s.worker == Idle && !s.active && s.stopping
    ensures Run(s, es).Some? && Quiet(Run(s, es).value) && Run(s, es).value.worker == Asleep
    decreases s.toNotify
  {
    if s.toNotify > 0 {
      StepKeepsInv(s, Notify);
      var rest := SleepsAfterNotifications(Step(s, Notify).value);
      RunFirst(s, Notify, rest);
      es := [Notify] + rest;
    } else {
      es := [StopNotify, Sleep];
      var s1 := Step(s, StopNotify).value;
      RunFirst(s, StopNotify, [Sleep]);
      RunFirst(s1, Sleep, []);
      assert [StopNotify] + [Sleep] == es && [Sleep] + [] == [Sleep];
      assert Run(s, es) == Some(Step(s1, Sleep).value);
    }
  }

  /** The flag is cleared outside the lock: a stop ends the worker in every continuation that comes to rest
      exactly when it is not taken while the worker is between its check of the flag and its wait. */
  lemma StopEndsWorkerIff(s: State)
    requires Inv(s) && s.active
    ensures (forall es :: var r := Run(Step(s, Stop).value, es); r.Some? && Quiet(r.value) ==>
             r.value.worker == Exited && s.scheduled <= r.value.executed) <==>
            s.worker != Idle
  {
    var s1 := Step(s, Stop).value;
    StepKeepsInv(s, Stop);
    if s.worker == Idle {
      var es := SleepsAfterNotifications(s1);
      assert Run(s1, es).Some?;
    } else {
      forall es | Run(s1, es).Some? && Quiet(Run(s1, es).value)
        ensures Run(s1, es).value.worker == Exited && s.scheduled <= Run(s1, es).value.executed
      {
        RunKeepsInv(s1, es);
        RunKeepsWillSeeStop(s1, es);
        SeenAtRest(Run(s1, es).value);
        GoneAfterWork(s1, es);
      }
    }
  }

  /** A run that gets there: the worker misses the stop and sleeps for ever. */
  lemma StopCanBeMissed()
    ensures var es := [GoIdle, Stop, StopNotify, Sleep];
            && Run(Initial, es).Some?
            && var s := Run(Initial, es).value;
            && !s.active && s.worker == Asleep && Quiet(s)
  {
    var s1 := Step(Initial, GoIdle).value;
    var s2 := Step(s1, Stop).value;
    var s3 := Step(s2, StopNotify).value;
    RunFirst(Initial, GoIdle, [Stop, StopNotify, Sleep]);
    RunFirst(s1, Stop, [StopNotify, Sleep]);
    RunFirst(s2, StopNotify, [Sleep]);
    RunFirst(s3, Sleep, []);
  }
}
