/** Starting and stopping a thread: every section under the mutex is one step. */
module ThreadProtocol {

  /** Where the worker is: there is none, it has been created, it is inside `run`, or
      `run` has returned and the closing section is still to come. */
  datatype Worker = Absent | Created | InRun | Leaving

  /** A caller of threadStop: not inside; sleeping between polls, having seen run
      number `run`; or back, having waited or not. */
  datatype Caller = Idle | Waiting(run: nat) | Back(waited: bool, run: nat)

  /** `flag` is bit 0 of the flags; `returned` counts the runs whose `run` has returned. */
  datatype State = State(
    flag: bool, isRunning: bool, runcount: nat, returned: nat, worker: Worker, callers: map<nat, Caller>)

  datatype Event =
    | Start                       // threadStart: check, clear, create
    | StartUp                     // first section of threadStartUp
    | RunReturns                  // `run` returns
    | Close                       // last section of threadStartUp
    | StopEnter(id: nat)          // first section of threadStop
    | StopPoll(id: nat)           // a later section of threadStop
    | SignalStop                  // threadSignalStop
    | ShouldStop(answer: bool)    // threadShouldStop, asked from inside `run`
    | IsRunning(result: bool)     // threadIsRunning

  const START := State(false, false, 0, 0, Absent, map[])

  function CallerOf(s: State, id: nat): Caller {
    if id in s.callers then s.callers[id] else Idle
  }

  /** May this step happen now? A thread is not started again while a worker is alive;
      the questions get the answers that the fields hold. */
  predicate Enabled(s: State, e: Event) {
    match e
    case Start => s.worker == Absent && !s.isRunning
    case StartUp => s.worker == Created
    case RunReturns => s.worker == InRun
    case Close => s.worker == Leaving
    case StopEnter(id) => !CallerOf(s, id).Waiting?
    case StopPoll(id) => CallerOf(s, id).Waiting?
    case SignalStop => true
    case ShouldStop(answer) => s.worker == InRun && answer == s.flag
    case IsRunning(result) => result == s.isRunning
  }

  function After(s: State, e: Event): State {
    match e
    case Start => s.(isRunning := false, worker := Created)
    case StartUp => s.(runcount := s.runcount + 1, isRunning := true, worker := InRun)
    case RunReturns => s.(returned := s.returned + 1, worker := Leaving)
    case Close => s.(flag := false, isRunning := false, worker := Absent)
    case StopEnter(id) =>
      // The flag is set. If nothing runs, the loop is not entered and the same section clears it.
      if s.isRunning then s.(flag := true, callers := s.callers[id := Waiting(s.runcount)])
      else s.(flag := false, callers := s.callers[id := Back(false, s.runcount)])
    case StopPoll(id) =>
      if s.isRunning || !CallerOf(s, id).Waiting? then s
      else s.(flag := false, callers := s.callers[id := Back(true, CallerOf(s, id).run)])
    case SignalStop => s.(flag := true)
    case ShouldStop(_) => s
    case IsRunning(_) => s
  }

  /** The state after a sequence of steps. */
  function RunFrom(s: State, events: seq<Event>): State
    decreases |events|
  {
    if events == [] then s else After(RunFrom(s, events[..|events| - 1]), events[|events| - 1])
  }

  ghost predicate Possible(s: State, events: seq<Event>)
    decreases |events|
  {
    events == [] ||
    (Possible(s, events[..|events| - 1]) && Enabled(RunFrom(s, events[..|events| - 1]), events[|events| - 1]))
  }

  /** What every step keeps. */
  ghost predicate Inv(s: State) {
    && (s.isRunning <==> s.worker == InRun || s.worker == Leaving)
    && s.runcount == s.returned + (if s.worker == InRun then 1 else 0) && (s.isRunning ==> s.runcount > 0)
    && (forall id | id in s.callers :: CallerInv(s, s.callers[id]))
  }

  ghost predicate CallerInv(s: State, c: Caller) {
    && (c.Waiting? ==> 0 < c.run <= s.runcount && (s.worker == InRun && c.run == s.runcount ==> s.flag))
    && (c.Back? ==> c.run <= s.runcount && (c.waited ==> c.run <= s.returned))
  }

  lemma StepKeeps(s: State, e: Event)
    requires Inv(s) && Enabled(s, e)
    ensures Inv(After(s, e))
  {
    var t := After(s, e);
    forall id | id in t.callers ensures CallerInv(t, t.callers[id]) {
      if id in s.callers { assert CallerInv(s, s.callers[id]); }
    }
  }

  lemma {:induction false} AlwaysInv(events: seq<Event>)
    requires Possible(START, events)
    ensures Inv(RunFrom(START, events))
    decreases |events|
  {
    if events != [] {
      AlwaysInv(events[..|events| - 1]);
      StepKeeps(RunFrom(START, events[..|events| - 1]), events[|events| - 1]);
    }
  }

  // --------------------------------------------------------------- over whole runs

  /** The state in front of event number `i`. */
  function At(events: seq<Event>, i: nat): State
    requires i <= |events|
  {
    RunFrom(START, events[..i])
  }

  lemma {:induction false} PossiblePrefix(events: seq<Event>, i: nat)
    requires Possible(START, events) && i <= |events|
    ensures Possible(START, events[..i])
    decreases |events|
  {
    if i == |events| {
      assert events[..i] == events;
    } else {
      var front := events[..|events| - 1];
      PossiblePrefix(front, i);
      assert front[..i] == events[..i];
    }
  }

  lemma OneStep(events: seq<Event>, i: nat)
    requires Possible(START, events) && i < |events|
    ensures Enabled(At(events, i), events[i]) && At(events, i + 1) == After(At(events, i), events[i])
    ensures Inv(At(events, i)) && Inv(At(events, i + 1))
  {
    PossiblePrefix(events, i + 1);
    PossiblePrefix(events, i);
    assert events[..i + 1][..i] == events[..i];
    AlwaysInv(events[..i]);
    AlwaysInv(events[..i + 1]);
  }

  lemma {:induction false} Forward(events: seq<Event>, i: nat, j: nat)
    requires Possible(START, events) && i <= j <= |events|
    ensures At(events, i).runcount <= At(events, j).runcount && At(events, i).returned <= At(events, j).returned
    decreases j
  {
    if i < j {
      OneStep(events, j - 1);
      Forward(events, i, j - 1);
    }
  }

  /** If `k` runs have returned, there was a step in which run number `k` did. */
  lemma {:induction false} RunDidReturn(events: seq<Event>, j: nat, k: nat) returns (m: nat)
    requires Possible(START, events) && 0 < j <= |events| && 0 < k <= At(events, j).returned
    ensures m < j && events[m] == RunReturns && At(events, m).runcount == k
    decreases j
  {
    assert events[..0] == [];
    OneStep(events, j - 1);
    m := j - 1;
    if k <= At(events, j - 1).returned { m := RunDidReturn(events, j - 1, k); }
  }

  /** A caller that has seen run `k` sleeps until a poll finds the worker gone. */
  lemma {:induction false} KeepsWaiting(events: seq<Event>, i: nat, j: nat, id: nat)
    requires Possible(START, events) && i < j <= |events|
    requires events[i] == StopEnter(id) && At(events, i).isRunning
    requires forall m | i < m < j :: events[m] != StopEnter(id)
    ensures CallerOf(At(events, j), id) == Waiting(At(events, i).runcount)
            || CallerOf(At(events, j), id) == Back(true, At(events, i).runcount)
    decreases j
  {
    OneStep(events, j - 1);
    if i < j - 1 { KeepsWaiting(events, i, j - 1, id); }
  }

  /** In every interleaving: a stop whose first section finds the thread running does
      not come back before the `run` it found has returned. */
  lemma StopWaitsForRun(events: seq<Event>, i: nat, j: nat, id: nat) returns (m: nat)
    requires Possible(START, events) && i < j < |events|
    requires events[i] == StopEnter(id) && At(events, i).isRunning
    requires forall m | i < m < j :: events[m] != StopEnter(id)
    requires events[j] == StopPoll(id) && CallerOf(At(events, j + 1), id).Back?
    ensures m < j && events[m] == RunReturns && At(events, m).runcount == At(events, i).runcount
  {
    var k := At(events, i).runcount;
    KeepsWaiting(events, i, j, id);
    OneStep(events, i);
    OneStep(events, j);
    assert CallerInv(At(events, j), CallerOf(At(events, j), id));
    m := RunDidReturn(events, j, k);
  }

  /** A request made during a run stands until that run is over. */
  lemma {:induction false} FlagStands(events: seq<Event>, i: nat, n: nat, m: nat)
    requires Possible(START, events) && i < n <= m < |events|
    requires At(events, i).worker == InRun && (events[i].StopEnter? || events[i].SignalStop?)
    requires At(events, m).worker == InRun && At(events, m).runcount == At(events, i).runcount
    ensures At(events, n).worker == InRun && At(events, n).flag
    decreases n
  {
    OneStep(events, n - 1);
    OneStep(events, m);
    Forward(events, n, m);
    Forward(events, i, n - 1);
    if i < n - 1 { FlagStands(events, i, n - 1, m); }
  }

  /** Every threadShouldStop asked in the same run after a stop answers yes. */
  lemma ShouldStopAnswers(events: seq<Event>, i: nat, m: nat)
    requires Possible(START, events) && i < m < |events|
    requires At(events, i).worker == InRun && (events[i].StopEnter? || events[i].SignalStop?)
    requires events[m].ShouldStop? && At(events, m).runcount == At(events, i).runcount
    ensures events[m].answer
  {
    OneStep(events, m);
    FlagStands(events, i, m, m);
  }

  /** The first section sends a caller straight back exactly if nothing runs yet or
      any more; the request is then gone. */
  lemma StopAtOnce(s: State, id: nat)
    requires Inv(s) && Enabled(s, StopEnter(id))
    ensures CallerOf(After(s, StopEnter(id)), id) == Back(false, s.runcount) <==> !s.isRunning
    ensures !s.isRunning <==> s.worker == Absent || s.worker == Created
    ensures !s.isRunning ==> !After(s, StopEnter(id)).flag
  {
  }

  /** So a stop between the start and the first section of the worker is lost: it comes
      back at once, and the run that follows is not asked to stop. */
  lemma EarlyStopIsLost(id: nat)
    ensures
      var events := [Start, StopEnter(id), StartUp, ShouldStop(false)];
      && Possible(START, events)
      && CallerOf(At(events, 2), id) == Back(false, 0) && At(events, 3).worker == InRun
  {
    var e := [Start, StopEnter(id), StartUp, ShouldStop(false)];
    assert e[..4] == e && e[..4][..3] == e[..3] && e[..3][..2] == e[..2] && e[..2][..1] == e[..1] && e[..1][..0] == [];
    assert e[..1] == [Start] && e[..2] == [Start, StopEnter(id)] && e[..3] == [Start, StopEnter(id), StartUp];
    assert RunFrom(START, e[..1]) == After(START, Start);
    assert RunFrom(START, e[..2]) == After(RunFrom(START, e[..1]), StopEnter(id));
    assert RunFrom(START, e[..3]) == After(RunFrom(START, e[..2]), StartUp);
    assert Possible(START, e[..1]);
    assert Possible(START, e[..2]);
    assert Possible(START, e[..3]);
  }

  // ---------------------------------------- what happened, without looking at states

  /** Of the events in front of number `n`, number `i` is an `e`, and no `off` has come since. */
  ghost predicate Since(events: seq<Event>, i: nat, n: nat, e: Event, off: Event) {
    i < n <= |events| && events[i] == e && forall l | i < l < n :: events[l] != off
  }

  /** In front of number `n` a worker has begun, and has not closed yet. */
  ghost predicate Running(events: seq<Event>, n: nat) {
    exists i :: Since(events, i, n, StartUp, Close)
  }

  lemma SinceStep(events: seq<Event>, n: nat, next: nat, e: Event, off: Event)
    requires n < |events| && next == n + 1 && e != off
    ensures (exists i :: Since(events, i, next, e, off)) <==>
            events[n] == e || (events[n] != off && exists i :: Since(events, i, n, e, off))
  {
    if events[n] == e { assert Since(events, n, next, e, off); }
    if events[n] != off && exists i :: Since(events, i, n, e, off) {
      var i :| Since(events, i, n, e, off);
      assert Since(events, i, next, e, off);
    }
    if i :| Since(events, i, next, e, off) && events[n] != e {
      assert Since(events, i, n, e, off);
    }
  }

  /** The field IsRunning says whether a worker is between its first and its last section. */
  lemma {:induction false} RunningExactly(events: seq<Event>, n: nat)
    requires Possible(START, events) && n <= |events|
    ensures At(events, n).isRunning <==> Running(events, n)
    decreases n
  {
    assert events[..0] == [];
    if n > 0 {
      OneStep(events, n - 1);
      RunningExactly(events, n - 1);
      SinceStep(events, n - 1, n, StartUp, Close);
    }
  }

  /** threadIsRunning answers just that. */
  lemma IsRunningAnswers(events: seq<Event>, m: nat)
    requires Possible(START, events) && m < |events| && events[m].IsRunning?
    ensures events[m].result <==> Running(events, m)
  {
    OneStep(events, m);
    RunningExactly(events, m);
  }

  /** A request: a signal, or a stop that finds the thread running. */
  ghost predicate Requests(events: seq<Event>, i: nat) {
    i < |events| && (events[i] == SignalStop || (events[i].StopEnter? && Running(events, i)))
  }

  /** The closing section, and a stop that finds nothing running, take requests back. */
  ghost predicate Clears(events: seq<Event>, i: nat) {
    i < |events|
    && (events[i] == Close || ((events[i].StopEnter? || events[i].StopPoll?) && !Running(events, i)))
  }

  ghost predicate Requested(events: seq<Event>, i: nat, n: nat) {
    i < n && Requests(events, i) && forall l | i < l < n :: !Clears(events, l)
  }

  lemma {:induction false} FlagExactly(events: seq<Event>, n: nat)
    requires Possible(START, events) && n <= |events|
    ensures At(events, n).flag <==> exists i :: Requested(events, i, n)
    decreases n
  {
    assert events[..0] == [];
    if n > 0 {
      OneStep(events, n - 1);
      FlagExactly(events, n - 1);
      RunningExactly(events, n - 1);
      RequestedStep(events, n - 1, n);
    }
  }

  lemma RequestedStep(events: seq<Event>, n: nat, next: nat)
    requires n < |events| && next == n + 1
    ensures (exists i :: Requested(events, i, next)) <==>
            Requests(events, n) || (!Clears(events, n) && exists i :: Requested(events, i, n))
  {
    hide Requests, Clears;
    if Requests(events, n) { assert Requested(events, n, next); }
    if !Clears(events, n) && exists i :: Requested(events, i, n) {
      var i :| Requested(events, i, n);
      assert Requested(events, i, next);
    }
    if i :| Requested(events, i, next) && !Requests(events, n) {
      assert Requested(events, i, n);
    }
  }

  /** threadShouldStop answers yes exactly if there was a request that nothing has taken
      back: in particular no worker has closed since, so none reaches the next run. */
  lemma AnswerExactly(events: seq<Event>, m: nat)
    requires Possible(START, events) && m < |events| && events[m].ShouldStop?
    ensures events[m].answer <==> exists i :: Requested(events, i, m)
  {
    OneStep(events, m);
    FlagExactly(events, m);
  }

  /** So a question always gets no for an answer if nobody has asked for a stop since
      the last worker closed, or since the beginning. */
  lemma NobodyAsked(events: seq<Event>, from: nat, m: nat)
    requires Possible(START, events) && from <= m < |events| && events[m].ShouldStop?
    requires from == 0 || events[from - 1] == Close
    requires forall l | from <= l < m :: events[l] != SignalStop && !events[l].StopEnter?
    ensures !events[m].answer
  {
    AnswerExactly(events, m);
    forall l ensures !Requested(events, l, m) {
      assert from > 0 ==> Clears(events, from - 1);
      if l == from - 1 { assert !Requests(events, l); }
    }
  }

  /** A poll brings the caller back exactly if nothing is running any more; it has
      then waited for the run that its first section found. */
  lemma PollReturns(events: seq<Event>, i: nat, j: nat, id: nat)
    requires Possible(START, events) && i < j < |events|
    requires events[i] == StopEnter(id) && Running(events, i) && events[j] == StopPoll(id)
    requires forall m | i < m < j :: events[m] != StopEnter(id)
    ensures CallerOf(At(events, j + 1), id) ==
            if Running(events, j) then Waiting(Runs(events, i)) else Back(true, Runs(events, i))
  {
    RunningExactly(events, i);
    RunningExactly(events, j);
    RunsExactly(events, i);
    KeepsWaiting(events, i, j, id);
    OneStep(events, j);
  }

  /** How many runs have begun in front of event number `n`. */
  function Runs(events: seq<Event>, n: nat): nat
    requires n <= |events|
  {
    if n == 0 then 0 else Runs(events, n - 1) + if events[n - 1] == StartUp then 1 else 0
  }

  lemma {:induction false} RunsExactly(events: seq<Event>, n: nat)
    requires Possible(START, events) && n <= |events|
    ensures At(events, n).runcount == Runs(events, n)
    decreases n
  {
    assert events[..0] == [];
    if n > 0 {
      OneStep(events, n - 1);
      RunsExactly(events, n - 1);
    }
  }

  /** May these events come one after the other from state `s` on? */
  predicate Accepts(s: State, more: seq<Event>)
    decreases |more|
  {
    more == [] || (Enabled(s, more[0]) && Accepts(After(s, more[0]), more[1..]))
  }

  lemma {:induction false} Extend(events: seq<Event>, more: seq<Event>)
    requires Possible(START, events) && Accepts(RunFrom(START, events), more)
    ensures Possible(START, events + more)
    decreases |more|
  {
    if more == [] {
      assert events + more == events;
    } else {
      var next := events + [more[0]];
      assert next[..|events|] == events;
      Extend(next, more[1..]);
      assert next + more[1..] == events + more;
    }
  }

  lemma Next(s: State, e: Event, more: seq<Event>) returns (all: seq<Event>)
    requires Enabled(s, e) && Accepts(After(s, e), more)
    ensures all == [e] + more && Accepts(s, all)
  {
    all := [e] + more;
    assert all[1..] == more;
  }

  /** A whole round: the worker is asked to stop, obeys, the caller comes back, and the
      next run is not asked. */
  lemma WholeRound(id: nat)
    ensures
      var obey := [Start, StartUp, ShouldStop(false), StopEnter(id), ShouldStop(true), StopPoll(id)];
      var again := [RunReturns, IsRunning(true), Close, StopPoll(id), Start, StartUp, ShouldStop(false)];
      Possible(START, obey + again)
  {
    var begun := After(After(START, Start), StartUp);
    var asked := After(begun, StopEnter(id));
    var left := After(asked, RunReturns);
    var back := After(After(left, Close), StopPoll(id));
    assert Accepts(After(After(back, Start), StartUp), []);
    hide Accepts;
    var m := Next(After(After(back, Start), StartUp), ShouldStop(false), []);
    m := Next(After(back, Start), StartUp, m);
    m := Next(back, Start, m);
    m := Next(After(left, Close), StopPoll(id), m);
    assert m == [StopPoll(id), Start, StartUp, ShouldStop(false)];
    m := Next(left, Close, m);
    m := Next(left, IsRunning(true), m);
    m := Next(asked, RunReturns, m);
    assert m == [RunReturns, IsRunning(true), Close, StopPoll(id), Start, StartUp, ShouldStop(false)];
    Obeys(id, m);
  }

  lemma Obeys(id: nat, again: seq<Event>)
    requires Accepts(After(After(After(START, Start), StartUp), StopEnter(id)), again)
    ensures Possible(START, [Start, StartUp, ShouldStop(false), StopEnter(id), ShouldStop(true), StopPoll(id)] + again)
  {
    var m := Stopped(id, After(After(START, Start), StartUp), again);
    var all := Begun(m);
    assert all == [Start, StartUp, ShouldStop(false), StopEnter(id), ShouldStop(true), StopPoll(id)] + again;
    Extend([], all);
    hide *;
    assert [] + all == all;
  }

  lemma Begun(more: seq<Event>) returns (all: seq<Event>)
    requires Accepts(After(After(START, Start), StartUp), more)
    ensures all == [Start, StartUp, ShouldStop(false)] + more && Accepts(START, all)
  {
    hide Accepts;
    all := Next(After(After(START, Start), StartUp), ShouldStop(false), more);
    all := Next(After(START, Start), StartUp, all);
    all := Next(START, Start, all);
  }

  lemma Stopped(id: nat, s: State, again: seq<Event>) returns (all: seq<Event>)
    requires s.worker == InRun && s.isRunning && id !in s.callers && Accepts(After(s, StopEnter(id)), again)
    ensures all == [StopEnter(id), ShouldStop(true), StopPoll(id)] + again && Accepts(s, all)
  {
    var asked := After(s, StopEnter(id));
    hide Accepts;
    all := Next(asked, StopPoll(id), again);
    all := Next(asked, ShouldStop(true), all);
    all := Next(s, StopEnter(id), all);
  }
}
