/** What every run of the pool keeps, whatever order its drivers' steps come in. */
module PoolLaws {
  import opened PoolRuns

  // ---------- the invariant ----------

  /** Whether the cursor has passed the test. */
  ghost predicate Taken(c: Config, s: State, t: nat) {
    || (exists i :: 0 <= i < s.next && i < |Order(c, s.serial)| && Order(c, s.serial)[i] == t)
    || (s.serial && t in Order(c, false))
  }

  /** A dispatched test is in flight or reported, and one is dispatched or awaits a worker
      at most once; not before it is taken, and once it is unless the run is broken. */
  ghost predicate TestOk(c: Config, s: State, t: nat) {
    var awaiting, flying := Awaiting(s.drivers, t), Flying(s.drivers, t);
    var dispatched, reported := Dispatches(s.log, t), Reports(s.log, t);
    && dispatched == flying + reported && awaiting + dispatched <= 1
    && (!Taken(c, s, t) ==> awaiting + dispatched == 0)
    && (Taken(c, s, t) && !s.broken ==> awaiting + dispatched == 1)
    && (s.serial && t in Order(c, false) ==> awaiting + flying == 0)
  }

  /** A worker that was started belongs to one driver, or has gone once. */
  ghost predicate WorkerOk(c: Config, s: State, w: Worker) {
    Workers(s.drivers, c, w) + Departures(s.log, w) == if w < s.started then 1 else 0
  }

  ghost predicate Gentle(c: Config, log: seq<Event>, w: Worker) {
    forall i :: 0 <= i < |log| && log[i].Dispatched? && log[i].worker == w ==> !Crashes(c, log[i].test)
  }

  ghost predicate DriverOk(c: Config, s: State, driver: Driver) {
    var stage, kept := driver.stage, driver.kept;
    && (stage.Starting? ==> stage.test in Order(c, s.serial) && (Crashes(c, stage.test) || kept.NoWorker?))
    && (stage.Running? ==> stage.test in Order(c, s.serial) && (Crashes(c, stage.test) || kept == Kept(stage.runner)))
    && (stage.Closing? ==> stage.test in Order(c, s.serial) && Crashes(c, stage.test))
    && (stage.Finishing? ==> kept.Kept?)
    && (stage.Over? ==> kept.NoWorker?)
    && (stage.Finishing? || stage.Over? ==> s.broken || s.next >= |Order(c, s.serial)|)
    && (kept.Kept? ==> Gentle(c, s.log, kept.worker))
  }

  /** No worker gets a test once it is gone. */
  ghost predicate NoneAfterGone(log: seq<Event>) {
    forall i, k :: 0 <= i < k < |log| && (log[i].Lost? || log[i].Exit?) && log[k].Dispatched? ==>
                     log[i].worker != log[k].worker
  }

  /** A crash test shares its worker with none. */
  ghost predicate Alone(c: Config, log: seq<Event>) {
    forall i, k :: 0 <= i < k < |log| && log[i].Dispatched? && log[k].Dispatched? && log[i].worker == log[k].worker ==>
                     !Crashes(c, log[i].test) && !Crashes(c, log[k].test)
  }

  ghost predicate Known(s: State) {
    forall i :: 0 <= i < |s.log| && s.log[i].Dispatched? ==> s.log[i].worker < s.started
  }

  ghost predicate Shape(c: Config, s: State) {
    && s.next <= |Order(c, s.serial)|
    && |s.drivers| == (if s.serial then 1 else Min(c.jobs, |Order(c, false)|))
  }

  ghost predicate Inv(c: Config, s: State) {
    && Shape(c, s)
    && (forall t: nat :: TestOk(c, s, t))
    && (forall w: Worker :: WorkerOk(c, s, w))
    && (forall i :: 0 <= i < |s.drivers| ==> DriverOk(c, s, s.drivers[i]))
    && NoneAfterGone(s.log) && Alone(c, s.log) && Known(s)
  }

  // ---------- how a step counts ----------

  lemma KeptIsStarted(c: Config, s: State, i: nat)
    requires Inv(c, s) && i < |s.drivers| && s.drivers[i].kept.Kept?
    ensures s.drivers[i].kept.worker < s.started && Departures(s.log, s.drivers[i].kept.worker) == 0
    ensures Workers(s.drivers, c, s.drivers[i].kept.worker) == 1
  {
    var w := s.drivers[i].kept.worker;
    assert WorkerOk(c, s, w);
    TotalHas(WorkerParts(s.drivers, c, w), i);
  }

  lemma GoneCounts(log: seq<Event>, i: nat)
    requires i < |log| && (log[i].Lost? || log[i].Exit?)
    ensures Departures(log, log[i].worker) > 0
  {
    var w := log[i].worker;
    TotalHas(seq(|log|, k requires 0 <= k < |log| => DepartureOf(log[k], w)), i);
  }

  // ---------- what the log keeps ----------

  ghost predicate LogOk(c: Config, log: seq<Event>, started: nat) {
    NoneAfterGone(log) && Alone(c, log) && forall i :: 0 <= i < |log| && log[i].Dispatched? ==> log[i].worker < started
  }

  lemma LogQuiet(c: Config, log: seq<Event>, e: Event, started: nat)
    requires LogOk(c, log, started) && !e.Dispatched?
    ensures LogOk(c, log + [e], started)
  {
  }

  lemma LogDispatch(c: Config, log: seq<Event>, t: nat, w: Worker, started: nat)
    requires LogOk(c, log, started) && Departures(log, w) == 0
    requires w >= started || (Gentle(c, log, w) && !Crashes(c, t))
    ensures LogOk(c, log + [Dispatched(t, w)], if w < started then started else w + 1)
  {
    forall i: nat | i < |log| && (log[i].Lost? || log[i].Exit?) ensures log[i].worker != w {
      GoneCounts(log, i);
    }
  }

  // ---------- the other drivers ----------

  /** What happened is nothing to a driver: no crash test went to a worker there was. */
  ghost predicate Harmless(c: Config, events: seq<Event>, started: nat) {
    forall i :: 0 <= i < |events| && events[i].Dispatched? && events[i].worker < started ==> !Crashes(c, events[i].test)
  }

  lemma GentleStays(c: Config, log: seq<Event>, events: seq<Event>, w: Worker, started: nat)
    requires Gentle(c, log, w) && Harmless(c, events, started) && w < started
    ensures Gentle(c, log + events, w)
  {
  }

  ghost predicate Later(c: Config, s: State, t: State, events: seq<Event>) {
    && t.serial == s.serial && t.next >= s.next && (s.broken ==> t.broken)
    && t.log == s.log + events && Harmless(c, events, s.started)
  }

  lemma OthersStay(c: Config, s: State, t: State, i: nat, events: seq<Event>)
    requires Inv(c, s) && i < |s.drivers| && Later(c, s, t, events)
    ensures DriverOk(c, t, s.drivers[i])
  {
    hide Gentle, Harmless, TestOk, WorkerOk;
    var driver := s.drivers[i];
    assert DriverOk(c, s, driver);
    if driver.kept.Kept? {
      KeptIsStarted(c, s, i);
      GentleStays(c, s.log, events, driver.kept.worker, s.started);
    }
  }

  /** The pieces of a step: one driver moves, the rest stay. */
  lemma Moved(c: Config, s: State, t: State, d: nat, x: Driver, events: seq<Event>)
    requires Inv(c, s) && d < |s.drivers| && t.drivers == s.drivers[d := x]
    requires Later(c, s, t, events) && Shape(c, t) && DriverOk(c, t, x)
    requires forall k: nat :: TestOk(c, t, k)
    requires forall w: Worker :: WorkerOk(c, t, w)
    requires LogOk(c, t.log, t.started)
    ensures Inv(c, t)
  {
    hide TestOk, WorkerOk, DriverOk, Later;
    forall i: nat | i < |t.drivers| ensures DriverOk(c, t, t.drivers[i]) {
      if i != d { OthersStay(c, s, t, i, events); }
    }
  }

  // ---------- every step keeps it ----------

  lemma LogIsOk(c: Config, s: State)
    requires Inv(c, s)
    ensures LogOk(c, s.log, s.started)
  {
  }

  lemma LeaveCounts(c: Config, s: State, d: nat, k: nat)
    requires Inv(c, s) && Enabled(s, Takes(d)) && (s.broken || s.next >= |Order(c, s.serial)|)
    ensures TestOk(c, Take(c, s, d), k) && WorkerOk(c, Take(c, s, d), k)
  {
    hide Inv, Gentle, Awaiting, Flying, Workers, Dispatches, Reports, Departures, Order, Taken;
    InvCounts(c, s, k);
    Exchange(s.drivers, d, Leave(s.drivers[d].kept), c, k);
    TakenSame(c, s, Take(c, s, d), k);
    assert s.log + [] == s.log;
  }

  lemma LeaveKeeps(c: Config, s: State, d: nat)
    requires Inv(c, s) && Enabled(s, Takes(d)) && (s.broken || s.next >= |Order(c, s.serial)|)
    ensures Inv(c, Take(c, s, d))
  {
    hide Inv, Gentle, Awaiting, Flying, Workers, Dispatches, Reports, Departures, Order, Taken, TestOk, WorkerOk,
         Harmless, LogOk;
    var t, x := Take(c, s, d), Leave(s.drivers[d].kept);
    InvAt(c, s, d);
    assert t.log == s.log + [] == s.log;
    forall k: nat ensures TestOk(c, t, k) && WorkerOk(c, t, k) { LeaveCounts(c, s, d, k); }
    LogIsOk(c, s);
    HarmlessNone(c, s.started);
    Moved(c, s, t, d, x, []);
  }

  lemma HarmlessNone(c: Config, started: nat)
    ensures Harmless(c, [], started)
  {
  }

  lemma HarmlessOne(c: Config, e: Event, started: nat)
    requires e.Dispatched? && e.worker < started ==> !Crashes(c, e.test)
    ensures Harmless(c, [e], started)
  {
  }

  lemma InvAt(c: Config, s: State, d: nat)
    requires Inv(c, s) && d < |s.drivers|
    ensures DriverOk(c, s, s.drivers[d]) && Shape(c, s)
  {
  }

  lemma InvCounts(c: Config, s: State, k: nat)
    requires Inv(c, s)
    ensures TestOk(c, s, k) && WorkerOk(c, s, k)
  {
  }

  /** The test the cursor is at was not taken before, and is the one more taken after. */
  lemma TakenNext(c: Config, s: State, k: nat)
    requires s.next < |Order(c, s.serial)|
    ensures var t := Order(c, s.serial)[s.next];
            && (Taken(c, s.(next := s.next + 1), k) <==> Taken(c, s, k) || k == t)
            && !Taken(c, s, t) && (s.serial ==> t !in Order(c, false))
  {
    hide Order;
    var order := Order(c, s.serial);
    var t := order[s.next];
    forall i | 0 <= i < s.next ensures order[i] != t { assert order[i] < order[s.next]; }
    assert Order(c, s.serial)[s.next] == t;
  }

  lemma TakenSame(c: Config, s: State, t: State, k: nat)
    requires t.serial == s.serial && t.next == s.next
    ensures Taken(c, t, k) <==> Taken(c, s, k)
  {
  }

  lemma TakeKeeps(c: Config, s: State, d: nat)
    requires Inv(c, s) && Enabled(s, Takes(d))
    ensures Inv(c, Take(c, s, d))
  {
    hide Inv, Gentle, Awaiting, Flying, Workers, Dispatches, Reports, Departures, Order, Taken;
    var order, driver, t := Order(c, s.serial), s.drivers[d], Take(c, s, d);
    InvAt(c, s, d);
    if s.broken || s.next >= |order| {
      LeaveKeeps(c, s, d);
    } else if Crashes(c, order[s.next]) || driver.kept.NoWorker? {
      TakeToStart(c, s, d);
    } else {
      TakeToRun(c, s, d);
    }
  }

  lemma TakeToStartCounts(c: Config, s: State, d: nat, k: nat)
    requires Inv(c, s) && Enabled(s, Takes(d)) && !s.broken && s.next < |Order(c, s.serial)|
    requires Crashes(c, Order(c, s.serial)[s.next]) || s.drivers[d].kept.NoWorker?
    ensures TestOk(c, Take(c, s, d), k) && WorkerOk(c, Take(c, s, d), k)
  {
    hide Inv, Gentle, Awaiting, Flying, Workers, Dispatches, Reports, Departures, Order, Taken;
    InvCounts(c, s, k);
    Exchange(s.drivers, d, s.drivers[d].(stage := Starting(Order(c, s.serial)[s.next])), c, k);
    TakenNext(c, s, k);
    TakenSame(c, s.(next := s.next + 1), Take(c, s, d), k);
    assert s.log + [] == s.log;
  }

  lemma TakeToStart(c: Config, s: State, d: nat)
    requires Inv(c, s) && Enabled(s, Takes(d)) && !s.broken && s.next < |Order(c, s.serial)|
    requires Crashes(c, Order(c, s.serial)[s.next]) || s.drivers[d].kept.NoWorker?
    ensures Inv(c, Take(c, s, d))
  {
    hide Inv, Gentle, Awaiting, Flying, Workers, Dispatches, Reports, Departures, Order, Taken, TestOk, WorkerOk,
         Harmless, LogOk;
    var x := s.drivers[d].(stage := Starting(Order(c, s.serial)[s.next]));
    var t := Take(c, s, d);
    InvAt(c, s, d);
    assert t.log == s.log + [] == s.log;
    forall k: nat ensures TestOk(c, t, k) && WorkerOk(c, t, k) { TakeToStartCounts(c, s, d, k); }
    LogIsOk(c, s);
    HarmlessNone(c, s.started);
    Moved(c, s, t, d, x, []);
  }

  lemma TakeToRunCounts(c: Config, s: State, d: nat, k: nat)
    requires Inv(c, s) && Enabled(s, Takes(d)) && !s.broken && s.next < |Order(c, s.serial)|
    requires !Crashes(c, Order(c, s.serial)[s.next]) && s.drivers[d].kept.Kept?
    ensures TestOk(c, Take(c, s, d), k) && WorkerOk(c, Take(c, s, d), k)
  {
    hide Inv, Gentle, Awaiting, Flying, Workers, Dispatches, Reports, Departures, Order, Taken;
    var id, w := Order(c, s.serial)[s.next], s.drivers[d].kept.worker;
    InvCounts(c, s, k);
    Exchange(s.drivers, d, s.drivers[d].(stage := Running(id, w)), c, k);
    LogMore(s.log, Dispatched(id, w), k);
    TakenNext(c, s, k);
    TakenSame(c, s.(next := s.next + 1), Take(c, s, d), k);
  }

  lemma TakeToRun(c: Config, s: State, d: nat)
    requires Inv(c, s) && Enabled(s, Takes(d)) && !s.broken && s.next < |Order(c, s.serial)|
    requires !Crashes(c, Order(c, s.serial)[s.next]) && s.drivers[d].kept.Kept?
    ensures Inv(c, Take(c, s, d))
  {
    hide Inv, Gentle, Awaiting, Flying, Workers, Dispatches, Reports, Departures, Order, Taken, TestOk, WorkerOk,
         Harmless, LogOk;
    var id, w := Order(c, s.serial)[s.next], s.drivers[d].kept.worker;
    var x, e := s.drivers[d].(stage := Running(id, w)), Dispatched(id, w);
    var t := Take(c, s, d);
    InvAt(c, s, d);
    KeptIsStarted(c, s, d);
    forall k: nat ensures TestOk(c, t, k) && WorkerOk(c, t, k) { TakeToRunCounts(c, s, d, k); }
    LogIsOk(c, s);
    LogDispatch(c, s.log, id, w, s.started);
    HarmlessOne(c, e, s.started);
    GentleStays(c, s.log, [e], w, s.started);
    Moved(c, s, t, d, x, [e]);
  }

  lemma StartKeeps(c: Config, s: State, d: nat, ok: bool)
    requires Inv(c, s) && Enabled(s, Starts(d, ok))
    ensures Inv(c, StartEnds(c, s, d, ok))
  {
    if ok { StartedKeeps(c, s, d); } else { BrokenKeeps(c, s, d); }
  }

  lemma BrokenCounts(c: Config, s: State, d: nat, k: nat)
    requires Inv(c, s) && Enabled(s, Starts(d, false))
    ensures TestOk(c, StartEnds(c, s, d, false), k) && WorkerOk(c, StartEnds(c, s, d, false), k)
  {
    hide Inv, Gentle, Awaiting, Flying, Workers, Dispatches, Reports, Departures, Order, Taken;
    InvCounts(c, s, k);
    Exchange(s.drivers, d, Leave(s.drivers[d].kept), c, k);
    TakenSame(c, s, StartEnds(c, s, d, false), k);
    assert s.log + [] == s.log;
  }

  lemma BrokenKeeps(c: Config, s: State, d: nat)
    requires Inv(c, s) && Enabled(s, Starts(d, false))
    ensures Inv(c, StartEnds(c, s, d, false))
  {
    hide Inv, Gentle, Awaiting, Flying, Workers, Dispatches, Reports, Departures, Order, Taken, TestOk, WorkerOk,
         Harmless, LogOk;
    var x, t := Leave(s.drivers[d].kept), StartEnds(c, s, d, false);
    InvAt(c, s, d);
    assert t.log == s.log + [] == s.log;
    forall k: nat ensures TestOk(c, t, k) && WorkerOk(c, t, k) { BrokenCounts(c, s, d, k); }
    LogIsOk(c, s);
    HarmlessNone(c, s.started);
    Moved(c, s, t, d, x, []);
  }

  lemma StartedCounts(c: Config, s: State, d: nat, k: nat)
    requires Inv(c, s) && Enabled(s, Starts(d, true))
    ensures TestOk(c, StartEnds(c, s, d, true), k) && WorkerOk(c, StartEnds(c, s, d, true), k)
  {
    hide Inv, Gentle, Awaiting, Flying, Workers, Dispatches, Reports, Departures, Order, Taken;
    var driver, id, w := s.drivers[d], s.drivers[d].stage.test, s.started;
    InvAt(c, s, d);
    InvCounts(c, s, k);
    Exchange(s.drivers, d, Driver(Running(id, w), if Crashes(c, id) then driver.kept else Kept(w)), c, k);
    LogMore(s.log, Dispatched(id, w), k);
    TakenSame(c, s, StartEnds(c, s, d, true), k);
  }

  lemma StartedKeeps(c: Config, s: State, d: nat)
    requires Inv(c, s) && Enabled(s, Starts(d, true))
    ensures Inv(c, StartEnds(c, s, d, true))
  {
    hide Inv, Gentle, Awaiting, Flying, Workers, Dispatches, Reports, Departures, Order, Taken, TestOk, WorkerOk,
         Harmless, LogOk;
    var driver, id, w := s.drivers[d], s.drivers[d].stage.test, s.started;
    var x := Driver(Running(id, w), if Crashes(c, id) then driver.kept else Kept(w));
    var e, t := Dispatched(id, w), StartEnds(c, s, d, true);
    InvAt(c, s, d);
    NotGone(c, s, w);
    forall k: nat ensures TestOk(c, t, k) && WorkerOk(c, t, k) { StartedCounts(c, s, d, k); }
    LogIsOk(c, s);
    LogDispatch(c, s.log, id, w, s.started);
    HarmlessOne(c, e, s.started);
    if !Crashes(c, id) {
      FreshIsGentle(c, s.log, id, w, s.started);
    } else if driver.kept.Kept? {
      KeptIsStarted(c, s, d);
      GentleStays(c, s.log, [e], driver.kept.worker, s.started);
    }
    Moved(c, s, t, d, x, [e]);
  }

  lemma NotGone(c: Config, s: State, w: Worker)
    requires Inv(c, s) && w >= s.started
    ensures Departures(s.log, w) == 0
  {
    InvCounts(c, s, w);
  }

  lemma FreshIsGentle(c: Config, log: seq<Event>, t: nat, w: Worker, started: nat)
    requires LogOk(c, log, started) && w >= started && !Crashes(c, t)
    ensures Gentle(c, log + [Dispatched(t, w)], w)
  {
  }

  /** The answer to a test, its worker kept or lost. */
  lemma AnswerCounts(c: Config, s: State, d: nat, reply: Reply, k: nat)
    requires Inv(c, s) && Enabled(s, Answers(d, reply))
    ensures TestOk(c, RunEnds(c, s, d, reply), k) && WorkerOk(c, RunEnds(c, s, d, reply), k)
  {
    hide Inv, Gentle, Awaiting, Flying, Workers, Dispatches, Reports, Departures, Order, Taken;
    var driver := s.drivers[d];
    var id, w, own := driver.stage.test, driver.stage.runner, Crashes(c, driver.stage.test);
    var verdict := Judge(own, reply);
    var t := RunEnds(c, s, d, reply);
    InvAt(c, s, d);
    InvCounts(c, s, k);
    Exchange(s.drivers, d, t.drivers[d], c, k);
    TakenSame(c, s, t, k);
    if reply.Replied? {
      if own { assert s.log + [] == s.log; } else { LogMore(s.log, Reported(id, verdict), k); }
    } else {
      LogMore(s.log, Lost(w), k);
      LogMore(s.log + [Lost(w)], Reported(id, verdict), k);
      assert s.log + [Lost(w)] + [Reported(id, verdict)] == s.log + [Lost(w), Reported(id, verdict)];
    }
  }

  lemma AnswerKeeps(c: Config, s: State, d: nat, reply: Reply)
    requires Inv(c, s) && Enabled(s, Answers(d, reply))
    ensures Inv(c, RunEnds(c, s, d, reply))
  {
    hide Inv, Gentle, Awaiting, Flying, Workers, Dispatches, Reports, Departures, Order, Taken, TestOk, WorkerOk,
         Harmless, LogOk;
    var driver := s.drivers[d];
    var id, w, own := driver.stage.test, driver.stage.runner, Crashes(c, driver.stage.test);
    var events := if !reply.Replied? then [Lost(w), Reported(id, Judge(own, reply))]
                  else if own then [] else [Reported(id, Judge(own, reply))];
    var t := RunEnds(c, s, d, reply);
    InvAt(c, s, d);
    forall k: nat ensures TestOk(c, t, k) && WorkerOk(c, t, k) { AnswerCounts(c, s, d, reply, k); }
    QuietStep(c, s, d, events);
    Moved(c, s, t, d, t.drivers[d], events);
  }

  /** Events that dispatch nothing keep the log and what each driver knows of its worker. */
  lemma QuietStep(c: Config, s: State, d: nat, events: seq<Event>)
    requires Inv(c, s) && d < |s.drivers| && |events| <= 2
    requires forall i :: 0 <= i < |events| ==> !events[i].Dispatched?
    ensures LogOk(c, s.log + events, s.started) && Harmless(c, events, s.started)
    ensures s.drivers[d].kept.Kept? ==> Gentle(c, s.log + events, s.drivers[d].kept.worker)
  {
    hide LogOk, Gentle, DriverOk, TestOk, WorkerOk;
    LogIsOk(c, s);
    if events == [] {
      assert s.log + events == s.log;
    } else if |events| == 1 {
      assert events == [events[0]];
      LogQuiet(c, s.log, events[0], s.started);
    } else {
      LogQuiet(c, s.log, events[0], s.started);
      LogQuiet(c, s.log + [events[0]], events[1], s.started);
      assert s.log + [events[0]] + [events[1]] == s.log + events;
    }
    if s.drivers[d].kept.Kept? {
      KeptIsStarted(c, s, d);
      KeptIsGentle(c, s, d);
      GentleStays(c, s.log, events, s.drivers[d].kept.worker, s.started);
    }
  }

  lemma KeptIsGentle(c: Config, s: State, d: nat)
    requires Inv(c, s) && d < |s.drivers| && s.drivers[d].kept.Kept?
    ensures Gentle(c, s.log, s.drivers[d].kept.worker)
  {
    assert DriverOk(c, s, s.drivers[d]);
  }

  lemma CloseCounts(c: Config, s: State, d: nat, k: nat)
    requires Inv(c, s) && Enabled(s, Closes(d))
    ensures TestOk(c, CloseEnds(s, d), k) && WorkerOk(c, CloseEnds(s, d), k)
  {
    hide Inv, Gentle, Awaiting, Flying, Workers, Dispatches, Reports, Departures, Order, Taken;
    var stage, t := s.drivers[d].stage, CloseEnds(s, d);
    InvAt(c, s, d);
    InvCounts(c, s, k);
    Exchange(s.drivers, d, t.drivers[d], c, k);
    TakenSame(c, s, t, k);
    LogMore(s.log, Exit(stage.runner), k);
    LogMore(s.log + [Exit(stage.runner)], Reported(stage.test, stage.verdict), k);
    assert t.log == s.log + [Exit(stage.runner)] + [Reported(stage.test, stage.verdict)];
  }

  lemma CloseKeeps(c: Config, s: State, d: nat)
    requires Inv(c, s) && Enabled(s, Closes(d))
    ensures Inv(c, CloseEnds(s, d))
  {
    hide Inv, Gentle, Awaiting, Flying, Workers, Dispatches, Reports, Departures, Order, Taken, TestOk, WorkerOk,
         Harmless, LogOk;
    var stage, t := s.drivers[d].stage, CloseEnds(s, d);
    var events := [Exit(stage.runner), Reported(stage.test, stage.verdict)];
    InvAt(c, s, d);
    forall k: nat ensures TestOk(c, t, k) && WorkerOk(c, t, k) { CloseCounts(c, s, d, k); }
    QuietStep(c, s, d, events);
    Moved(c, s, t, d, t.drivers[d], events);
  }

  lemma FinishCounts(c: Config, s: State, d: nat, k: nat)
    requires Inv(c, s) && Enabled(s, Finishes(d))
    ensures TestOk(c, FinishEnds(s, d), k) && WorkerOk(c, FinishEnds(s, d), k)
  {
    hide Inv, Gentle, Awaiting, Flying, Workers, Dispatches, Reports, Departures, Order, Taken;
    var t := FinishEnds(s, d);
    InvCounts(c, s, k);
    Exchange(s.drivers, d, t.drivers[d], c, k);
    TakenSame(c, s, t, k);
    LogMore(s.log, Exit(s.drivers[d].kept.worker), k);
  }

  lemma FinishKeeps(c: Config, s: State, d: nat)
    requires Inv(c, s) && Enabled(s, Finishes(d))
    ensures Inv(c, FinishEnds(s, d))
  {
    hide Inv, Gentle, Awaiting, Flying, Workers, Dispatches, Reports, Departures, Order, Taken, TestOk, WorkerOk,
         Harmless, LogOk;
    var t, events := FinishEnds(s, d), [Exit(s.drivers[d].kept.worker)];
    InvAt(c, s, d);
    forall k: nat ensures TestOk(c, t, k) && WorkerOk(c, t, k) { FinishCounts(c, s, d, k); }
    QuietStep(c, s, d, events);
    Moved(c, s, t, d, t.drivers[d], events);
  }

  // ---------- the phases ----------

  lemma {:induction false} AllZero(parts: seq<nat>)
    requires forall i :: 0 <= i < |parts| ==> parts[i] == 0
    ensures Total(parts) == 0
    decreases |parts|
  {
    if parts != [] { AllZero(parts[..|parts| - 1]); }
  }

  predicate Idle(drivers: seq<Driver>) {
    forall i :: 0 <= i < |drivers| ==> drivers[i].kept.NoWorker? && (drivers[i].stage.Over? || drivers[i].stage.Ready?)
  }

  lemma IdleCounts(drivers: seq<Driver>, c: Config, k: nat)
    requires Idle(drivers)
    ensures Awaiting(drivers, k) == Flying(drivers, k) == Workers(drivers, c, k) == 0
  {
    AllZero(StartingParts(drivers, k));
    AllZero(FlyingParts(drivers, k));
    AllZero(WorkerParts(drivers, c, k));
  }

  lemma OverIsIdle(c: Config, s: State)
    requires Inv(c, s) && AllOver(s.drivers)
    ensures Idle(s.drivers)
  {
    forall i | 0 <= i < |s.drivers| ensures s.drivers[i].kept.NoWorker? { assert DriverOk(c, s, s.drivers[i]); }
  }

  /** When a phase is over, all of its tests have been taken, or the run is broken. */
  lemma PhaseOver(c: Config, s: State)
    requires Inv(c, s) && AllOver(s.drivers) && c.jobs > 0
    ensures s.broken || s.next == |Order(c, s.serial)|
  {
    hide TestOk, WorkerOk;
    if |s.drivers| > 0 {
      assert DriverOk(c, s, s.drivers[0]);
    }
  }

  lemma SerialCounts(c: Config, s: State, k: nat)
    requires Inv(c, s) && Enabled(s, Serials) && c.jobs > 0
    ensures TestOk(c, NextPhase(s), k) && WorkerOk(c, NextPhase(s), k)
  {
    hide Inv, Awaiting, Flying, Workers, Dispatches, Reports, Departures, Order;
    InvCounts(c, s, k);
    OverIsIdle(c, s);
    PhaseOver(c, s);
    IdleCounts(s.drivers, c, k);
    IdleCounts(NextPhase(s).drivers, c, k);
  }

  lemma SerialKeeps(c: Config, s: State)
    requires Inv(c, s) && Enabled(s, Serials) && c.jobs > 0
    ensures Inv(c, NextPhase(s))
  {
    hide TestOk, WorkerOk;
    var t := NextPhase(s);
    forall k: nat ensures TestOk(c, t, k) && WorkerOk(c, t, k) { SerialCounts(c, s, k); }
  }

  lemma InitKeeps(c: Config)
    ensures Inv(c, Init(c))
  {
    hide Awaiting, Flying, Workers;
    var s := Init(c);
    forall k: nat ensures TestOk(c, s, k) && WorkerOk(c, s, k) { IdleCounts(s.drivers, c, k); }
  }

  lemma StepKeeps(c: Config, s: State, a: Act)
    requires Inv(c, s) && Enabled(s, a) && c.jobs > 0
    ensures Inv(c, Step(c, s, a))
  {
    hide Inv, Take, StartEnds, RunEnds, CloseEnds, FinishEnds, NextPhase;
    match a
    case Takes(d) => TakeKeeps(c, s, d);
    case Starts(d, ok) => StartKeeps(c, s, d, ok);
    case Answers(d, reply) => AnswerKeeps(c, s, d, reply);
    case Closes(d) => CloseKeeps(c, s, d);
    case Finishes(d) => FinishKeeps(c, s, d);
    case Serials => SerialKeeps(c, s);
  }

  lemma {:induction false} RunKeeps(c: Config, s: State, acts: seq<Act>)
    requires Inv(c, s) && Runs(c, s, acts) && c.jobs > 0
    ensures Inv(c, After(c, s, acts))
    decreases |acts|
  {
    hide Inv, Step, Enabled;
    if acts != [] {
      StepKeeps(c, s, acts[0]);
      RunKeeps(c, Step(c, s, acts[0]), acts[1..]);
    }
  }

  // ---------- what holds over every run ----------

  /** In every interleaving: a test is dispatched and reported at most once, reported only if
      dispatched; a worker that is gone gets no test, and goes at most once; a crash test
      shares its worker with none; a serial test in flight is in flight alone. */
  lemma EveryRun(c: Config, acts: seq<Act>)
    requires c.jobs > 0 && Runs(c, Init(c), acts)
    ensures var s := After(c, Init(c), acts);
            && (forall t: nat :: Reports(s.log, t) <= Dispatches(s.log, t) <= 1)
            && (forall w: Worker :: Departures(s.log, w) <= 1)
            && NoneAfterGone(s.log) && Alone(c, s.log)
            && (forall t: nat, u: nat ::
                  Flying(s.drivers, t) > 0 && Flying(s.drivers, u) > 0 && t in Order(c, true) ==> t == u)
  {
    hide Runs, After, Flying, Reports, Dispatches, Departures, Awaiting, Workers;
    InitKeeps(c);
    RunKeeps(c, Init(c), acts);
    var s := After(c, Init(c), acts);
    forall t: nat ensures Reports(s.log, t) <= Dispatches(s.log, t) <= 1 { InvCounts(c, s, t); }
    forall w: Worker ensures Departures(s.log, w) <= 1 { InvCounts(c, s, w); }
    forall t: nat, u: nat | Flying(s.drivers, t) > 0 && Flying(s.drivers, u) > 0 && t in Order(c, true)
      ensures t == u
    {
      SerialAlone(c, s, t, u);
    }
  }

  lemma SerialAlone(c: Config, s: State, t: nat, u: nat)
    requires Inv(c, s) && Flying(s.drivers, t) > 0 && Flying(s.drivers, u) > 0 && t in Order(c, true)
    ensures t == u
  {
    hide TestOk, WorkerOk, Order;
    var i := FlyingSome(s.drivers, t);
    var k := FlyingSome(s.drivers, u);
    assert DriverOk(c, s, s.drivers[i]);
    OrdersApart(c, t);
  }

  lemma OrdersApart(c: Config, t: nat)
    requires t in Order(c, true)
    ensures t !in Order(c, false)
  {
    hide Select;
  }

  lemma FlyingSome(drivers: seq<Driver>, t: nat) returns (i: nat)
    requires Flying(drivers, t) > 0
    ensures i < |drivers| && FlyingOf(drivers[i], t) > 0
  {
    i := SomePart(FlyingParts(drivers, t));
  }

  lemma {:induction false} SomePart(parts: seq<nat>) returns (i: nat)
    requires Total(parts) > 0
    ensures i < |parts| && parts[i] > 0
    decreases |parts|
  {
    var n := |parts| - 1;
    if parts[n] > 0 {
      i := n;
    } else {
      i := SomePart(parts[..n]);
    }
  }

  predicate Ended(s: State) { s.serial && AllOver(s.drivers) }

  /** A run that has ended: every test dispatched has been reported, once; every worker
      started has gone, once; and when no start failed, every test has been reported. */
  lemma EndedRun(c: Config, acts: seq<Act>)
    requires c.jobs > 0 && Runs(c, Init(c), acts) && Ended(After(c, Init(c), acts))
    ensures var s := After(c, Init(c), acts);
            && (forall t: nat :: Reports(s.log, t) == Dispatches(s.log, t))
            && (forall w: Worker :: w < s.started ==> Departures(s.log, w) == 1)
            && (!s.broken ==> forall t: nat :: t < |c.tests| ==> Reports(s.log, t) == 1)
  {
    hide Runs, After, Flying, Reports, Dispatches, Departures, Awaiting, Workers, Order;
    InitKeeps(c);
    RunKeeps(c, Init(c), acts);
    var s := After(c, Init(c), acts);
    OverIsIdle(c, s);
    PhaseOver(c, s);
    forall t: nat
      ensures Reports(s.log, t) == Dispatches(s.log, t)
      ensures !s.broken && t < |c.tests| ==> Reports(s.log, t) == 1
    {
      InvCounts(c, s, t);
      IdleCounts(s.drivers, c, t);
      if t < |c.tests| && !s.broken { AllTaken(c, s, t); }
    }
    forall w: Worker | w < s.started ensures Departures(s.log, w) == 1 {
      InvCounts(c, s, w);
      IdleCounts(s.drivers, c, w);
    }
  }

  lemma AllTaken(c: Config, s: State, t: nat)
    requires s.serial && s.next == |Order(c, true)| && t < |c.tests|
    ensures Taken(c, s, t)
  {
    hide Select;
    if c.tests[t].serial { assert t in Order(c, true); } else { assert t in Order(c, false); }
  }

  // ---------- every run ends ----------

  function Rank(stage: Stage): nat {
    match stage
    case Over => 0
    case Finishing => 1
    case Ready => 2
    case Closing(_, _, _) => 3
    case Running(_, _) => 4
    case Starting(_) => 5
  }

  function Ranks(drivers: seq<Driver>): seq<nat> {
    seq(|drivers|, i requires 0 <= i < |drivers| => Rank(drivers[i].stage))
  }

  /** How many steps a run can still take, at most. */
  ghost function Left(c: Config, s: State): int {
    5 * (|Order(c, s.serial)| - s.next) + Total(Ranks(s.drivers)) + if s.serial then 0 else 5 * |Order(c, true)| + 3
  }

  lemma RankExchange(drivers: seq<Driver>, d: nat, x: Driver)
    requires d < |drivers|
    ensures Total(Ranks(drivers[d := x])) + Rank(drivers[d].stage) == Total(Ranks(drivers)) + Rank(x.stage)
  {
    hide Total, Rank;
    assert Ranks(drivers[d := x]) == Ranks(drivers)[d := Rank(x.stage)];
    TotalExchange(Ranks(drivers), d, Rank(x.stage));
  }

  lemma StepGetsOn(c: Config, s: State, a: Act)
    requires Enabled(s, a) && s.next <= |Order(c, s.serial)|
    ensures Left(c, Step(c, s, a)) < Left(c, s)
  {
    hide Order, Total, Ranks, AllOver;
    var t := Step(c, s, a);
    if a.Serials? {
      OneRank(t.drivers);
      TotalOne(Rank(Ready));
    } else {
      StageGetsOn(c, s, a);
      RankExchange(s.drivers, a.d, t.drivers[a.d]);
    }
  }

  /** A driver's step moves it on, by more than the cursor's when it takes a test. */
  lemma StageGetsOn(c: Config, s: State, a: Act)
    requires Enabled(s, a) && !a.Serials?
    ensures var t := Step(c, s, a);
            && |t.drivers| == |s.drivers| && t.drivers == s.drivers[a.d := t.drivers[a.d]] && t.serial == s.serial
            && t.next >= s.next
            && Rank(t.drivers[a.d].stage) - 5 * t.next < Rank(s.drivers[a.d].stage) - 5 * s.next
  {
    hide Order;
  }

  lemma OneRank(drivers: seq<Driver>)
    requires |drivers| == 1
    ensures Ranks(drivers) == [Rank(drivers[0].stage)]
  {
  }

  lemma TotalOne(m: nat)
    ensures Total([m]) == m
  {
    assert [m][..0] == [];
  }

  /** No run is longer than its start allows, whatever the workers do. */
  lemma {:induction false} RunsAreShort(c: Config, s: State, acts: seq<Act>)
    requires Inv(c, s) && Runs(c, s, acts) && c.jobs > 0
    ensures |acts| <= Left(c, s)
    decreases |acts|
  {
    hide Inv, Step, Enabled, Left;
    if acts == [] {
      LeftIsNat(c, s);
    } else {
      StepKeeps(c, s, acts[0]);
      CursorWithin(c, s);
      StepGetsOn(c, s, acts[0]);
      RunsAreShort(c, Step(c, s, acts[0]), acts[1..]);
    }
  }

  lemma CursorWithin(c: Config, s: State)
    requires Inv(c, s)
    ensures s.next <= |Order(c, s.serial)|
  {
  }

  lemma LeftIsNat(c: Config, s: State)
    requires Inv(c, s)
    ensures Left(c, s) >= 0
  {
  }

  /** A run that has not ended can go on. */
  lemma NeverStuck(c: Config, s: State) returns (a: Act)
    requires Inv(c, s) && !Ended(s)
    ensures Enabled(s, a)
  {
    hide TestOk, WorkerOk;
    if AllOver(s.drivers) {
      a := Serials;
    } else {
      var d: nat :| d < |s.drivers| && !s.drivers[d].stage.Over?;
      assert DriverOk(c, s, s.drivers[d]);
      match s.drivers[d].stage
      case Ready => a := Takes(d);
      case Starting(_) => a := Starts(d, true);
      case Running(_, _) => a := Answers(d, Late);
      case Closing(_, _, _) => a := Closes(d);
      case Finishing => a := Finishes(d);
    }
  }

  // ---------- how many at once ----------

  lemma StepDrivers(c: Config, s: State, a: Act)
    requires Enabled(s, a)
    ensures var u := Step(c, s, a);
            if a.Serials? then u.serial && |u.drivers| == 1 else u.serial == s.serial && |u.drivers| == |s.drivers|
  {
    hide Order, Judge, AllOver;
  }

  lemma {:induction false} RunDrivers(c: Config, s: State, acts: seq<Act>)
    requires Runs(c, s, acts) && (s.serial ==> |s.drivers| == 1)
    ensures var u := After(c, s, acts);
            && (u.serial ==> |u.drivers| == 1) && (s.serial ==> u.serial)
            && (!u.serial ==> |u.drivers| == |s.drivers|)
    decreases |acts|
  {
    hide Enabled, Step;
    if acts != [] {
      RunsFirst(c, s, acts);
      StepDrivers(c, s, acts[0]);
      RunDrivers(c, Step(c, s, acts[0]), acts[1..]);
    }
  }

  lemma RunsFirst(c: Config, s: State, acts: seq<Act>)
    requires acts != [] && Runs(c, s, acts)
    ensures Enabled(s, acts[0]) && Runs(c, Step(c, s, acts[0]), acts[1..])
    ensures After(c, s, acts) == After(c, Step(c, s, acts[0]), acts[1..])
  {
    hide Enabled, Step;
  }

  /** In every interleaving there are as many drivers, each with one test at most, as jobs
      asked for, unless there are fewer tests to run together; and one for the serial tests. */
  lemma AsManyAsJobs(c: Config, acts: seq<Act>)
    requires Runs(c, Init(c), acts)
    ensures var s := After(c, Init(c), acts);
            if s.serial then |s.drivers| == 1
            else if c.jobs <= |Order(c, false)| then |s.drivers| == c.jobs
            else |s.drivers| == |Order(c, false)|
  {
    hide Runs, After, Order;
    RunDrivers(c, Init(c), acts);
  }
}
