/** The pool of test workers: drivers that share a cursor over the tests, in every order their
    steps can come in. */
module PoolRuns {

  datatype Test = Test(serial: bool, crashes: bool)

  datatype Config = Config(tests: seq<Test>, jobs: nat)

  datatype Verdict = Passed | Failed | Skipped | TimedOut | Crashed | Survived

  /** How a test went for the worker that ran it. */
  datatype TestState = DidPass | DidSkip | DidFail

  /** How a worker answered a test: not in time, that a check ended the test, with how it
      went, by exiting, or by hanging up without exiting. */
  datatype Reply = Late | Fatal | Replied(state: TestState) | Exited(success: bool) | Stuck

  type Worker = nat

  datatype Kept = Kept(worker: Worker) | NoWorker

  /** Where a driver is: between tests, waiting for a worker to start for a test, for its
      answer, for the exit of the worker a crash test survived on, for the exit of its own
      worker, or through. */
  datatype Stage =
    | Ready
    | Starting(test: nat)
    | Running(test: nat, runner: Worker)
    | Closing(test: nat, runner: Worker, verdict: Verdict)
    | Finishing
    | Over

  datatype Driver = Driver(stage: Stage, kept: Kept)

  datatype Event =
    | Dispatched(test: nat, worker: Worker)
    | Lost(worker: Worker)
    | Exit(worker: Worker)
    | Reported(test: nat, verdict: Verdict)

  datatype State = State(
    serial: bool,
    next: nat,
    drivers: seq<Driver>,
    started: nat,
    broken: bool,
    log: seq<Event>)

  // ---------- the tests of a phase ----------

  /** The serial tests, or the others, in order. */
  function Select(tests: seq<Test>, serial: bool, from: nat): (order: seq<nat>)
    requires from <= |tests|
    decreases |tests| - from
  {
    if from == |tests| then []
    else if tests[from].serial == serial then [from] + Select(tests, serial, from + 1)
    else Select(tests, serial, from + 1)
  }

  function Order(c: Config, serial: bool): (order: seq<nat>)
    ensures forall i :: 0 <= i < |order| ==> order[i] < |c.tests| && c.tests[order[i]].serial == serial
    ensures forall i, k :: 0 <= i < k < |order| ==> order[i] < order[k]
    ensures forall t: nat :: t < |c.tests| && c.tests[t].serial == serial ==> t in order
  {
    SelectIs(c.tests, serial, 0);
    Select(c.tests, serial, 0)
  }

  ghost predicate Picks(tests: seq<Test>, serial: bool, from: nat, order: seq<nat>) {
    && (forall i :: 0 <= i < |order| ==> from <= order[i] < |tests| && tests[order[i]].serial == serial)
    && (forall i, k :: 0 <= i < k < |order| ==> order[i] < order[k])
    && (forall t: nat :: from <= t < |tests| && tests[t].serial == serial ==> t in order)
  }

  lemma {:induction false} SelectIs(tests: seq<Test>, serial: bool, from: nat)
    requires from <= |tests|
    ensures Picks(tests, serial, from, Select(tests, serial, from))
    decreases |tests| - from
  {
    if from < |tests| {
      SelectIs(tests, serial, from + 1);
      var rest := Select(tests, serial, from + 1);
      if tests[from].serial == serial { PicksMore(tests, serial, from, rest); }
    }
  }

  lemma PicksMore(tests: seq<Test>, serial: bool, from: nat, rest: seq<nat>)
    requires from < |tests| && tests[from].serial == serial && Picks(tests, serial, from + 1, rest)
    ensures Picks(tests, serial, from, [from] + rest)
  {
  }

  /** run_pool()'s split of the tests. */
  method Partition(c: Config) returns (concurrent: seq<nat>, serial: seq<nat>)
    ensures concurrent == Order(c, false) && serial == Order(c, true)
  {
    hide Select;
    concurrent, serial := [], [];
    ghost var first, second := Select(c.tests, false, 0), Select(c.tests, true, 0);
    assert [] + first == first && [] + second == second;
    for i := 0 to |c.tests|
      invariant concurrent + Select(c.tests, false, i) == first
      invariant serial + Select(c.tests, true, i) == second
    {
      SelectNext(c.tests, false, i, concurrent, first);
      SelectNext(c.tests, true, i, serial, second);
      if c.tests[i].serial {
        serial := serial + [i];
      } else {
        concurrent := concurrent + [i];
      }
    }
    SelectNone(c.tests);
  }

  lemma SelectNone(tests: seq<Test>)
    ensures Select(tests, false, |tests|) == [] && Select(tests, true, |tests|) == []
  {
  }

  lemma SelectNext(tests: seq<Test>, serial: bool, i: nat, before: seq<nat>, all: seq<nat>)
    requires i < |tests| && before + Select(tests, serial, i) == all
    ensures (if tests[i].serial == serial then before + [i] else before) + Select(tests, serial, i + 1) == all
  {
    var rest := Select(tests, serial, i + 1);
    if tests[i].serial == serial { assert before + ([i] + rest) == before + [i] + rest; }
  }

  predicate Crashes(c: Config, t: nat) { t < |c.tests| && c.tests[t].crashes }

  function Min(a: nat, b: nat): nat { if a < b then a else b }

  function Init(c: Config): State {
    State(false, 0, seq(Min(c.jobs, |Order(c, false)|), _ => Driver(Ready, NoWorker)), 0, false, [])
  }

  // ---------- steps ----------

  function VerdictOf(state: TestState): Verdict {
    match state
    case DidPass => Passed
    case DidSkip => Skipped
    case DidFail => Failed
  }

  /** What is reported of a test. */
  function Judge(crashes: bool, reply: Reply): Verdict {
    match reply
    case Late => TimedOut
    case Stuck => TimedOut
    case Fatal => Failed
    case Replied(state) => if crashes && !state.DidSkip? then Survived else VerdictOf(state)
    case Exited(success) => if crashes && !success then Passed else Crashed
  }

  function With(s: State, d: nat, driver: Driver, events: seq<Event>): State
    requires d < |s.drivers|
  {
    s.(drivers := s.drivers[d := driver], log := s.log + events)
  }

  /** Out of the loop: the driver's worker, if it has one, is told to end. */
  function Leave(kept: Kept): Driver { Driver(if kept.Kept? then Finishing else Over, kept) }

  function Take(c: Config, s: State, d: nat): State
    requires d < |s.drivers|
  {
    var order, driver := Order(c, s.serial), s.drivers[d];
    if s.broken || s.next >= |order| then With(s, d, Leave(driver.kept), [])
    else
      var t, taken := order[s.next], s.(next := s.next + 1);
      if Crashes(c, t) || driver.kept.NoWorker? then With(taken, d, driver.(stage := Starting(t)), [])
      else With(taken, d, driver.(stage := Running(t, driver.kept.worker)), [Dispatched(t, driver.kept.worker)])
  }

  function StartEnds(c: Config, s: State, d: nat, ok: bool): State
    requires d < |s.drivers| && s.drivers[d].stage.Starting?
  {
    var driver := s.drivers[d];
    var t, w := driver.stage.test, s.started;
    if !ok then With(s.(broken := true), d, Leave(driver.kept), [])
    else
      With(s.(started := w + 1), d, Driver(Running(t, w), if Crashes(c, t) then driver.kept else Kept(w)),
           [Dispatched(t, w)])
  }

  function RunEnds(c: Config, s: State, d: nat, reply: Reply): State
    requires d < |s.drivers| && s.drivers[d].stage.Running?
  {
    var driver := s.drivers[d];
    var t, w, own := driver.stage.test, driver.stage.runner, Crashes(c, driver.stage.test);
    var verdict := Judge(own, reply);
    if reply.Replied? then
      if own then With(s, d, driver.(stage := Closing(t, w, verdict)), [])
      else With(s, d, driver.(stage := Ready), [Reported(t, verdict)])
    else With(s, d, Driver(Ready, if own then driver.kept else NoWorker), [Lost(w), Reported(t, verdict)])
  }

  function CloseEnds(s: State, d: nat): State
    requires d < |s.drivers| && s.drivers[d].stage.Closing?
  {
    var driver := s.drivers[d];
    With(s, d, driver.(stage := Ready),
         [Exit(driver.stage.runner), Reported(driver.stage.test, driver.stage.verdict)])
  }

  function FinishEnds(s: State, d: nat): State
    requires d < |s.drivers| && s.drivers[d].stage.Finishing? && s.drivers[d].kept.Kept?
  {
    With(s, d, Driver(Over, NoWorker), [Exit(s.drivers[d].kept.worker)])
  }

  predicate AllOver(drivers: seq<Driver>) { forall i :: 0 <= i < |drivers| ==> drivers[i].stage.Over? }

  function NextPhase(s: State): State { s.(serial := true, next := 0, drivers := [Driver(Ready, NoWorker)]) }

  datatype Act =
    | Takes(d: nat)
    | Starts(d: nat, ok: bool)
    | Answers(d: nat, reply: Reply)
    | Closes(d: nat)
    | Finishes(d: nat)
    | Serials

  predicate Enabled(s: State, a: Act) {
    match a
    case Takes(d) => d < |s.drivers| && s.drivers[d].stage.Ready?
    case Starts(d, _) => d < |s.drivers| && s.drivers[d].stage.Starting?
    case Answers(d, _) => d < |s.drivers| && s.drivers[d].stage.Running?
    case Closes(d) => d < |s.drivers| && s.drivers[d].stage.Closing?
    case Finishes(d) => d < |s.drivers| && s.drivers[d].stage.Finishing? && s.drivers[d].kept.Kept?
    case Serials => !s.serial && AllOver(s.drivers)
  }

  function Step(c: Config, s: State, a: Act): State
    requires Enabled(s, a)
  {
    match a
    case Takes(d) => Take(c, s, d)
    case Starts(d, ok) => StartEnds(c, s, d, ok)
    case Answers(d, reply) => RunEnds(c, s, d, reply)
    case Closes(d) => CloseEnds(s, d)
    case Finishes(d) => FinishEnds(s, d)
    case Serials => NextPhase(s)
  }

  predicate Runs(c: Config, s: State, acts: seq<Act>)
    decreases |acts|
  {
    acts == [] || (Enabled(s, acts[0]) && Runs(c, Step(c, s, acts[0]), acts[1..]))
  }

  function After(c: Config, s: State, acts: seq<Act>): State
    requires Runs(c, s, acts)
    decreases |acts|
  {
    if acts == [] then s else After(c, Step(c, s, acts[0]), acts[1..])
  }

  // ---------- counting ----------

  function One(b: bool): nat { if b then 1 else 0 }

  /** Whether a driver waits to start test `k`, has it in flight, has worker `k`. */
  function StartingOf(d: Driver, k: nat): nat { One(d.stage.Starting? && d.stage.test == k) }

  function FlyingOf(d: Driver, k: nat): nat { One((d.stage.Running? || d.stage.Closing?) && d.stage.test == k) }

  /** The worker it keeps, and for a crash test the one that runs it. */
  function WorkersOf(d: Driver, c: Config, k: nat): nat {
    One(d.kept == Kept(k))
    + One((d.stage.Running? || d.stage.Closing?) && Crashes(c, d.stage.test) && d.stage.runner == k)
  }

  function Total(parts: seq<nat>): nat {
    if parts == [] then 0 else Total(parts[..|parts| - 1]) + parts[|parts| - 1]
  }

  lemma {:induction false} TotalExchange(parts: seq<nat>, i: nat, m: nat)
    requires i < |parts|
    ensures Total(parts[i := m]) + parts[i] == Total(parts) + m
    decreases |parts|
  {
    var n, after := |parts| - 1, parts[i := m];
    if i == n {
      assert after[..n] == parts[..n];
    } else {
      assert after[..n] == parts[..n][i := m];
      TotalExchange(parts[..n], i, m);
    }
  }

  lemma TotalMore(parts: seq<nat>, m: nat)
    ensures Total(parts + [m]) == Total(parts) + m
  {
    assert (parts + [m])[..|parts|] == parts;
  }

  lemma {:induction false} TotalHas(parts: seq<nat>, i: nat)
    requires i < |parts|
    ensures parts[i] <= Total(parts)
    decreases |parts|
  {
    var n := |parts| - 1;
    if i < n {
      assert parts[..n][i] == parts[i];
      TotalHas(parts[..n], i);
    }
  }

  function StartingParts(drivers: seq<Driver>, k: nat): seq<nat> {
    seq(|drivers|, i requires 0 <= i < |drivers| => StartingOf(drivers[i], k))
  }

  function FlyingParts(drivers: seq<Driver>, k: nat): seq<nat> {
    seq(|drivers|, i requires 0 <= i < |drivers| => FlyingOf(drivers[i], k))
  }

  function WorkerParts(drivers: seq<Driver>, c: Config, k: nat): seq<nat> {
    seq(|drivers|, i requires 0 <= i < |drivers| => WorkersOf(drivers[i], c, k))
  }

  /** How many drivers wait for a worker for test `k`, have it in flight, have worker `k`. */
  function Awaiting(drivers: seq<Driver>, k: nat): nat { Total(StartingParts(drivers, k)) }

  function Flying(drivers: seq<Driver>, k: nat): nat { Total(FlyingParts(drivers, k)) }

  function Workers(drivers: seq<Driver>, c: Config, k: nat): nat { Total(WorkerParts(drivers, c, k)) }

  /** One driver moves. */
  lemma Exchange(drivers: seq<Driver>, d: nat, x: Driver, c: Config, k: nat)
    requires d < |drivers|
    ensures var after := drivers[d := x];
            && Awaiting(after, k) + StartingOf(drivers[d], k) == Awaiting(drivers, k) + StartingOf(x, k)
            && Flying(after, k) + FlyingOf(drivers[d], k) == Flying(drivers, k) + FlyingOf(x, k)
            && Workers(after, c, k) + WorkersOf(drivers[d], c, k) == Workers(drivers, c, k) + WorkersOf(x, c, k)
  {
    hide StartingOf, FlyingOf, WorkersOf, Total;
    var after := drivers[d := x];
    assert StartingParts(after, k) == StartingParts(drivers, k)[d := StartingOf(x, k)];
    assert FlyingParts(after, k) == FlyingParts(drivers, k)[d := FlyingOf(x, k)];
    assert WorkerParts(after, c, k) == WorkerParts(drivers, c, k)[d := WorkersOf(x, c, k)];
    TotalExchange(StartingParts(drivers, k), d, StartingOf(x, k));
    TotalExchange(FlyingParts(drivers, k), d, FlyingOf(x, k));
    TotalExchange(WorkerParts(drivers, c, k), d, WorkersOf(x, c, k));
  }

  function DispatchOf(e: Event, k: nat): nat { One(e.Dispatched? && e.test == k) }

  function ReportOf(e: Event, k: nat): nat { One(e.Reported? && e.test == k) }

  function DepartureOf(e: Event, k: nat): nat { One((e.Lost? || e.Exit?) && e.worker == k) }

  /** How often test `k` was dispatched, was reported, and worker `k` went. */
  function Dispatches(log: seq<Event>, k: nat): nat {
    Total(seq(|log|, i requires 0 <= i < |log| => DispatchOf(log[i], k)))
  }

  function Reports(log: seq<Event>, k: nat): nat {
    Total(seq(|log|, i requires 0 <= i < |log| => ReportOf(log[i], k)))
  }

  function Departures(log: seq<Event>, k: nat): nat {
    Total(seq(|log|, i requires 0 <= i < |log| => DepartureOf(log[i], k)))
  }

  lemma LogMore(log: seq<Event>, e: Event, k: nat)
    ensures Dispatches(log + [e], k) == Dispatches(log, k) + DispatchOf(e, k)
    ensures Reports(log + [e], k) == Reports(log, k) + ReportOf(e, k)
    ensures Departures(log + [e], k) == Departures(log, k) + DepartureOf(e, k)
  {
    hide DispatchOf, ReportOf, DepartureOf, Total;
    var all := log + [e];
    var a := seq(|log|, i requires 0 <= i < |log| => DispatchOf(log[i], k));
    var b := seq(|log|, i requires 0 <= i < |log| => ReportOf(log[i], k));
    var d := seq(|log|, i requires 0 <= i < |log| => DepartureOf(log[i], k));
    assert seq(|all|, i requires 0 <= i < |all| => DispatchOf(all[i], k)) == a + [DispatchOf(e, k)];
    assert seq(|all|, i requires 0 <= i < |all| => ReportOf(all[i], k)) == b + [ReportOf(e, k)];
    assert seq(|all|, i requires 0 <= i < |all| => DepartureOf(all[i], k)) == d + [DepartureOf(e, k)];
    TotalMore(a, DispatchOf(e, k));
    TotalMore(b, ReportOf(e, k));
    TotalMore(d, DepartureOf(e, k));
  }
}
