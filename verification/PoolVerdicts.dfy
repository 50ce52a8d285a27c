/** What is reported of a test, over every run: the verdict its one answer deserves. */
module PoolVerdicts {
  import opened PoolRuns
  import opened PoolLaws

  /** The verdict an answer deserves. */
  predicate Deserves(crashes: bool, reply: Reply, v: Verdict) {
    && (v == TimedOut <==> reply == Late || reply == Stuck)
    && (v == Failed <==> reply == Fatal || (!crashes && reply == Replied(DidFail)))
    && (v == Passed <==> if crashes then reply == Exited(false) else reply == Replied(DidPass))
    && (v == Skipped <==> reply == Replied(DidSkip))
    && (v == Survived <==> crashes && (reply == Replied(DidPass) || reply == Replied(DidFail)))
    && (v == Crashed <==> reply == Exited(true) || (!crashes && reply == Exited(false)))
  }

  /** The answer an act brings for the test. */
  function AnswerNow(s: State, a: Act, t: nat): seq<Reply>
    requires Enabled(s, a)
  {
    if a.Answers? && s.drivers[a.d].stage.test == t then [a.reply] else []
  }

  /** All answers the acts of a run bring for the test, while it is running. */
  function AnswersTo(c: Config, s: State, acts: seq<Act>, t: nat): seq<Reply>
    requires Runs(c, s, acts)
    decreases |acts|
  {
    if acts == [] then [] else AnswerNow(s, acts[0], t) + AnswersTo(c, Step(c, s, acts[0]), acts[1..], t)
  }

  /** The verdicts a log reports of the test. */
  function VerdictsOf(log: seq<Event>, t: nat): seq<Verdict> {
    if log == [] then []
    else
      var e := log[|log| - 1];
      VerdictsOf(log[..|log| - 1], t) + if e.Reported? && e.test == t then [e.verdict] else []
  }

  predicate RunsIt(d: Driver, t: nat) { d.stage.Running? && d.stage.test == t }

  predicate ClosesIt(d: Driver, t: nat) { d.stage.Closing? && d.stage.test == t }

  /** What the answers so far have led to. Without one, nothing is closing or reported; with
      one, the test runs no more, and its verdict is reported or about to be. */
  ghost predicate Told(c: Config, s: State, t: nat, answers: seq<Reply>) {
    var reported := VerdictsOf(s.log, t);
    && |answers| <= 1
    && (forall i :: 0 <= i < |s.drivers| && RunsIt(s.drivers[i], t) ==> answers == [])
    && (forall i :: 0 <= i < |s.drivers| && ClosesIt(s.drivers[i], t) ==>
          answers != [] && Deserves(Crashes(c, t), answers[0], s.drivers[i].stage.verdict) && reported == [])
    && (answers == [] ==> reported == [])
    && (reported != [] ==> |reported| == 1 && Deserves(Crashes(c, t), answers[0], reported[0]))
    && (answers != [] && reported == [] ==> exists i :: 0 <= i < |s.drivers| && ClosesIt(s.drivers[i], t))
  }

  lemma VerdictsMore(log: seq<Event>, e: Event, t: nat)
    ensures VerdictsOf(log + [e], t) ==
            VerdictsOf(log, t) + if e.Reported? && e.test == t then [e.verdict] else []
  {
    assert (log + [e])[..|log|] == log;
  }

  lemma VerdictsTwo(log: seq<Event>, a: Event, b: Event, t: nat)
    requires !a.Reported?
    ensures VerdictsOf(log + [a, b], t) ==
            VerdictsOf(log, t) + if b.Reported? && b.test == t then [b.verdict] else []
  {
    VerdictsMore(log, a, t);
    VerdictsMore(log + [a], b, t);
    assert log + [a] + [b] == log + [a, b];
  }

  lemma JudgeDeserves(crashes: bool, reply: Reply)
    ensures Deserves(crashes, reply, Judge(crashes, reply))
  {
  }

  /** A test that is answered has been dispatched, and one driver at most has it. */
  lemma {:induction false} VerdictIsReport(log: seq<Event>, t: nat)
    requires VerdictsOf(log, t) != []
    ensures Reports(log, t) >= 1
    decreases |log|
  {
    hide Reports;
    var n := |log| - 1;
    assert log == log[..n] + [log[n]];
    LogMore(log[..n], log[n], t);
    if VerdictsOf(log[..n], t) != [] { VerdictIsReport(log[..n], t); }
  }

  lemma FlyingHas(drivers: seq<Driver>, i: nat, t: nat)
    requires i < |drivers| && (RunsIt(drivers[i], t) || ClosesIt(drivers[i], t))
    ensures Flying(drivers, t) >= 1
  {
    TotalHas(FlyingParts(drivers, t), i);
  }

  lemma {:induction false} TwoOfThem(parts: seq<nat>, i: nat, k: nat)
    requires i < k < |parts|
    ensures parts[i] + parts[k] <= Total(parts)
    decreases |parts|
  {
    var n := |parts| - 1;
    if k < n {
      assert parts[..n][i] == parts[i] && parts[..n][k] == parts[k];
      TwoOfThem(parts[..n], i, k);
    } else {
      assert parts[..n][i] == parts[i];
      TotalHas(parts[..n], i);
    }
  }

  lemma OnlyOne(c: Config, s: State, t: nat, i: nat, k: nat)
    requires Inv(c, s) && i < |s.drivers| && k < |s.drivers|
    requires RunsIt(s.drivers[i], t) || ClosesIt(s.drivers[i], t)
    requires RunsIt(s.drivers[k], t) || ClosesIt(s.drivers[k], t)
    ensures i == k
  {
    hide Inv;
    InvCounts(c, s, t);
    var parts := FlyingParts(s.drivers, t);
    if i < k { TwoOfThem(parts, i, k); }
    if k < i { TwoOfThem(parts, k, i); }
  }

  /** A test that has been answered is not dispatched again. */
  lemma NotAgain(c: Config, s: State, t: nat, answers: seq<Reply>)
    requires Inv(c, s) && Told(c, s, t, answers) && answers != []
    ensures Dispatches(s.log, t) == 1 && Awaiting(s.drivers, t) == 0 && Taken(c, s, t)
  {
    hide Inv, Taken, VerdictsOf;
    InvCounts(c, s, t);
    if VerdictsOf(s.log, t) != [] {
      VerdictIsReport(s.log, t);
    } else {
      var i :| 0 <= i < |s.drivers| && ClosesIt(s.drivers[i], t);
      FlyingHas(s.drivers, i, t);
    }
  }

  // ---------- one act ----------

  /** A driver that does not come to run or close the test, nor was closing it. */
  lemma ToldStays(c: Config, s: State, u: State, d: nat, x: Driver, t: nat, answers: seq<Reply>)
    requires Told(c, s, t, answers) && d < |s.drivers| && u.drivers == s.drivers[d := x]
    requires VerdictsOf(u.log, t) == VerdictsOf(s.log, t)
    requires RunsIt(x, t) ==> answers == []
    requires !ClosesIt(x, t) && !ClosesIt(s.drivers[d], t)
    ensures Told(c, u, t, answers)
  {
    hide VerdictsOf, Deserves;
    if answers != [] && VerdictsOf(u.log, t) == [] {
      var i :| 0 <= i < |s.drivers| && ClosesIt(s.drivers[i], t);
      assert u.drivers[i] == s.drivers[i];
    }
  }

  lemma TakeTells(c: Config, s: State, d: nat, t: nat, answers: seq<Reply>)
    requires Inv(c, s) && Told(c, s, t, answers) && Enabled(s, Takes(d))
    ensures Told(c, Take(c, s, d), t, answers)
  {
    hide Inv, Told, VerdictsOf, Order, Taken;
    var u := Take(c, s, d);
    assert s.log + [] == s.log;
    if !(s.broken || s.next >= |Order(c, s.serial)|) {
      var id := Order(c, s.serial)[s.next];
      TakenNext(c, s, t);
      if answers != [] { NotAgain(c, s, t, answers); }
      VerdictsMore(s.log, Dispatched(id, if s.drivers[d].kept.Kept? then s.drivers[d].kept.worker else 0), t);
    }
    ToldStays(c, s, u, d, u.drivers[d], t, answers);
  }

  lemma StartTells(c: Config, s: State, d: nat, ok: bool, t: nat, answers: seq<Reply>)
    requires Inv(c, s) && Told(c, s, t, answers) && Enabled(s, Starts(d, ok))
    ensures Told(c, StartEnds(c, s, d, ok), t, answers)
  {
    hide Inv, Told, VerdictsOf, Taken;
    var u := StartEnds(c, s, d, ok);
    assert s.log + [] == s.log;
    VerdictsMore(s.log, Dispatched(s.drivers[d].stage.test, s.started), t);
    TotalHas(StartingParts(s.drivers, t), d);
    if answers != [] { NotAgain(c, s, t, answers); }
    ToldStays(c, s, u, d, u.drivers[d], t, answers);
  }

  /** The answer to the test itself. */
  lemma AnswerTells(c: Config, s: State, d: nat, reply: Reply, t: nat, answers: seq<Reply>)
    requires Inv(c, s) && Told(c, s, t, answers) && Enabled(s, Answers(d, reply)) && s.drivers[d].stage.test == t
    ensures answers == [] && Told(c, RunEnds(c, s, d, reply), t, [reply])
  {
    hide Inv, VerdictsOf, Deserves, Judge;
    var u, driver := RunEnds(c, s, d, reply), s.drivers[d];
    var own := Crashes(c, t);
    var v := Judge(own, reply);
    JudgeDeserves(own, reply);
    assert RunsIt(driver, t);
    forall i: nat | i < |s.drivers| && i != d ensures !RunsIt(s.drivers[i], t) && !ClosesIt(s.drivers[i], t) {
      if RunsIt(s.drivers[i], t) || ClosesIt(s.drivers[i], t) { OnlyOne(c, s, t, d, i); }
    }
    if !reply.Replied? {
      VerdictsTwo(s.log, Lost(driver.stage.runner), Reported(t, v), t);
    } else if own {
      assert s.log + [] == s.log;
      assert ClosesIt(u.drivers[d], t);
    } else {
      VerdictsMore(s.log, Reported(t, v), t);
    }
  }

  /** An answer to another test. */
  lemma OtherTells(c: Config, s: State, d: nat, reply: Reply, t: nat, answers: seq<Reply>)
    requires Inv(c, s) && Told(c, s, t, answers) && Enabled(s, Answers(d, reply)) && s.drivers[d].stage.test != t
    ensures Told(c, RunEnds(c, s, d, reply), t, answers)
  {
    hide Inv, VerdictsOf, Told, Judge;
    var u, id := RunEnds(c, s, d, reply), s.drivers[d].stage.test;
    var v := Judge(Crashes(c, id), reply);
    assert s.log + [] == s.log;
    VerdictsTwo(s.log, Lost(s.drivers[d].stage.runner), Reported(id, v), t);
    VerdictsMore(s.log, Reported(id, v), t);
    ToldStays(c, s, u, d, u.drivers[d], t, answers);
  }

  lemma CloseTells(c: Config, s: State, d: nat, t: nat, answers: seq<Reply>)
    requires Inv(c, s) && Told(c, s, t, answers) && Enabled(s, Closes(d))
    ensures Told(c, CloseEnds(s, d), t, answers)
  {
    hide Inv, VerdictsOf, Deserves;
    var u, stage := CloseEnds(s, d), s.drivers[d].stage;
    VerdictsTwo(s.log, Exit(stage.runner), Reported(stage.test, stage.verdict), t);
    if stage.test == t {
      assert ClosesIt(s.drivers[d], t);
      forall i: nat | i < |s.drivers| && i != d ensures !RunsIt(s.drivers[i], t) && !ClosesIt(s.drivers[i], t) {
        if RunsIt(s.drivers[i], t) || ClosesIt(s.drivers[i], t) { OnlyOne(c, s, t, d, i); }
      }
    } else {
      ToldStays(c, s, u, d, u.drivers[d], t, answers);
    }
  }

  lemma FinishTells(c: Config, s: State, d: nat, t: nat, answers: seq<Reply>)
    requires Told(c, s, t, answers) && Enabled(s, Finishes(d))
    ensures Told(c, FinishEnds(s, d), t, answers)
  {
    hide Told, VerdictsOf;
    VerdictsMore(s.log, Exit(s.drivers[d].kept.worker), t);
    ToldStays(c, s, FinishEnds(s, d), d, Driver(Over, NoWorker), t, answers);
  }

  lemma StepTells(c: Config, s: State, a: Act, t: nat, answers: seq<Reply>)
    requires Inv(c, s) && Told(c, s, t, answers) && Enabled(s, a)
    ensures Told(c, Step(c, s, a), t, answers + AnswerNow(s, a, t))
  {
    hide Inv, Take, StartEnds, RunEnds, CloseEnds, FinishEnds, VerdictsOf;
    assert answers + [] == answers;
    match a
    case Takes(d) => TakeTells(c, s, d, t, answers);
    case Starts(d, ok) => StartTells(c, s, d, ok, t, answers);
    case Answers(d, reply) =>
      if s.drivers[d].stage.test == t {
        AnswerTells(c, s, d, reply, t, answers);
        assert [] + [reply] == [reply];
      } else {
        OtherTells(c, s, d, reply, t, answers);
      }
    case Closes(d) => CloseTells(c, s, d, t, answers);
    case Finishes(d) => FinishTells(c, s, d, t, answers);
    case Serials =>
  }

  lemma {:induction false} RunTells(c: Config, s: State, acts: seq<Act>, t: nat, answers: seq<Reply>)
    requires Inv(c, s) && Told(c, s, t, answers) && Runs(c, s, acts) && c.jobs > 0
    ensures Told(c, After(c, s, acts), t, answers + AnswersTo(c, s, acts, t))
    decreases |acts|
  {
    hide Inv, Told, Step, Enabled, AnswerNow;
    if acts == [] {
      assert answers + [] == answers;
    } else {
      var now, next := AnswerNow(s, acts[0], t), Step(c, s, acts[0]);
      StepTells(c, s, acts[0], t, answers);
      StepKeeps(c, s, acts[0]);
      RunTells(c, next, acts[1..], t, answers + now);
      var later := AnswersTo(c, next, acts[1..], t);
      assert answers + now + later == answers + (now + later);
    }
  }

  lemma InitTells(c: Config, t: nat)
    ensures Told(c, Init(c), t, [])
  {
  }

  /** In every interleaving: a test is answered at most once while it runs, and what is
      reported of it, if anything is yet, is the verdict that answer deserves. */
  lemma EveryReport(c: Config, acts: seq<Act>, t: nat)
    requires c.jobs > 0 && Runs(c, Init(c), acts)
    ensures var answers, reported := AnswersTo(c, Init(c), acts, t), VerdictsOf(After(c, Init(c), acts).log, t);
            && |reported| <= |answers| <= 1
            && (reported != [] ==> Deserves(Crashes(c, t), answers[0], reported[0]))
  {
    hide AnswersTo, VerdictsOf, Deserves, Inv;
    InitKeeps(c);
    InitTells(c, t);
    RunTells(c, Init(c), acts, t, []);
    assert [] + AnswersTo(c, Init(c), acts, t) == AnswersTo(c, Init(c), acts, t);
  }

  /** When a run has ended, every answer has been reported. */
  lemma EndedReport(c: Config, acts: seq<Act>, t: nat)
    requires c.jobs > 0 && Runs(c, Init(c), acts) && Ended(After(c, Init(c), acts))
    ensures |VerdictsOf(After(c, Init(c), acts).log, t)| == |AnswersTo(c, Init(c), acts, t)|
  {
    hide AnswersTo, VerdictsOf, Deserves, Inv;
    EveryReport(c, acts, t);
    InitKeeps(c);
    InitTells(c, t);
    RunTells(c, Init(c), acts, t, []);
    assert [] + AnswersTo(c, Init(c), acts, t) == AnswersTo(c, Init(c), acts, t);
  }

  // ---------- lost workers ----------

  lemma StepLogs(c: Config, s: State, a: Act)
    requires Enabled(s, a)
    ensures s.log <= Step(c, s, a).log
  {
    hide Order, Judge;
  }

  lemma {:induction false} RunLogs(c: Config, s: State, acts: seq<Act>)
    requires Runs(c, s, acts)
    ensures s.log <= After(c, s, acts).log
    decreases |acts|
  {
    hide Step, Enabled;
    if acts != [] {
      StepLogs(c, s, acts[0]);
      RunLogs(c, Step(c, s, acts[0]), acts[1..]);
      Prefixes(s.log, Step(c, s, acts[0]).log, After(c, s, acts).log);
    }
  }

  lemma Prefixes(a: seq<Event>, b: seq<Event>, d: seq<Event>)
    requires a <= b <= d
    ensures a <= d
  {
  }

  /** Whatever answer but a reply a worker gives, it gets no test any more: one that was late,
      stuck or exited, and one that a fatal check ends. */
  lemma LostGetsNoTest(c: Config, s: State, d: nat, reply: Reply, acts: seq<Act>)
    requires Inv(c, s) && c.jobs > 0 && Enabled(s, Answers(d, reply)) && !reply.Replied?
    requires Runs(c, RunEnds(c, s, d, reply), acts)
    ensures var log := After(c, RunEnds(c, s, d, reply), acts).log;
            forall i :: |s.log| <= i < |log| && log[i].Dispatched? ==> log[i].worker != s.drivers[d].stage.runner
  {
    hide Inv, Runs, After;
    var u := RunEnds(c, s, d, reply);
    AnswerKeeps(c, s, d, reply);
    RunKeeps(c, u, acts);
    RunLogs(c, u, acts);
    var log, n, w := After(c, u, acts).log, |s.log|, s.drivers[d].stage.runner;
    assert u.log[n] == Lost(w) && log[n] == u.log[n];
    assert NoneAfterGone(log) by { LogIsOk(c, After(c, u, acts)); }
  }
}
