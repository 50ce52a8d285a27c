/** What holds over every run of the HTTP manager, its transfers and their loop. */
module HttpLaws {
  import opened HttpRuns

  // ---------- safety ----------

  lemma InitKeeps()
    ensures Inv(Init())
  {
  }

  lemma DyingKeeps(s: State)
    requires Inv(s) && s.completing == []
    ensures Inv(s.(dying := true))
  {
    hide Distinct, Fine;
    var t := s.(dying := true);
    assert Queue(t) == Queue(s);
    forall j | j in t.jobs ensures Fine(PlaceOf(t, j), true) {
      assert PlaceOf(t, j) == PlaceOf(s, j);
      FineStays(PlaceOf(s, j), s.dying);
    }
  }

  lemma FineStays(p: Place, dying: bool)
    requires Fine(p, dying)
    ensures Fine(p, true)
  {
  }

  lemma ManagerKeeps(s: State, manager: bool)
    requires Inv(s) && (manager || s.list == [])
    ensures Inv(s.(manager := manager))
  {
    hide Distinct, Fine;
    var t := s.(manager := manager);
    assert Queue(t) == Queue(s);
    forall j | j in t.jobs ensures Fine(PlaceOf(t, j), t.dying) {
      assert PlaceOf(t, j) == PlaceOf(s, j);
    }
  }

  lemma StepKeeps(s: State, e: Event)
    requires Inv(s) && Enabled(s, e)
    ensures Inv(Step(s, e))
  {
    hide Inv, Start, Finish, Cancel, CompleteNext, ReleaseAll;
    match e
    case Made => ManagerKeeps(s, true);
    case Started(j, problem, cancelled) => StartKeeps(s, j, problem, cancelled);
    case Finished(j, problem) => FinishKeeps(s, j, problem);
    case CancelAsked(j) => CancelKeeps(s, j);
    case Turned => TurnKeeps(s);
    case Completed => CompleteNextKeeps(s);
    case Destroyed =>
      ReleaseAllKeeps(s);
      ManagerKeeps(ReleaseAll(s), false);
    case Dying => DyingKeeps(s);
  }

  lemma {:induction false} RunKeeps(s: State, events: seq<Event>)
    requires Inv(s) && Runs(s, events)
    ensures Inv(After(s, events))
    decreases |events|
  {
    hide Inv, Step, Enabled;
    if events != [] {
      StepKeeps(s, events[0]);
      RunKeeps(Step(s, events[0]), events[1..]);
    }
  }

  /** In every state of every run: the list holds exactly the transfers with an owner, each
      once; curl drives exactly those of them whose completion is not queued; and each
      transfer has ended once if it no longer waits, and otherwise not at all. */
  lemma EveryRunIsSafe(events: seq<Event>)
    requires Runs(Init(), events)
    ensures var t := After(Init(), events);
            && Distinct(t.list)
            && (forall j :: j in t.jobs ==> (j in t.list <==> t.jobs[j].owned))
            && (forall j :: j in t.jobs ==> (j in t.multi <==> t.jobs[j].owned && !t.jobs[j].queued))
            && (forall j :: j in t.jobs ==> multiset(t.ended)[j] == if t.jobs[j].fate.Waiting? then 0 else 1)
            && (forall j :: j in t.ended || j in t.list || j in t.multi ==> j in t.jobs)
  {
    InitKeeps();
    RunKeeps(Init(), events);
    var t := After(Init(), events);
    forall j | j in t.jobs
      ensures (j in t.list <==> t.jobs[j].owned) && (j in t.multi <==> t.jobs[j].owned && !t.jobs[j].queued)
      ensures multiset(t.ended)[j] == if t.jobs[j].fate.Waiting? then 0 else 1
    {
      assert Fine(PlaceOf(t, j), t.dying);
    }
  }

  // ---------- the loop ends what is queued ----------

  /** What a transfer ends with. */
  function Verdict(job: Job): Fate {
    if job.cancelled then Cancelled else if job.failure.Because? then Failed(job.failure.failure) else Responded
  }

  lemma CompleteNextIs(s: State)
    requires s.completing != [] && s.completing[0] in s.jobs
    ensures var j, t := s.completing[0], CompleteNext(s);
            && t.completing == s.completing[1..] && t.ready == s.ready && t.staged == s.staged
            && t.dying == s.dying && t.manager == s.manager && t.jobs.Keys == s.jobs.Keys
            && t.jobs[j].fate == Verdict(s.jobs[j])
            && t.jobs[j].cancelled == s.jobs[j].cancelled && t.jobs[j].failure == s.jobs[j].failure
            && forall k :: k in s.jobs && k != j ==> t.jobs[k] == s.jobs[k]
  {
    hide Without;
  }

  lemma QueuedIsInQueue(s: State, j: Transfer)
    requires Inv(s) && !s.dying && Waits(s, j) && s.jobs[j].queued
    ensures j in s.completing || j in s.ready || j in s.staged
  {
    assert Fine(PlaceOf(s, j), false);
    assert j in Queue(s);
  }

  /** What no longer waits has ended once. */
  lemma EndedOnce(s: State, j: Transfer)
    requires Inv(s) && j in s.jobs && !Waits(s, j)
    ensures multiset(s.ended)[j] == 1
  {
    assert Fine(PlaceOf(s, j), s.dying);
  }

  lemma CancelIs(s: State, j: Transfer)
    requires Waits(s, j) && !s.jobs[j].cancelled
    ensures var c := Cancel(s, j);
            && c.dying == s.dying && c.completing == s.completing && c.ready == s.ready && c.staged == s.staged
            && j in c.jobs && c.jobs[j].cancelled && c.jobs[j].failure == s.jobs[j].failure
            && c.jobs[j].queued == s.jobs[j].queued && !c.jobs[j].owned && c.manager == s.manager
            && c.jobs[j].fate == (if s.jobs[j].queued then Waiting else Cancelled)
            && c.jobs.Keys == s.jobs.Keys && forall k :: k in s.jobs && k != j ==> c.jobs[k] == s.jobs[k]
  {
    hide Without;
  }

  // ---------- the manager goes ----------

  /** What the destructor leaves of a transfer it tracked. */
  function Released(job: Job, dying: bool): Job {
    if dying then job.(owned := false, queued := false)
    else if job.queued then job.(owned := false)
    else job.(owned := false, queued := true, failure := Because(Aborted))
  }

  lemma {:induction false} ReleaseAllIs(s: State)
    requires Inv(s)
    ensures ListKnown(s)
    ensures var t := ReleaseAll(s);
            && t.jobs.Keys == s.jobs.Keys && t.completing == s.completing
            && t.ready == s.ready && s.staged <= t.staged
            && forall j :: j in s.jobs ==> t.jobs[j] == if j in s.list then Released(s.jobs[j], s.dying) else s.jobs[j]
    decreases |s.list|
  {
    hide Inv, Release, Released;
    KnownInList(s);
    if s.list != [] {
      var j := s.list[0];
      ReleaseKeeps(s);
      ReleaseIs(s, j);
      ReleaseAllIs(Release(s, j));
      assert s.list == [j] + s.list[1..];
      FirstListedOnce(s);
    }
  }

  lemma FirstListedOnce(s: State)
    requires Inv(s) && s.list != []
    ensures s.list[0] !in s.list[1..]
  {
  }

  lemma ReleaseIs(s: State, j: Transfer)
    requires j in s.jobs
    ensures var t := Release(s, j);
            && t.jobs == s.jobs[j := Released(s.jobs[j], s.dying)] && t.completing == s.completing
            && t.ready == s.ready && s.staged <= t.staged
  {
    hide Without;
  }

  /** In a live loop, what waits is tracked or queued. */
  lemma Tracked(s: State, j: Transfer)
    requires Inv(s) && j in s.jobs
    ensures j in s.list <==> s.jobs[j].owned
    ensures Waits(s, j) && !s.dying ==> j in s.list || s.jobs[j].queued
    ensures s.jobs[j].owned ==> Waits(s, j) && !s.jobs[j].cancelled
    ensures Waits(s, j) && !s.jobs[j].owned && !s.jobs[j].queued ==> s.dying && !s.jobs[j].cancelled
  {
    assert Fine(PlaceOf(s, j), s.dying);
  }

  // ---------- every run of a live loop ----------

  /** How many turns must begin before a queued transfer has ended: a turn begins only when
      the one before has completed all it had to. */
  function Away(s: State, j: Transfer): nat {
    if !Waits(s, j) then 0 else if j in s.completing then 1 else if j in s.ready then 2 else 3
  }

  function Turns(events: seq<Event>): nat {
    if events == [] then 0 else (if events[0].Turned? then 1 else 0) + Turns(events[1..])
  }

  /** A transfer that has ended stays as it is. */
  lemma EndedStays(s: State, e: Event, j: Transfer)
    requires Inv(s) && Enabled(s, e) && j in s.jobs && !Waits(s, j)
    ensures j in Step(s, e).jobs && Step(s, e).jobs[j] == s.jobs[j]
  {
    hide Inv, Cancel, ReleaseAll, Start, Finish, CompleteNext;
    Tracked(s, j);
    match e
    case Made =>
    case Turned =>
    case Dying =>
    case Started(k, problem, cancelled) => StartIs(s, k, problem, cancelled);
    case Finished(k, problem) =>
      FinishIs(s, k, problem);
      DrivenIsTracked(s, k);
    case CancelAsked(k) => CancelOthers(s, k);
    case Completed =>
      CompleteNextKeeps(s);
      CompleteNextIs(s);
    case Destroyed => ReleaseAllIs(s);
  }

  lemma StartIs(s: State, j: Transfer, problem: Problem, cancelled: bool)
    requires j !in s.jobs
    ensures var t := Start(s, j, problem, cancelled);
            && t.completing == s.completing && t.ready == s.ready && t.staged == s.staged
            && forall k :: k in s.jobs ==> k in t.jobs && t.jobs[k] == s.jobs[k]
  {
    hide Cancel;
    if problem.NoProblem? { CancelIs(Add(s, j), j); }
  }

  lemma FinishIs(s: State, j: Transfer, problem: Problem)
    requires j in s.jobs
    ensures var t := Finish(s, j, problem);
            && t.completing == s.completing && t.ready == s.ready && t.staged == s.staged + [j]
            && t.dying == s.dying && j in t.jobs && t.jobs[j].queued
            && t.jobs[j].cancelled == s.jobs[j].cancelled && t.jobs[j].fate == s.jobs[j].fate
            && t.jobs[j].failure == (if problem.Because? then problem else s.jobs[j].failure)
            && forall k :: k in s.jobs && k != j ==> k in t.jobs && t.jobs[k] == s.jobs[k]
  {
  }

  lemma DrivenIsTracked(s: State, j: Transfer)
    requires Inv(s) && j in s.multi
    ensures Waits(s, j) && s.jobs[j].owned && !s.jobs[j].queued
    ensures !s.jobs[j].cancelled && s.jobs[j].failure.NoProblem?
  {
    assert Fine(PlaceOf(s, j), s.dying);
  }

  /** A cancel of one transfer, whatever that does, leaves queues and other transfers alone. */
  lemma CancelOthers(s: State, j: Transfer)
    requires j in s.jobs
    ensures var t := Cancel(s, j);
            && t.completing == s.completing && t.ready == s.ready && t.staged == s.staged
            && t.jobs.Keys == s.jobs.Keys && (forall k :: k in s.jobs && k != j ==> t.jobs[k] == s.jobs[k])
            && (!Waits(s, j) ==> t.jobs[j] == s.jobs[j])
            && (Waits(s, j) && s.jobs[j].queued ==>
                  && t.jobs[j].fate.Waiting? && t.jobs[j].queued && t.jobs[j].cancelled
                  && t.jobs[j].failure == s.jobs[j].failure)
  {
    hide Cancel;
    if Waits(s, j) && !s.jobs[j].cancelled { CancelIs(s, j); } else { CancelIsNothing(s, j); }
  }

  /** What an event may make of a queued transfer: it still waits with its failure, closer to
      its end if a turn has begun, or it has ended as its state says. */
  ghost predicate Advances(s: State, e: Event, t: State, j: Transfer)
    requires j in s.jobs
  {
    && j in t.jobs && t.jobs[j].failure == s.jobs[j].failure
    && (t.jobs[j].cancelled <==> s.jobs[j].cancelled || e == CancelAsked(j))
    && (if t.jobs[j].fate.Waiting? then t.jobs[j].queued && Away(t, j) + (if e.Turned? then 1 else 0) <= Away(s, j)
        else t.jobs[j].fate == Verdict(s.jobs[j]) && e == Completed)
  }

  lemma QueuedAdvances(s: State, e: Event, j: Transfer)
    requires Inv(s) && Enabled(s, e) && Waits(s, j) && s.jobs[j].queued && !s.dying && !e.Dying?
    ensures Advances(s, e, Step(s, e), j)
  {
    hide Inv, Cancel, ReleaseAll, Start, Finish, CompleteNext, Verdict;
    QueuedIsInQueue(s, j);
    match e
    case Made =>
    case Turned =>
    case Started(k, problem, cancelled) => StartIs(s, k, problem, cancelled);
    case Finished(k, problem) =>
      FinishIs(s, k, problem);
      DrivenIsTracked(s, k);
    case CancelAsked(k) => CancelOthers(s, k);
    case Completed =>
      CompleteNextKeeps(s);
      CompleteNextIs(s);
      assert s.completing == [s.completing[0]] + s.completing[1..];
      VerdictEnds(s.jobs[s.completing[0]]);
    case Destroyed => ReleaseAllIs(s);
  }

  lemma VerdictEnds(job: Job)
    ensures !Verdict(job).Waiting?
  {
  }

  /** A dying loop stays so. */
  lemma {:induction false} LivesUntil(s: State, events: seq<Event>)
    requires Inv(s) && Runs(s, events) && s.dying
    ensures After(s, events).dying
    decreases |events|
  {
    hide Inv, Step, Enabled;
    if events != [] {
      StepKeeps(s, events[0]);
      DyingStays(s, events[0]);
      LivesUntil(Step(s, events[0]), events[1..]);
    }
  }

  lemma DyingStays(s: State, e: Event)
    requires Inv(s) && Enabled(s, e) && s.dying
    ensures Step(s, e).dying
  {
    hide Inv, Cancel, ReleaseAll;
    match e
    case CancelAsked(k) => if Waits(s, k) && !s.jobs[k].cancelled { CancelIs(s, k); } else { CancelIsNothing(s, k); }
    case Destroyed => ReleaseAllKeeps(s);
  }

  lemma {:induction false} EndedForGood(s: State, events: seq<Event>, j: Transfer)
    requires Inv(s) && Runs(s, events) && j in s.jobs && !Waits(s, j)
    ensures j in After(s, events).jobs && After(s, events).jobs[j] == s.jobs[j]
    decreases |events|
  {
    hide Inv, Step, Enabled;
    if events != [] {
      StepKeeps(s, events[0]);
      EndedStays(s, events[0], j);
      EndedForGood(Step(s, events[0]), events[1..], j);
    }
  }

  /** Over any run of a live loop, whatever comes between: a queued transfer either has ended,
      as its failure says or cancelled if a cancel reached it first, or is closer to its end
      by as many turns as have begun. */
  lemma {:induction false} QueuedRun(s: State, events: seq<Event>, j: Transfer)
    requires Inv(s) && Runs(s, events) && Waits(s, j) && s.jobs[j].queued && !After(s, events).dying
    ensures var t := After(s, events);
            && j in t.jobs && t.jobs[j].failure == s.jobs[j].failure
            && (s.jobs[j].cancelled ==> t.jobs[j].cancelled)
            && (t.jobs[j].cancelled ==> s.jobs[j].cancelled || CancelAsked(j) in events)
            && (if t.jobs[j].fate.Waiting? then Away(t, j) + Turns(events) <= Away(s, j)
                else t.jobs[j].fate == Verdict(t.jobs[j]))
    decreases |events|
  {
    hide Inv, Step, Enabled, Verdict, Away;
    if events != [] {
      var e, rest := events[0], events[1..];
      NotDying(s, events);
      StepKeeps(s, e);
      QueuedAdvances(s, e, j);
      assert events == [e] + rest;
      var t := Step(s, e);
      if Waits(t, j) {
        QueuedRun(t, rest, j);
      } else {
        EndedForGood(t, rest, j);
        SameVerdict(s.jobs[j], t.jobs[j]);
      }
    }
  }

  lemma SameVerdict(a: Job, b: Job)
    requires a.failure == b.failure && a.cancelled == b.cancelled
    ensures Verdict(a) == Verdict(b)
  {
  }

  lemma NotDying(s: State, events: seq<Event>)
    requires Inv(s) && Runs(s, events) && events != [] && !After(s, events).dying
    ensures !s.dying && !events[0].Dying?
  {
    hide Inv;
    if s.dying { LivesUntil(s, events); }
    StepKeeps(s, events[0]);
    if events[0].Dying? { LivesUntil(Step(s, events[0]), events[1..]); }
  }

  /** Turns enough have begun for what was `away` turns from its end; one more could begin
      when nothing is left to complete. */
  predicate Enough(events: seq<Event>, t: State, away: nat) {
    Turns(events) + (if t.completing == [] then 1 else 0) >= away
  }

  /** Over every run of a live loop, with any starts, cancels, completions by curl and
      managers going in between and while a turn completes: a queued transfer has ended,
      exactly once, when turns enough have begun. */
  lemma QueuedEnds(s: State, events: seq<Event>, j: Transfer)
    requires Inv(s) && Runs(s, events) && Waits(s, j) && s.jobs[j].queued && !After(s, events).dying
    requires Enough(events, After(s, events), Away(s, j))
    ensures var t := After(s, events);
            && j in t.jobs && !Waits(t, j) && multiset(t.ended)[j] == 1
            && t.jobs[j].fate == Verdict(s.jobs[j].(cancelled := t.jobs[j].cancelled))
            && (s.jobs[j].cancelled ==> t.jobs[j].cancelled)
            && (t.jobs[j].cancelled ==> s.jobs[j].cancelled || CancelAsked(j) in events)
  {
    hide Inv, Runs, After, Verdict;
    var t := After(s, events);
    QueuedRun(s, events, j);
    RunKeeps(s, events);
    EndedOnce(t, j);
    SameVerdict(t.jobs[j], s.jobs[j].(cancelled := t.jobs[j].cancelled));
  }

  /** Over every run of a live loop that goes on from a cancel: the transfer ends cancelled,
      once, at the cancel itself or when turns enough have begun. */
  lemma CancelEnds(s: State, events: seq<Event>, j: Transfer)
    requires Inv(s) && Waits(s, j) && Runs(s, [CancelAsked(j)] + events)
    requires var t := After(s, [CancelAsked(j)] + events);
             !t.dying && (s.jobs[j].queued ==> Enough(events, t, Away(s, j)))
    ensures var t := After(s, [CancelAsked(j)] + events);
            j in t.jobs && t.jobs[j].fate == Cancelled && multiset(t.ended)[j] == 1
  {
    hide Inv, Cancel, Enough;
    var all, c := [CancelAsked(j)] + events, Cancel(s, j);
    assert all[1..] == events;
    NotDying(s, all);
    CancelKeeps(s, j);
    CancelOthers(s, j);
    Tracked(s, j);
    if s.jobs[j].queued {
      QueuedEnds(c, events, j);
    } else {
      CancelIs(s, j);
      EndedForGood(c, events, j);
      RunKeeps(c, events);
      EndedOnce(After(c, events), j);
    }
  }

  /** Over every run of a live loop that goes on from curl's report: the transfer ends, exactly
      once, with the error curl reported, or with its response if it reported none, unless a
      cancel comes first. */
  lemma FinishedEnds(s: State, events: seq<Event>, j: Transfer, problem: Problem)
    requires Inv(s) && Runs(s, [Finished(j, problem)] + events)
    requires var t := After(s, [Finished(j, problem)] + events); !t.dying && Enough(events, t, 3)
    ensures var t := After(s, [Finished(j, problem)] + events);
            && j in t.jobs && multiset(t.ended)[j] == 1
            && (t.jobs[j].cancelled ==> CancelAsked(j) in events && t.jobs[j].fate == Cancelled)
            && (!t.jobs[j].cancelled && problem.Because? ==> t.jobs[j].fate == Failed(problem.failure))
            && (!t.jobs[j].cancelled && problem.NoProblem? ==> t.jobs[j].fate == Responded)
  {
    hide Inv, Finish, Enough;
    var all, f := [Finished(j, problem)] + events, Finish(s, j, problem);
    assert all[1..] == events;
    NotDying(s, all);
    FinishKeeps(s, j, problem);
    FinishIs(s, j, problem);
    DrivenIsTracked(s, j);
    EnoughForAll(f, events, After(f, events), j);
    QueuedEnds(f, events, j);
  }

  /** Over every run that goes on from a start that failed: the transfer has ended, exactly
      once, with what the start failed with. */
  lemma RefusedEnds(s: State, events: seq<Event>, j: Transfer, failure: Failure, cancelled: bool)
    requires Inv(s) && Runs(s, [Started(j, Because(failure), cancelled)] + events)
    ensures var t := After(s, [Started(j, Because(failure), cancelled)] + events);
            j in t.jobs && multiset(t.ended)[j] == 1 && t.jobs[j].fate == Failed(failure)
  {
    hide Inv;
    var all := [Started(j, Because(failure), cancelled)] + events;
    var t := Start(s, j, Because(failure), cancelled);
    assert all[1..] == events;
    StartKeeps(s, j, Because(failure), cancelled);
    EndedForGood(t, events, j);
    RunKeeps(t, events);
    EndedOnce(After(t, events), j);
  }

  /** Over every run that goes on from a start by a task cancelled before: the transfer has
      ended cancelled, exactly once. */
  lemma CancelledStartEnds(s: State, events: seq<Event>, j: Transfer)
    requires Inv(s) && Runs(s, [Started(j, NoProblem, true)] + events)
    ensures var t := After(s, [Started(j, NoProblem, true)] + events);
            j in t.jobs && multiset(t.ended)[j] == 1 && t.jobs[j].fate == Cancelled
  {
    hide Inv, Cancel;
    var all := [Started(j, NoProblem, true)] + events;
    var t := Start(s, j, NoProblem, true);
    assert all[1..] == events;
    StartKeeps(s, j, NoProblem, true);
    CancelIs(Add(s, j), j);
    EndedForGood(t, events, j);
    RunKeeps(t, events);
    EndedOnce(After(t, events), j);
  }

  /** Over every run of a live loop that goes on from its manager's end: every transfer of
      the manager ends, exactly once, when turns enough have begun. What curl still drove
      ends as aborted, what had finished as it had, and either as cancelled if a cancel comes
      first. */
  lemma GoneManagerEndsAll(s: State, events: seq<Event>, j: Transfer)
    requires Inv(s) && j in s.jobs && Runs(s, [Destroyed] + events)
    requires var t := After(s, [Destroyed] + events); !t.dying && Enough(events, t, 3)
    ensures var t := After(s, [Destroyed] + events);
            && j in t.jobs && multiset(t.ended)[j] == 1
            && (Waits(s, j) ==>
                  t.jobs[j].fate == if t.jobs[j].cancelled then Cancelled
                                    else if s.jobs[j].queued then Verdict(s.jobs[j]) else Failed(Aborted))
            && (t.jobs[j].cancelled ==> s.jobs[j].cancelled || CancelAsked(j) in events)
  {
    hide Inv, ReleaseAll;
    var all := [Destroyed] + events;
    assert all[1..] == events;
    NotDying(s, all);
    StepKeeps(s, Destroyed);
    ReleaseAllIs(s);
    var d := Destroy(s);
    Tracked(s, j);
    if Waits(s, j) {
      QueuedEnds(d, events, j);
    } else {
      EndedForGood(d, events, j);
      RunKeeps(d, events);
      EndedOnce(After(d, events), j);
    }
  }

  lemma {:induction false} RunsInTwo(s: State, a: seq<Event>, b: seq<Event>)
    requires Runs(s, a + b)
    ensures Runs(s, a) && Runs(After(s, a), b) && After(s, a + b) == After(After(s, a), b)
    decreases |a|
  {
    hide Step, Enabled;
    if a == [] {
      assert a + b == b;
    } else {
      assert (a + b)[1..] == a[1..] + b;
      RunsInTwo(Step(s, a[0]), a[1..], b);
    }
  }

  /** Over every run from the start on that leaves the loop alive: each transfer that was
      started, and that curl did not drive any more at some point, has ended exactly once when
      turns enough have begun since. */
  lemma EveryLiveRunEnds(before: seq<Event>, events: seq<Event>, j: Transfer)
    requires Runs(Init(), before + events) && !After(Init(), before + events).dying
    requires Runs(Init(), before) && j in After(Init(), before).jobs && j !in After(Init(), before).multi
    requires Enough(events, After(Init(), before + events), 3)
    ensures multiset(After(Init(), before + events).ended)[j] == 1
  {
    hide Inv, Runs, After, Init, Enough;
    InitKeeps();
    RunsInTwo(Init(), before, events);
    var s := After(Init(), before);
    RunKeeps(Init(), before);
    Tracked(s, j);
    if s.dying { LivesUntil(s, events); }
    if Waits(s, j) {
      UndrivenIsQueued(s, j);
      EnoughForAll(s, events, After(s, events), j);
      QueuedEnds(s, events, j);
    } else {
      EndedForGood(s, events, j);
      RunKeeps(s, events);
      EndedOnce(After(s, events), j);
    }
  }

  lemma EnoughForAll(s: State, events: seq<Event>, t: State, j: Transfer)
    requires Enough(events, t, 3)
    ensures Enough(events, t, Away(s, j))
  {
  }

  lemma UndrivenIsQueued(s: State, j: Transfer)
    requires Inv(s) && !s.dying && Waits(s, j) && j !in s.multi
    ensures s.jobs[j].queued
  {
    assert Fine(PlaceOf(s, j), false);
  }

  // ---------- the loop dies ----------

  /** A transfer no one ends any more: its completion is queued on a loop that completes
      nothing, and no manager is left to take it back. */
  predicate Lost(s: State, j: Transfer) { s.dying && Waits(s, j) && s.jobs[j].queued && !s.jobs[j].owned }

  /** In a loop being destroyed, a lost transfer stays lost; one that is not becomes lost only
      by a cancel that finds its completion queued while the manager still tracks it. */
  lemma LostStays(s: State, e: Event, j: Transfer)
    requires Inv(s) && Enabled(s, e) && s.dying && j in s.jobs
    ensures var t := Step(s, e);
            && t.dying && j in t.jobs && (t.manager ==> s.manager)
            && (Lost(t, j) <==> Lost(s, j) || (e == CancelAsked(j) && s.jobs[j].owned && s.jobs[j].queued))
  {
    hide Inv, Cancel, ReleaseAll;
    Tracked(s, j);
    match e
    case CancelAsked(k) =>
      if Waits(s, k) && !s.jobs[k].cancelled {
        CancelIs(s, k);
      } else {
        CancelIsNothing(s, k);
      }
    case Destroyed =>
      ReleaseAllKeeps(s);
      ReleaseAllIs(s);
  }

  lemma CancelIsNothing(s: State, j: Transfer)
    requires j in s.jobs && !(Waits(s, j) && !s.jobs[j].cancelled)
    ensures Cancel(s, j) == s
  {
  }

  /** Once the manager has gone with its loop: over every further run, exactly the transfers
      lost by then never end, and each other one has ended once if a cancel has reached it. */
  lemma {:induction false} DeadLoop(s: State, events: seq<Event>, j: Transfer)
    requires Inv(s) && s.dying && !s.manager && j in s.jobs && Runs(s, events)
    ensures var t := After(s, events);
            && j in t.jobs && (Lost(t, j) <==> Lost(s, j))
            && (Lost(s, j) ==> multiset(t.ended)[j] == 0)
            && (!Lost(s, j) && t.jobs[j].cancelled ==> multiset(t.ended)[j] == 1)
    decreases |events|
  {
    hide Inv, Step, Enabled;
    Tracked(s, j);
    NoneListed(s);
    if events == [] {
      DeadNow(s, j);
    } else {
      var e := events[0];
      LostStays(s, e, j);
      StepKeeps(s, e);
      DeadLoop(Step(s, e), events[1..], j);
    }
  }

  lemma NoneListed(s: State)
    requires Inv(s) && !s.manager
    ensures s.list == []
  {
  }

  lemma DeadNow(s: State, j: Transfer)
    requires Inv(s) && s.dying && !s.manager && j in s.jobs
    ensures Lost(s, j) ==> multiset(s.ended)[j] == 0
    ensures !Lost(s, j) && s.jobs[j].cancelled ==> multiset(s.ended)[j] == 1
  {
    assert Fine(PlaceOf(s, j), true);
  }

  /** When the manager goes with its loop at once: a transfer that waits is lost exactly when
      its completion is queued and it has left the manager, and any other ends by its cancel. */
  lemma DyingLoop(s: State, j: Transfer)
    requires Inv(s) && s.manager && !s.dying && s.completing == [] && Waits(s, j) && !s.jobs[j].cancelled
    ensures ListKnown(s.(dying := true))
    ensures var d := Destroy(s.(dying := true));
            && Inv(d) && j in d.jobs
            && (Lost(d, j) <==> s.jobs[j].queued && !s.jobs[j].owned)
            && (Waits(Cancel(d, j), j) <==> s.jobs[j].queued && !s.jobs[j].owned)
  {
    hide Inv, Cancel, ReleaseAll;
    DyingKeeps(s);
    var dying := s.(dying := true);
    Tracked(s, j);
    ReleaseAllKeeps(dying);
    ReleaseAllIs(dying);
    ManagerKeeps(ReleaseAll(dying), false);
    CancelIs(Destroy(dying), j);
  }

  /** Such a loss: the manager goes first, then the loop, before it has turned. */
  lemma AbortedButNeverEnded(j: Transfer)
    ensures var events := [Made, Started(j, NoProblem, false), Destroyed, Dying, CancelAsked(j)];
            && Runs(Init(), events)
            && var t := After(Init(), events);
            && Lost(t, j) && t.jobs[j].cancelled && t.ended == []
  {
    hide Step, Enabled, Lost, Add, Destroy, Cancel, Init;
    var made := Init().(manager := true);
    var s := Add(made, j);
    Beginning(j);
    Ending(j);
    var d := Destroy(s);
    var dying := d.(dying := true);
    var t := Cancel(dying, j);
    var e4 := [CancelAsked(j)];
    var e3 := [Dying] + e4;
    var e2 := [Destroyed] + e3;
    var e1 := [Started(j, NoProblem, false)] + e2;
    var e0 := [Made] + e1;
    assert e4[1..] == [] && Runs(t, []) && Runs(dying, e4) && After(dying, e4) == t;
    assert e3[1..] == e4 && Runs(d, e3) && After(d, e3) == t;
    assert e2[1..] == e3 && Runs(s, e2) && After(s, e2) == t;
    assert e1[1..] == e2 && Runs(made, e1) && After(made, e1) == t;
    assert e0[1..] == e1 && Runs(Init(), e0) && After(Init(), e0) == t;
    assert e0 == [Made, Started(j, NoProblem, false), Destroyed, Dying, CancelAsked(j)];
  }

  lemma Beginning(j: Transfer)
    ensures var made := Init().(manager := true);
            && Enabled(Init(), Made) && Step(Init(), Made) == made
            && Enabled(made, Started(j, NoProblem, false)) && Step(made, Started(j, NoProblem, false)) == Add(made, j)
  {
  }

  lemma Ending(j: Transfer)
    ensures var s := Add(Init().(manager := true), j);
            && Enabled(s, Destroyed)
            && var d := Destroy(s);
            && Step(s, Destroyed) == d && Enabled(d, Dying)
            && var dying := d.(dying := true);
            && Step(d, Dying) == dying && Enabled(dying, CancelAsked(j))
            && var t := Cancel(dying, j);
            && Step(dying, CancelAsked(j)) == t && Lost(t, j) && t.jobs[j].cancelled && t.ended == []
  {
    var s := Add(Init().(manager := true), j);
    assert s.list == [j] && s.list[1..] == [];
    assert ReleaseAll(s) == Release(s, j);
  }
}
