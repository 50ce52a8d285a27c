/** The life of HTTP transfers: the manager that tracks them, curl's multi handle that drives
    them, and the event loop that completes them, step by step. */
module HttpRuns {

  datatype Failure = SetupFailed | CurlFailed(code: int) | Aborted

  datatype Problem = NoProblem | Because(failure: Failure)

  /** A request on its way, linked into its manager's list. */
  class Transfer {
    var owned: bool
    var queued: bool
    var failure: Problem
    var cancelled: bool
    var fate: Fate
    var prev: Transfer?
    var next: Transfer?

    constructor ()
      ensures Value() == Job(true, false, NoProblem, false, Waiting) && prev == null && next == null
    {
      owned, queued, failure, cancelled, fate := true, false, NoProblem, false, Waiting;
      prev, next := null, null;
    }

    function Value(): Job
      reads this`owned, this`queued, this`failure, this`cancelled, this`fate
    {
      Job(owned, queued, failure, cancelled, fate)
    }
  }

  /** How a transfer ended for the task that awaits it. */
  datatype Fate = Waiting | Cancelled | Failed(failure: Failure) | Responded

  /** A transfer: whether a manager tracks it, whether its completion is queued on the loop,
      what went wrong, whether a cancel has reached it. */
  datatype Job = Job(owned: bool, queued: bool, failure: Problem, cancelled: bool, fate: Fate)

  datatype State = State(
    jobs: map<Transfer, Job>,
    list: seq<Transfer>,
    multi: set<Transfer>,
    staged: seq<Transfer>,
    ready: seq<Transfer>,
    completing: seq<Transfer>,
    manager: bool,
    dying: bool,
    /** The transfers whose tasks have resumed or ended, in order. */
    ended: seq<Transfer>)

  function Init(): State { State(map[], [], {}, [], [], [], false, false, []) }

  // ---------- the operations ----------

  function Without(s: seq<Transfer>, j: Transfer): seq<Transfer> {
    if s == [] then [] else if s[0] == j then s[1..] else [s[0]] + Without(s[1..], j)
  }

  function Put(s: State, j: Transfer, job: Job): State { s.(jobs := s.jobs[j := job]) }

  /** The task that awaits the transfer resumes or ends. */
  function End(s: State, j: Transfer): State { s.(ended := s.ended + [j]) }

  /** The loop gets a completion to do. */
  function Stage(s: State, j: Transfer): State { s.(staged := s.staged + [j]) }

  /** curl no longer drives the transfer. */
  function Remove(s: State, j: Transfer): State { s.(multi := s.multi - {j}) }

  function Unlink(s: State, j: Transfer): State { s.(list := Without(s.list, j)) }

  /** The manager lets go of a transfer. */
  function Drop(s: State, j: Transfer): State
    requires j in s.jobs
  {
    var removed := if s.jobs[j].queued then s else Remove(s, j);
    Put(Unlink(removed, j), j, s.jobs[j].(owned := false))
  }

  /** await_resume(): the transfer leaves the manager and gives its failure or response. */
  function Resume(s: State, j: Transfer): State
    requires j in s.jobs
  {
    var job := s.jobs[j];
    var left := if job.owned then Drop(s, j) else s;
    var fate := if job.failure.Because? then Failed(job.failure.failure) else Responded;
    Put(left, j, left.jobs[j].(fate := fate))
  }

  /** complete(): a cancelled transfer's task ends, any other resumes and leaves the manager. */
  function Complete(s: State, j: Transfer): State
    requires j in s.jobs
  {
    var job := s.jobs[j];
    if job.cancelled then Put(End(s, j), j, job.(fate := Cancelled)) else Resume(End(s, j), j)
  }

  function Cancel(s: State, j: Transfer): State
    requires j in s.jobs
  {
    var job := s.jobs[j];
    if !job.fate.Waiting? || job.cancelled then s
    else
      var marked := Put(s, j, job.(cancelled := true));
      var left := if job.owned then Drop(marked, j) else marked;
      if job.queued then left else Complete(left, j)
  }

  function Add(s: State, j: Transfer): State {
    Put(s, j, Job(true, false, NoProblem, false, Waiting)).(list := [j] + s.list, multi := s.multi + {j})
  }

  /** start(), then attach() by a task that may have been cancelled already. */
  function Start(s: State, j: Transfer, problem: Problem, cancelled: bool): State {
    if problem.Because? then End(Put(s, j, Job(false, false, problem, false, Failed(problem.failure))), j)
    else if cancelled then Cancel(Add(s, j), j)
    else Add(s, j)
  }

  /** curl reports the transfer over. */
  function Finish(s: State, j: Transfer, problem: Problem): State
    requires j in s.jobs
  {
    var job := s.jobs[j];
    var failure := if problem.Because? then problem else job.failure;
    Stage(Put(Remove(s, j), j, job.(queued := true, failure := failure)), j)
  }

  /** What the manager's destructor does with a transfer. */
  function Release(s: State, j: Transfer): State
    requires j in s.jobs
  {
    var job := s.jobs[j];
    var left := Drop(s, j);
    if s.dying then Put(left, j, left.jobs[j].(queued := false))
    else if !job.queued then Stage(Put(left, j, left.jobs[j].(failure := Because(Aborted), queued := true)), j)
    else left
  }

  predicate ListKnown(s: State) { forall j :: j in s.list ==> j in s.jobs }

  function ReleaseAll(s: State): State
    requires ListKnown(s)
    decreases |s.list|
  {
    if s.list == [] then s else ReleaseAll(Release(s, s.list[0]))
  }

  function Destroy(s: State): State
    requires ListKnown(s)
  {
    ReleaseAll(s).(manager := false)
  }

  /** A turn of the loop starts: what the last one readied is to complete. */
  function Turn(s: State): State { s.(completing := s.ready, ready := s.staged, staged := []) }

  function CompleteNext(s: State): State
    requires s.completing != [] && s.completing[0] in s.jobs
  {
    Complete(s.(completing := s.completing[1..]), s.completing[0])
  }

  // ---------- what every state keeps ----------

  function Queue(s: State): seq<Transfer> { s.completing + s.ready + s.staged }

  /** Where a transfer is: in the list, with curl, how often in the loop's queue, and how
      often it has ended. */
  datatype Place = Place(job: Job, listed: bool, driven: bool, due: nat, ended: nat)

  ghost function PlaceOf(s: State, j: Transfer): Place
    requires j in s.jobs
  {
    Place(s.jobs[j], j in s.list, j in s.multi, multiset(Queue(s))[j], multiset(s.ended)[j])
  }

  /** The list holds exactly the transfers with an owner, and curl drives exactly those of
      them not queued. A completion still due is in the loop's queue once, and no other is. A
      tracked transfer waits uncancelled; one that waits is tracked or queued, or else the
      loop is dying and its cancel is still to come. Nothing has gone wrong with what curl still
      drives. What waits has not ended; what does not has ended once. */
  predicate Fine(p: Place, dying: bool) {
    var job := p.job;
    && (p.listed <==> job.owned)
    && (p.driven <==> p.listed && !job.queued)
    && (!dying ==> p.due == if job.fate.Waiting? && job.queued then 1 else 0)
    && (job.owned ==> job.fate.Waiting? && !job.cancelled)
    && (job.fate.Waiting? && !job.owned && !job.queued ==> dying && !job.cancelled)
    && (p.driven ==> job.failure.NoProblem?)
    && p.ended == if job.fate.Waiting? then 0 else 1
  }

  ghost predicate Distinct(s: seq<Transfer>) { forall i, k :: 0 <= i < k < |s| ==> s[i] != s[k] }

  ghost predicate Known(s: State) {
    && (forall j :: j in s.list ==> j in s.jobs) && (forall j :: j in s.multi ==> j in s.jobs)
    && (forall j :: j in s.ended ==> j in s.jobs) && (forall j :: j in Queue(s) ==> j in s.jobs)
  }

  ghost predicate Shaped(s: State) {
    Known(s) && Distinct(s.list) && (!s.manager ==> s.list == []) && (s.dying ==> s.completing == [])
  }

  ghost predicate Inv(s: State) {
    Shaped(s) && forall j :: j in s.jobs ==> Fine(PlaceOf(s, j), s.dying)
  }

  // ---------- steps and runs ----------

  datatype Event =
    | Made
    | Started(j: Transfer, problem: Problem, cancelled: bool)
    | Finished(j: Transfer, problem: Problem)
    | CancelAsked(j: Transfer)
    | Turned
    | Completed
    | Destroyed
    | Dying

  /** Whether the event can happen in `s`. */
  predicate Enabled(s: State, e: Event) {
    match e
    case Made => !s.manager && !s.dying
    case Started(j, _, _) => j !in s.jobs && s.manager && !s.dying
    case Finished(j, _) => j in s.jobs && j in s.multi && s.manager && !s.dying
    case CancelAsked(j) => j in s.jobs
    case Turned => s.completing == [] && !s.dying
    case Completed => s.completing != [] && s.completing[0] in s.jobs && !s.dying
    case Destroyed => s.manager && ListKnown(s)
    case Dying => !s.dying && s.completing == []
  }

  function Step(s: State, e: Event): State
    requires Enabled(s, e)
  {
    match e
    case Made => s.(manager := true)
    case Started(j, problem, cancelled) => Start(s, j, problem, cancelled)
    case Finished(j, problem) => Finish(s, j, problem)
    case CancelAsked(j) => Cancel(s, j)
    case Turned => Turn(s)
    case Completed => CompleteNext(s)
    case Destroyed => Destroy(s)
    case Dying => s.(dying := true)
  }

  /** A run: each event can happen where it does. */
  predicate Runs(s: State, events: seq<Event>)
    decreases |events|
  {
    events == [] || (Enabled(s, events[0]) && Runs(Step(s, events[0]), events[1..]))
  }

  function After(s: State, events: seq<Event>): State
    requires Runs(s, events)
    decreases |events|
  {
    if events == [] then s else After(Step(s, events[0]), events[1..])
  }

  // ---------- an operation on one transfer leaves the others where they are ----------

  ghost predicate Only(s: State, t: State, j: Transfer) {
    && t.dying == s.dying && t.manager == s.manager && j in t.jobs && Shaped(t)
    && forall k :: k in t.jobs && k != j ==> k in s.jobs && PlaceOf(t, k) == PlaceOf(s, k)
  }

  lemma OnlyTwice(s: State, t: State, u: State, j: Transfer)
    requires Only(s, t, j) && Only(t, u, j)
    ensures Only(s, u, j)
  {
    hide PlaceOf, Shaped;
  }

  lemma OnlyKeeps(s: State, t: State, j: Transfer)
    requires Inv(s) && Only(s, t, j) && Fine(PlaceOf(t, j), t.dying)
    ensures Inv(t)
  {
    hide PlaceOf, Shaped, Fine;
  }

  lemma {:induction false} WithoutIs(s: seq<Transfer>, j: Transfer)
    requires Distinct(s)
    ensures Distinct(Without(s, j))
    ensures forall k :: k in Without(s, j) <==> k in s && k != j
  {
    if s != [] {
      var rest := s[1..];
      assert s == [s[0]] + rest;
      assert s[0] !in rest;
      if s[0] != j {
        WithoutIs(rest, j);
        DistinctMore(s[0], Without(rest, j));
      }
    }
  }

  lemma DistinctMore(j: Transfer, s: seq<Transfer>)
    requires Distinct(s) && j !in s
    ensures Distinct([j] + s)
  {
  }

  lemma PutOnly(s: State, j: Transfer, job: Job)
    requires Shaped(s) && j in s.jobs
    ensures Only(s, Put(s, j, job), j) && PlaceOf(Put(s, j, job), j) == PlaceOf(s, j).(job := job)
  {
    assert Queue(Put(s, j, job)) == Queue(s);
  }

  lemma EndOnly(s: State, j: Transfer)
    requires Shaped(s) && j in s.jobs
    ensures Only(s, End(s, j), j) && PlaceOf(End(s, j), j) == PlaceOf(s, j).(ended := PlaceOf(s, j).ended + 1)
  {
    hide Distinct;
    assert Queue(End(s, j)) == Queue(s);
    CountMore(s.ended, j);
  }

  lemma CountMore(q: seq<Transfer>, j: Transfer)
    ensures forall k :: k in q + [j] <==> k in q || k == j
    ensures forall k :: multiset(q + [j])[k] == multiset(q)[k] + if k == j then 1 else 0
  {
    assert multiset(q + [j]) == multiset(q) + multiset{j};
  }

  lemma CountFirst(j: Transfer, q: seq<Transfer>)
    ensures forall k :: k in [j] + q <==> k in q || k == j
    ensures forall k :: multiset([j] + q)[k] == multiset(q)[k] + if k == j then 1 else 0
  {
    assert multiset([j] + q) == multiset(q) + multiset{j};
  }

  lemma StageQueue(s: State, j: Transfer)
    ensures Queue(Stage(s, j)) == Queue(s) + [j]
  {
  }

  lemma PopQueue(s: State)
    requires s.completing != []
    ensures Queue(s) == [s.completing[0]] + Queue(s.(completing := s.completing[1..]))
  {
  }

  lemma StageOnly(s: State, j: Transfer)
    requires Shaped(s) && j in s.jobs
    ensures Only(s, Stage(s, j), j) && PlaceOf(Stage(s, j), j) == PlaceOf(s, j).(due := PlaceOf(s, j).due + 1)
  {
    hide Queue, Distinct;
    StageQueue(s, j);
    CountMore(Queue(s), j);
  }

  lemma RemoveOnly(s: State, j: Transfer)
    requires Shaped(s) && j in s.jobs
    ensures Only(s, Remove(s, j), j) && PlaceOf(Remove(s, j), j) == PlaceOf(s, j).(driven := false)
  {
    assert Queue(Remove(s, j)) == Queue(s);
  }

  lemma UnlinkOnly(s: State, j: Transfer)
    requires Shaped(s) && j in s.jobs
    ensures Only(s, Unlink(s, j), j) && PlaceOf(Unlink(s, j), j) == PlaceOf(s, j).(listed := false)
  {
    WithoutIs(s.list, j);
    assert Queue(Unlink(s, j)) == Queue(s);
  }

  lemma DropOnly(s: State, j: Transfer)
    requires Shaped(s) && j in s.jobs
    ensures var p := PlaceOf(s, j);
            && Only(s, Drop(s, j), j)
            && PlaceOf(Drop(s, j), j) ==
               p.(job := p.job.(owned := false), listed := false, driven := p.driven && p.job.queued)
  {
    hide Shaped, PlaceOf, Put, Unlink, Remove;
    JobAt(s, j);
    var removed := if s.jobs[j].queued then s else Remove(s, j);
    var unlinked := Unlink(removed, j);
    var job := s.jobs[j].(owned := false);
    RemoveOnly(s, j);
    UnlinkOnly(removed, j);
    PutOnly(unlinked, j, job);
    if !s.jobs[j].queued { OnlyTwice(s, removed, unlinked, j); }
    OnlyTwice(s, unlinked, Put(unlinked, j, job), j);
  }

  lemma JobAt(s: State, j: Transfer)
    requires j in s.jobs
    ensures PlaceOf(s, j).job == s.jobs[j]
  {
  }

  lemma CompleteOnly(s: State, j: Transfer)
    requires Shaped(s) && j in s.jobs
    ensures var p, q := PlaceOf(s, j), PlaceOf(Complete(s, j), j);
            && Only(s, Complete(s, j), j)
            && q.ended == p.ended + 1 && q.due == p.due && !q.job.fate.Waiting?
            && (if p.job.owned && !p.job.cancelled then
                  !q.listed && q.driven == (p.driven && p.job.queued) && !q.job.owned
                else q.listed == p.listed && q.driven == p.driven && q.job.owned == p.job.owned)
  {
    hide Shaped, PlaceOf, Put, End, Drop;
    JobAt(s, j);
    var job, ended := s.jobs[j], End(s, j);
    EndOnly(s, j);
    JobAt(ended, j);
    if job.cancelled {
      PutOnly(ended, j, job.(fate := Cancelled));
      OnlyTwice(s, ended, Complete(s, j), j);
    } else {
      var left := if job.owned then Drop(ended, j) else ended;
      DropOnly(ended, j);
      if job.owned { OnlyTwice(s, ended, left, j); }
      var fate := if job.failure.Because? then Failed(job.failure.failure) else Responded;
      JobAt(left, j);
      PutOnly(left, j, left.jobs[j].(fate := fate));
      OnlyTwice(s, left, Complete(s, j), j);
    }
  }

  // ---------- every event keeps the invariant ----------

  lemma InvAt(s: State, j: Transfer)
    requires Inv(s) && j in s.jobs
    ensures Shaped(s) && Fine(PlaceOf(s, j), s.dying) && PlaceOf(s, j).job == s.jobs[j]
  {
  }

  lemma FinishKeeps(s: State, j: Transfer, problem: Problem)
    requires Inv(s) && j in s.jobs && j in s.multi && !s.dying
    ensures Inv(Finish(s, j, problem))
  {
    InvAt(s, j);
    assert PlaceOf(s, j).driven;
    FinishOnly(s, j, problem);
    OnlyKeeps(s, Finish(s, j, problem), j);
  }

  lemma FinishOnly(s: State, j: Transfer, problem: Problem)
    requires Shaped(s) && j in s.jobs
    ensures var p, q := PlaceOf(s, j), PlaceOf(Finish(s, j, problem), j);
            && Only(s, Finish(s, j, problem), j)
            && q.job.queued && q.job.owned == p.job.owned && q.job.cancelled == p.job.cancelled
            && q.job.fate == p.job.fate && q.listed == p.listed && !q.driven && q.due == p.due + 1 && q.ended == p.ended
  {
    hide Shaped, PlaceOf, Put, Remove, Stage;
    JobAt(s, j);
    var removed := Remove(s, j);
    RemoveOnly(s, j);
    JobAt(removed, j);
    var failure := if problem.Because? then problem else s.jobs[j].failure;
    var job := s.jobs[j].(queued := true, failure := failure);
    PutOnly(removed, j, job);
    var put := Put(removed, j, job);
    OnlyTwice(s, removed, put, j);
    StageOnly(put, j);
    OnlyTwice(s, put, Stage(put, j), j);
  }

  lemma CancelKeeps(s: State, j: Transfer)
    requires Inv(s) && j in s.jobs
    ensures Inv(Cancel(s, j))
    ensures j in Cancel(s, j).jobs
    ensures Waits(s, j) && !s.jobs[j].queued && !s.jobs[j].cancelled ==> !Waits(Cancel(s, j), j)
  {
    hide Inv, Shaped, PlaceOf, Put, Drop, Complete;
    InvAt(s, j);
    var job := s.jobs[j];
    if job.fate.Waiting? && !job.cancelled {
      var marked := Put(s, j, job.(cancelled := true));
      PutOnly(s, j, job.(cancelled := true));
      var left := if job.owned then Drop(marked, j) else marked;
      if job.owned {
        DropOnly(marked, j);
        OnlyTwice(s, marked, left, j);
      }
      if !job.queued {
        CompleteOnly(left, j);
        JobAt(Complete(left, j), j);
        OnlyTwice(s, left, Complete(left, j), j);
      }
      OnlyKeeps(s, Cancel(s, j), j);
    }
  }

  predicate Waits(s: State, j: Transfer) { j in s.jobs && s.jobs[j].fate.Waiting? }

  lemma AddOnly(s: State, j: Transfer)
    requires Shaped(s) && j !in s.jobs && s.manager
    ensures Only(s, Add(s, j), j)
    ensures PlaceOf(Add(s, j), j) == Place(Job(true, false, NoProblem, false, Waiting), true, true, 0, 0)
  {
    assert Queue(Add(s, j)) == Queue(s);
    assert j !in Queue(s) && j !in s.ended;
    DistinctMore(j, s.list);
  }

  lemma RefuseOnly(s: State, j: Transfer, job: Job)
    requires Shaped(s) && j !in s.jobs
    ensures Only(s, End(Put(s, j, job), j), j)
    ensures PlaceOf(End(Put(s, j, job), j), j) == Place(job, false, false, 0, 1)
  {
    hide End, Put, Shaped, PlaceOf;
    var t := Put(s, j, job);
    NewOnly(s, j, job);
    EndOnly(t, j);
    OnlyTwice(s, t, End(t, j), j);
  }

  lemma NewOnly(s: State, j: Transfer, job: Job)
    requires Shaped(s) && j !in s.jobs
    ensures Only(s, Put(s, j, job), j) && PlaceOf(Put(s, j, job), j) == Place(job, false, false, 0, 0)
  {
    hide Distinct;
    assert Queue(Put(s, j, job)) == Queue(s);
    assert j !in Queue(s) && j !in s.ended;
  }

  lemma StartKeeps(s: State, j: Transfer, problem: Problem, cancelled: bool)
    requires Inv(s) && j !in s.jobs && s.manager && !s.dying
    ensures Inv(Start(s, j, problem, cancelled))
  {
    hide Cancel, Shaped, PlaceOf, Add, End, Put;
    if problem.Because? {
      RefuseKeeps(s, j, problem);
    } else {
      AddOnly(s, j);
      OnlyKeeps(s, Add(s, j), j);
      CancelKeeps(Add(s, j), j);
    }
  }

  lemma RefuseKeeps(s: State, j: Transfer, problem: Problem)
    requires Inv(s) && j !in s.jobs && problem.Because?
    ensures Inv(Start(s, j, problem, false))
  {
    hide Cancel, Shaped, PlaceOf, Add, End, Put;
    RefuseOnly(s, j, Job(false, false, problem, false, Failed(problem.failure)));
    OnlyKeeps(s, Start(s, j, problem, false), j);
  }

  /** Moving completions along the loop's queue leaves every transfer where it is. */
  lemma TurnKeeps(s: State)
    requires Inv(s) && s.completing == [] && !s.dying
    ensures Inv(Turn(s))
  {
    hide Fine, Distinct;
    var t := Turn(s);
    assert Queue(t) == Queue(s);
    forall j | j in t.jobs ensures Fine(PlaceOf(t, j), t.dying) {
      assert PlaceOf(t, j) == PlaceOf(s, j);
    }
  }

  /** The queue's first completion is of a transfer that is awaited. */
  lemma CompleteNextKeeps(s: State)
    requires Inv(s) && s.completing != [] && !s.dying
    ensures s.completing[0] in s.jobs && Waits(s, s.completing[0]) && s.jobs[s.completing[0]].queued
    ensures Inv(CompleteNext(s))
  {
    hide Complete, Shaped, PlaceOf;
    var j := s.completing[0];
    var popped := s.(completing := s.completing[1..]);
    PopOnly(s);
    InvAt(s, j);
    CompleteOnly(popped, j);
    OnlyTwice(s, popped, Complete(popped, j), j);
    OnlyKeeps(s, CompleteNext(s), j);
  }

  lemma PopOnly(s: State)
    requires Shaped(s) && s.completing != []
    ensures var j, t := s.completing[0], s.(completing := s.completing[1..]);
            && Only(s, t, j) && j in s.jobs && PlaceOf(s, j).due > 0
            && PlaceOf(t, j) == PlaceOf(s, j).(due := PlaceOf(s, j).due - 1)
  {
    hide Queue, Distinct;
    var j, t := s.completing[0], s.(completing := s.completing[1..]);
    PopQueue(s);
    CountFirst(j, Queue(t));
  }

  lemma ReleaseKeeps(s: State)
    requires Inv(s) && s.list != []
    ensures Inv(Release(s, s.list[0])) && Release(s, s.list[0]).list == s.list[1..]
    ensures Release(s, s.list[0]).dying == s.dying && Release(s, s.list[0]).manager == s.manager
  {
    hide Shaped, PlaceOf, Fine;
    KnownInList(s);
    var j := s.list[0];
    InvAt(s, j);
    JobAt(s, j);
    ReleaseOnly(s, j);
    OnlyKeeps(s, Release(s, j), j);
  }

  lemma KnownInList(s: State)
    requires Inv(s)
    ensures ListKnown(s)
  {
  }

  lemma ReleaseOnly(s: State, j: Transfer)
    requires Inv(s) && j in s.jobs && j in s.list
    ensures Only(s, Release(s, j), j) && Fine(PlaceOf(Release(s, j), j), s.dying)
    ensures !Release(s, j).jobs[j].owned && (Release(s, j).jobs[j].queued <==> !s.dying)
  {
    hide Inv, Shaped, Put, Drop, Stage, PlaceOf;
    InvAt(s, j);
    InList(s, j);
    var job, left := s.jobs[j], Drop(s, j);
    DropOnly(s, j);
    JobAt(left, j);
    var after := left.jobs[j].(queued := !s.dying);
    if s.dying {
      PutOnly(left, j, after);
      OnlyTwice(s, left, Put(left, j, after), j);
    } else if !job.queued {
      var aborted := left.jobs[j].(failure := Because(Aborted), queued := true);
      PutOnly(left, j, aborted);
      var put := Put(left, j, aborted);
      OnlyTwice(s, left, put, j);
      StageOnly(put, j);
      OnlyTwice(s, put, Stage(put, j), j);
    }
    JobAt(Release(s, j), j);
  }

  lemma InList(s: State, j: Transfer)
    requires j in s.jobs
    ensures PlaceOf(s, j).listed == (j in s.list) && PlaceOf(s, j).driven == (j in s.multi)
  {
  }

  lemma {:induction false} ReleaseAllKeeps(s: State)
    requires Inv(s)
    ensures ListKnown(s)
    ensures var t := ReleaseAll(s); Inv(t) && t.list == [] && t.dying == s.dying && t.manager == s.manager
    decreases |s.list|
  {
    hide Release, Inv;
    KnownInList(s);
    if s.list != [] {
      ReleaseKeeps(s);
      ReleaseAllKeeps(Release(s, s.list[0]));
    }
  }
}
