/** The manager's list of transfers, linked through them, and what its operations do to it,
    to curl's multi handle and to the loop's queue. */
module HttpManager {
  import opened HttpRuns
  import opened HttpLaws

  lemma {:induction false} WithoutAt(s: seq<Transfer>, k: nat)
    requires k < |s| && Distinct(s)
    ensures Without(s, s[k]) == s[..k] + s[k + 1..]
  {
    if k > 0 {
      WithoutAt(s[1..], k - 1);
      assert s[1..][k - 1] == s[k];
      assert s[..k] == [s[0]] + s[1..][..k - 1] && s[1..][k..] == s[k + 1..];
    }
  }

  // ---------- the links, as maps ----------

  type Links = map<Transfer, Transfer?>

  function Before(list: seq<Transfer>, i: nat): Transfer?
    requires i < |list|
  {
    if i == 0 then null else list[i - 1]
  }

  function Behind(list: seq<Transfer>, i: nat): Transfer?
    requires i < |list|
  {
    if i + 1 == |list| then null else list[i + 1]
  }

  ghost predicate LinkedAt(prev: Links, next: Links, list: seq<Transfer>, i: nat)
    requires i < |list|
  {
    var j := list[i];
    j in prev && j in next && prev[j] == Before(list, i) && next[j] == Behind(list, i)
  }

  /** The pointers spell the list; a transfer out of it points nowhere. */
  ghost predicate Spell(head: Transfer?, prev: Links, next: Links, list: seq<Transfer>) {
    && prev.Keys == next.Keys && Distinct(list)
    && head == (if list == [] then null else list[0])
    && (forall i :: 0 <= i < |list| ==> LinkedAt(prev, next, list, i))
    && (forall j :: j in prev && j !in list ==> prev[j] == null && next[j] == null)
  }

  ghost function Set(links: Links, j: Transfer?, to: Transfer?): Links {
    if j == null then links else links[j := to]
  }

  /** One way's links once `j` is out: its neighbour's past it, its own cleared. */
  ghost function Bypass(links: Links, neighbour: Transfer?, past: Transfer?, j: Transfer): Links {
    Set(links, neighbour, past)[j := null]
  }

  lemma Neighbours(head: Transfer?, prev: Links, next: Links, list: seq<Transfer>, k: nat)
    requires Spell(head, prev, next, list) && k < |list|
    ensures var j := list[k];
            && j in prev && j in next
            && (prev[j] != null ==> prev[j] in prev && prev[j] in list)
            && (next[j] != null ==> next[j] in next && next[j] in list)
            && (if prev[j] == null then next[j] else head) ==
               (var left := list[..k] + list[k + 1..]; if left == [] then null else left[0])
  {
    hide LinkedAt;
    At(head, prev, next, list, k);
    if k > 0 { At(head, prev, next, list, k - 1); }
    if k + 1 < |list| { At(head, prev, next, list, k + 1); }
  }

  lemma UnlinkSpells(head: Transfer?, prev: Links, next: Links, list: seq<Transfer>, k: nat)
    requires Spell(head, prev, next, list) && k < |list|
    ensures var j := list[k];
            && j in prev && j in next
            && (prev[j] != null ==> prev[j] in prev) && (next[j] != null ==> next[j] in next)
            && Spell(if prev[j] == null then next[j] else head,
                     Bypass(prev, next[j], prev[j], j), Bypass(next, prev[j], next[j], j), Without(list, j))
  {
    hide LinkedAt, Bypass, Without;
    var j := list[k];
    WithoutAt(list, k);
    WithoutIs(list, j);
    Neighbours(head, prev, next, list, k);
    var left := list[..k] + list[k + 1..];
    var prev2, next2 := Bypass(prev, next[j], prev[j], j), Bypass(next, prev[j], next[j], j);
    forall i: nat | i < |left| ensures LinkedAt(prev2, next2, left, i) {
      UnlinkedAt(head, prev, next, list, k, i);
    }
    BypassOthers(prev, next[j], prev[j], j);
    BypassOthers(next, prev[j], next[j], j);
  }

  lemma BypassOthers(links: Links, neighbour: Transfer?, past: Transfer?, j: Transfer)
    requires j in links && (neighbour != null ==> neighbour in links)
    ensures var after := Bypass(links, neighbour, past, j);
            && after.Keys == links.Keys && after[j] == null
            && forall i :: i in links && i != j && i != neighbour ==> after[i] == links[i]
  {
  }

  lemma At(head: Transfer?, prev: Links, next: Links, list: seq<Transfer>, i: nat)
    requires Spell(head, prev, next, list) && i < |list|
    ensures var j := list[i]; j in prev && j in next && prev[j] == Before(list, i) && next[j] == Behind(list, i)
  {
    assert LinkedAt(prev, next, list, i);
  }

  lemma UnlinkedAt(head: Transfer?, prev: Links, next: Links, list: seq<Transfer>, k: nat, i: nat)
    requires Spell(head, prev, next, list) && k < |list| && i + 1 < |list|
    ensures var j, left := list[k], list[..k] + list[k + 1..];
            && j in prev && j in next
            && LinkedAt(Bypass(prev, next[j], prev[j], j), Bypass(next, prev[j], next[j], j), left, i)
  {
    At(head, prev, next, list, k);
    At(head, prev, next, list, if i < k then i else i + 1);
  }

  class Manager {
    /** The first of its transfers. */
    var transfers: Transfer?
    /** The transfers curl's multi handle holds. */
    var multi: set<Transfer>
    /** The loop's queues: completions to ready, to complete next turn, and to complete now. */
    var staged: seq<Transfer>
    var ready: seq<Transfer>
    var completing: seq<Transfer>
    var dying: bool
    var alive: bool
    ghost var listed: seq<Transfer>
    ghost var known: set<Transfer>
    ghost var ended: seq<Transfer>

    ghost function Jobs(): map<Transfer, Job>
      reads this`known, known`owned, known`queued, known`failure, known`cancelled, known`fate
    {
      map j | j in known :: j.Value()
    }

    ghost function View(): State
      reads this`listed, this`multi, this`staged, this`ready, this`completing, this`alive, this`dying, this`ended
      reads this`known, known`owned, known`queued, known`failure, known`cancelled, known`fate
    {
      State(Jobs(), listed, multi, staged, ready, completing, alive, dying, ended)
    }

    ghost function Prev(): Links
      reads this`known, known`prev
    {
      map j | j in known :: j.prev
    }

    ghost function Next(): Links
      reads this`known, known`next
    {
      map j | j in known :: j.next
    }

    ghost predicate Linked()
      reads this`transfers, this`listed, this`known, known`prev, known`next
    {
      Spell(transfers, Prev(), Next(), listed)
    }

    ghost predicate Valid()
      reads this, known
    {
      Linked() && Inv(View())
    }

    constructor ()
      ensures Valid() && View() == Init()
    {
      transfers, multi, staged, ready, completing := null, {}, [], [], [];
      dying, alive, listed, known, ended := false, false, [], {}, [];
      new;
      InitKeeps();
      assert View() == Init();
    }

    lemma LinksAt(j: Transfer)
      requires j in known
      ensures j in Prev() && Prev()[j] == j.prev && j in Next() && Next()[j] == j.next
      ensures forall k :: k in Prev() || k in Next() ==> k in known
    {
    }

    /** Takes a transfer out of the list, its neighbours linked to one another. */
    method Unlink(job: Transfer)
      requires Linked() && job in listed && job in known
      modifies this`transfers, this`listed, known`prev, known`next
      ensures Linked() && View() == HttpRuns.Unlink(old(View()), job)
    {
      hide Spell, Without, Bypass, Prev, Next, Jobs;
      ghost var k: nat :| k < |listed| && listed[k] == job;
      LinksAt(job);
      UnlinkSpells(transfers, Prev(), Next(), listed, k);
      Relink(job);
      listed := Without(listed, job);
    }

    method Relink(job: Transfer)
      requires job in known && (job.prev != null ==> job.prev in known) && (job.next != null ==> job.next in known)
      modifies this`transfers, known`prev, known`next
      ensures transfers == if old(job.prev) == null then old(job.next) else old(transfers)
      ensures Prev() == Bypass(old(Prev()), old(job.next), old(job.prev), job)
      ensures Next() == Bypass(old(Next()), old(job.prev), old(job.next), job)
    {
      hide Prev, Next;
      var before, behind := job.prev, job.next;
      if before != null {
        SetNext(before, behind);
      } else {
        transfers := behind;
      }
      if behind != null {
        SetPrev(behind, before);
      }
      SetPrev(job, null);
      SetNext(job, null);
    }

    method SetNext(job: Transfer, to: Transfer?)
      requires job in known
      modifies job`next
      ensures job.next == to && Next() == old(Next())[job := to]
    {
      job.next := to;
    }

    method SetPrev(job: Transfer, to: Transfer?)
      requires job in known
      modifies job`prev
      ensures job.prev == to && Prev() == old(Prev())[job := to]
    {
      job.prev := to;
    }

    twostate lemma Updated(job: Transfer)
      requires known == old(known) && job in known
      requires forall k :: k in known && k != job ==> k.Value() == old(k.Value())
      ensures job in Jobs() && job in old(Jobs()) && Jobs() == old(Jobs())[job := job.Value()]
      ensures old(Jobs())[job] == old(job.Value())
    {
    }

    /** Lets go of a transfer. */
    method Drop(job: Transfer)
      requires Linked() && job in listed && job in known
      modifies this`transfers, this`listed, this`multi, known`prev, known`next, job`owned
      ensures Linked() && job in View().jobs && job in old(View()).jobs && View() == HttpRuns.Drop(old(View()), job)
      ensures !job.owned
    {
      hide Spell, Without, Prev, Next, Jobs;
      if !job.queued {
        multi := multi - {job};
      }
      Unlink(job);
      job.owned := false;
      Updated(job);
    }

    method AwaitResume(job: Transfer)
      requires Linked() && job in known && (job.owned ==> job in listed)
      modifies this`transfers, this`listed, this`multi, known`prev, known`next, job`owned, job`fate
      ensures Linked() && job in View().jobs && job in old(View()).jobs && View() == HttpRuns.Resume(old(View()), job)
    {
      hide Spell, Without, Prev, Next, Jobs, HttpRuns.Drop;
      Updated(job);
      if job.owned {
        Drop(job);
      }
      label left:
      job.fate := if job.failure.Because? then Failed(job.failure.failure) else Responded;
      Updated@left(job);
    }

    /** The task that awaits the transfer resumes, or ends if it was cancelled. */
    method Complete(job: Transfer)
      requires Linked() && job in known && (job.owned ==> job in listed)
      modifies this`transfers, this`listed, this`multi, this`ended, known`prev, known`next, job`owned, job`fate
      ensures Linked() && job in View().jobs && job in old(View()).jobs && View() == HttpRuns.Complete(old(View()), job)
    {
      hide Spell, Without, Prev, Next, Jobs, HttpRuns.Resume;
      Updated(job);
      ended := ended + [job];
      if job.cancelled {
        job.fate := Cancelled;
        Updated(job);
      } else {
        AwaitResume(job);
      }
    }

    /** A cancel reaches the transfer: it ends now, unless its completion is queued. */
    method Cancel(job: Transfer)
      requires Valid() && job in known
      modifies this`transfers, this`listed, this`multi, this`ended, known`prev, known`next
      modifies job`owned, job`fate, job`cancelled
      ensures Valid() && job in old(View()).jobs && View() == HttpRuns.Cancel(old(View()), job)
    {
      hide Spell, Without, Prev, Next, Jobs, HttpRuns.Complete, HttpRuns.Drop, Inv;
      OwnedIsListed(job);
      CancelKeeps(View(), job);
      Updated(job);
      if !job.fate.Waiting? || job.cancelled {
        return;
      }
      job.cancelled := true;
      Updated(job);
      if job.owned {
        Drop(job);
      }
      if !job.queued {
        Complete(job);
      }
    }

    /** Hands a new transfer to curl, and puts it first in the list. */
    method Add(job: Transfer)
      requires Linked() && job !in known && job.prev == null && job.next == null
      requires job.Value() == Job(true, false, NoProblem, false, Waiting)
      modifies this`transfers, this`listed, this`multi, this`known, known`prev, job`next
      ensures Linked() && known == old(known) + {job} && View() == HttpRuns.Add(old(View()), job)
    {
      hide Spell, Prev, Next, Jobs;
      NotLinked(job);
      FirstSpells(transfers, Prev(), Next(), listed, job);
      if transfers != null { HeadKnown(transfers); }
      Track(job);
      multi := multi + {job};
      Link(job);
    }

    method Link(job: Transfer)
      requires job in known && (transfers != null ==> transfers in known)
      requires Spell(job, Set(Prev(), transfers, job), Next()[job := transfers], [job] + listed)
      modifies this`transfers, this`listed, (if transfers == null then {} else {transfers})`prev, job`next
      ensures Linked() && View() == old(View()).(list := [job] + old(listed))
    {
      hide Spell, Prev, Next, Jobs, Set;
      PutFirst(job);
      listed := [job] + listed;
    }

    ghost method Track(job: Transfer)
      requires job.prev == null && job.next == null
      modifies this`known
      ensures known == old(known) + {job} && Jobs() == old(Jobs())[job := job.Value()]
      ensures Prev() == old(Prev())[job := null] && Next() == old(Next())[job := null]
    {
      known := known + {job};
      Grown(job);
    }

    method PutFirst(job: Transfer)
      requires job in known && (transfers != null ==> transfers in known)
      modifies this`transfers, (if transfers == null then {} else {transfers})`prev, job`next
      ensures transfers == job
      ensures Prev() == Set(old(Prev()), old(transfers), job) && Next() == old(Next())[job := old(transfers)]
    {
      hide Prev, Next;
      SetNext(job, transfers);
      if transfers != null {
        SetPrev(transfers, job);
      }
      transfers := job;
    }

    lemma OwnedIsListed(job: Transfer)
      requires Valid() && job in known
      ensures job.owned <==> job in listed
      ensures job in View().jobs && View().jobs[job] == job.Value()
    {
      assert Fine(PlaceOf(View(), job), dying);
    }

    /** start() and attach(): the set-up may have failed, and the task may have been cancelled. */
    method Start(job: Transfer, problem: Problem, cancelled: bool)
      requires Valid() && alive && !dying
      requires job !in known && job.prev == null && job.next == null
      requires job.Value() == Job(true, false, NoProblem, false, Waiting)
      modifies this, known, job
      ensures Valid() && known == old(known) + {job}
      ensures View() == Step(old(View()), Started(job, problem, cancelled))
    {
      hide Spell, Inv, Prev, Next, Jobs, HttpRuns.Add, HttpRuns.Cancel, HttpRuns.End, HttpRuns.Put;
      JobsAre();
      StepKeeps(View(), Started(job, problem, cancelled));
      if problem.Because? {
        Refuse(job, problem);
      } else {
        AddKeeps(View(), job);
        Add(job);
        if cancelled {
          Cancel(job);
        }
      }
    }

    lemma JobsAre()
      ensures Jobs().Keys == known
    {
    }

    method Refuse(job: Transfer, problem: Problem)
      requires Linked() && job !in known && job.prev == null && job.next == null && problem.Because?
      requires !job.queued && !job.cancelled
      modifies this`known, this`ended, job`failure, job`owned, job`fate
      ensures Linked() && known == old(known) + {job}
      ensures View() ==
              var refused := Job(false, false, problem, false, Failed(problem.failure));
              HttpRuns.End(HttpRuns.Put(old(View()), job, refused), job)
    {
      hide Prev, Next, Jobs, Spell;
      NotLinked(job);
      job.failure, job.owned, job.fate := problem, false, Failed(problem.failure);
      known := known + {job};
      Grown(job);
      ended := ended + [job];
      StraySpells(transfers, old(Prev()), old(Next()), listed, job);
    }

    /** Handles curl's messages in turn, queueing a completion for each. */
    method Drive(messages: seq<(Transfer, Problem)>)
      requires Valid() && alive && !dying && ReportsOf(messages, multi)
      modifies this`multi, this`staged, known`queued, known`failure
      ensures Valid() && Runs(old(View()), Reports(messages))
      ensures View() == After(old(View()), Reports(messages))
    {
      hide Spell, Inv, Prev, Next, Jobs, HttpRuns.Finish;
      ghost var first := View();
      for i := 0 to |messages|
        invariant Valid() && alive && !dying && ReportsOf(messages[i..], multi)
        invariant Runs(first, Reports(messages[..i])) && View() == After(first, Reports(messages[..i]))
      {
        var (job, problem) := messages[i];
        ReportsTail(messages[i..], multi);
        assert messages[i..][1..] == messages[i + 1..];
        RunMore(first, Reports(messages[..i]), Finished(job, problem));
        ReportsMore(messages, i);
        FinishOne(job, problem);
      }
      assert messages[..|messages|] == messages;
    }

    method FinishOne(job: Transfer, problem: Problem)
      requires Valid() && alive && !dying && job in multi
      modifies this`multi, this`staged, known`queued, known`failure
      ensures old(Enabled(View(), Finished(job, problem)))
      ensures Valid() && View() == Step(old(View()), Finished(job, problem)) && multi == old(multi) - {job}
    {
      hide Spell, Inv, Prev, Next, Jobs;
      DrivenIsKnown(job);
      StepKeeps(View(), Finished(job, problem));
      Updated(job);
      if problem.Because? {
        job.failure := problem;
      }
      multi := multi - {job};
      job.queued := true;
      staged := staged + [job];
      Updated(job);
    }

    lemma DrivenIsKnown(job: Transfer)
      requires Valid() && job in multi
      ensures job in known && job in Jobs()
    {
      assert job in View().jobs;
    }

    /** The destructor: no transfer is left tracked. In a live loop those curl drove are to
        end as aborted; in a dying one, each is left to its cancel. */
    method Destroy()
      requires Valid() && alive
      modifies this, known`prev, known`next, known`owned, known`queued, known`failure
      ensures ListKnown(old(View())) && Valid() && !alive && transfers == null
      ensures View() == HttpRuns.Destroy(old(View()))
    {
      hide Spell, Inv, Prev, Next, Jobs, HttpRuns.Release;
      ghost var first := View();
      KnownInList(first);
      while transfers != null
        invariant Valid() && alive && known == old(known) && ListKnown(View())
        invariant ReleaseAll(View()) == ReleaseAll(first)
        decreases |listed|
      {
        ReleaseFirst();
      }
      HeadIs();
      alive := false;
      ManagerKeeps(ReleaseAll(first), false);
    }

    lemma HeadIs()
      requires Linked()
      ensures transfers == if listed == [] then null else listed[0]
    {
    }

    method ReleaseFirst()
      requires Valid() && transfers != null
      modifies this`transfers, this`listed, this`multi, this`staged
      modifies known`prev, known`next, known`owned, known`queued, known`failure
      ensures Valid() && old(listed) != [] && ListKnown(old(View())) && ListKnown(View())
      ensures View() == HttpRuns.Release(old(View()), old(listed)[0]) && listed == old(listed)[1..]
    {
      hide Spell, Inv, Prev, Next, Jobs, HttpRuns.Drop, HttpRuns.Put, HttpRuns.Stage;
      HeadIs();
      JobsAre();
      KnownInList(View());
      ReleaseKeeps(View());
      KnownInList(HttpRuns.Release(View(), listed[0]));
      var job := transfers;
      OwnedIsListed(job);
      var driven := !job.queued;
      Drop(job);
      JobsAre();
      Hand(job, driven);
    }

    /** What becomes of a transfer the manager has let go of. */
    method Hand(job: Transfer, driven: bool)
      requires job in known && job in View().jobs
      modifies this`staged, job`queued, job`failure
      ensures var s, was := old(View()), old(View().jobs[job]);
              View() ==
              if dying then HttpRuns.Put(s, job, was.(queued := false))
              else if driven then
                HttpRuns.Stage(HttpRuns.Put(s, job, was.(failure := Because(Aborted), queued := true)), job)
              else s
    {
      hide Jobs;
      if dying {
        job.queued := false;
      } else if driven {
        job.failure := Because(Aborted);
        job.queued := true;
        staged := staged + [job];
      }
      Updated(job);
    }

    /** A turn of the loop begins. */
    method Turn()
      requires Valid() && completing == [] && !dying
      modifies this`completing, this`ready, this`staged
      ensures Valid() && View() == Step(old(View()), Turned)
    {
      hide Inv, Spell, Jobs;
      StepKeeps(View(), Turned);
      completing, ready, staged := ready, staged, [];
    }

    /** The turn's next completion: always of a transfer that a task awaits. */
    method CompleteNext()
      requires Valid() && completing != [] && !dying
      modifies this, known`prev, known`next, known`owned, known`fate
      ensures old(completing[0].fate.Waiting? && completing[0].queued)
      ensures completing == old(completing)[1..] && old(completing)[0] in old(View()).jobs
      ensures Valid() && View() == HttpRuns.CompleteNext(old(View()))
    {
      hide Inv, Spell, Prev, Next, Jobs, HttpRuns.Complete;
      CompleteNextKeeps(View());
      var job := completing[0];
      JobsAre();
      OwnedIsListed(job);
      completing := completing[1..];
      Complete(job);
    }

    /** How many transfers curl still drives. */
    method PendingRequests() returns (driven: nat)
      requires Valid()
      ensures driven == |multi|
    {
      hide Inv, Spell, Jobs, View, Prev, Next, DrivenIn;
      driven := 0;
      ghost var i: nat := 0;
      HeadIs();
      NoneDriven();
      var job := transfers;
      while job != null
        invariant i <= |listed| && job == (if i == |listed| then null else listed[i])
        invariant driven == |DrivenIn(listed[..i])|
        decreases |listed| - i
      {
        NextIs(i);
        OneMore(i);
        driven := driven + (if job.queued then 0 else 1);
        job := job.next;
        i := i + 1;
      }
      MultiIs();
      assert listed[..|listed|] == listed;
    }

    ghost function DrivenIn(list: seq<Transfer>): set<Transfer>
      reads list
    {
      set j | j in list && !j.queued
    }

    lemma NoneDriven()
      ensures |DrivenIn([])| == 0 && |DrivenIn(listed[..0])| == 0
    {
    }

    lemma OneMore(i: nat)
      requires i < |listed| && listed[i] !in listed[..i]
      ensures |DrivenIn(listed[..i + 1])| == |DrivenIn(listed[..i])| + if listed[i].queued then 0 else 1
    {
      assert listed[..i + 1] == listed[..i] + [listed[i]];
      assert DrivenIn(listed[..i + 1]) == DrivenIn(listed[..i]) + if listed[i].queued then {} else {listed[i]};
    }

    lemma NextIs(i: nat)
      requires Valid() && i < |listed|
      ensures listed[i].next == if i + 1 == |listed| then null else listed[i + 1]
      ensures listed[i] !in listed[..i]
    {
      At(transfers, Prev(), Next(), listed, i);
    }

    lemma MultiIs()
      requires Valid()
      ensures multi == DrivenIn(listed)
    {
      var s := View();
      KnownInList(s);
      forall j | j in s.jobs ensures j in multi <==> j in DrivenIn(listed) {
        assert Fine(PlaceOf(s, j), dying);
      }
    }

    lemma NotLinked(j: Transfer)
      requires j !in known
      ensures j !in Prev() && j !in Next()
    {
    }

    lemma HeadKnown(j: Transfer)
      requires j in Prev()
      ensures j in known
    {
    }

    twostate lemma Grown(job: Transfer)
      requires known == old(known) + {job} && job.prev == null
      requires forall k :: k in old(known) ==>
                 k.Value() == old(k.Value()) && k.prev == old(k.prev) && k.next == old(k.next)
      ensures Jobs() == old(Jobs())[job := job.Value()]
      ensures Prev() == old(Prev())[job := null] && Next() == old(Next())[job := job.next]
    {
    }
  }

  lemma FirstSpells(head: Transfer?, prev: Links, next: Links, list: seq<Transfer>, j: Transfer)
    requires Spell(head, prev, next, list) && j !in prev
    ensures Spell(j, Set(prev[j := null], head, j), next[j := null][j := head], [j] + list)
    ensures head != null ==> head in prev && head != j
  {
    hide Spell;
    AddSpells(head, prev, next, list, j);
    assert Set(prev[j := null], head, j) == Set(prev, head, j)[j := null];
    assert next[j := null][j := head] == next[j := head];
  }

  lemma AddSpells(head: Transfer?, prev: Links, next: Links, list: seq<Transfer>, j: Transfer)
    requires Spell(head, prev, next, list) && j !in prev
    ensures Spell(j, Set(prev, head, j)[j := null], next[j := head], [j] + list)
    ensures head != null ==> head in prev && head != j
  {
    hide LinkedAt;
    SpelledKnown(head, prev, next, list);
    var after := [j] + list;
    var prev2, next2 := Set(prev, head, j)[j := null], next[j := head];
    forall i: nat | i < |after| ensures LinkedAt(prev2, next2, after, i) {
      AddedAt(head, prev, next, list, j, i);
    }
    assert j !in list;
    DistinctMore(j, list);
  }

  lemma AddedAt(head: Transfer?, prev: Links, next: Links, list: seq<Transfer>, j: Transfer, i: nat)
    requires Spell(head, prev, next, list) && j !in prev && i <= |list|
    ensures LinkedAt(Set(prev, head, j)[j := null], next[j := head], [j] + list, i)
  {
    if i > 0 { At(head, prev, next, list, i - 1); }
  }

  lemma StraySpells(head: Transfer?, prev: Links, next: Links, list: seq<Transfer>, j: Transfer)
    requires Spell(head, prev, next, list) && j !in prev
    ensures Spell(head, prev[j := null], next[j := null], list)
  {
    SpelledKnown(head, prev, next, list);
    var p, n := prev[j := null], next[j := null];
    forall i: nat | i < |list| ensures LinkedAt(p, n, list, i) {
      At(head, prev, next, list, i);
      assert list[i] in list;
    }
  }

  lemma SpelledKnown(head: Transfer?, prev: Links, next: Links, list: seq<Transfer>)
    requires Spell(head, prev, next, list)
    ensures forall j :: j in list ==> j in prev
  {
    forall j | j in list ensures j in prev {
      var i: nat :| i < |list| && list[i] == j;
      At(head, prev, next, list, i);
    }
  }

  lemma AddKeeps(s: State, j: Transfer)
    requires Inv(s) && j !in s.jobs && s.manager && !s.dying
    ensures Inv(HttpRuns.Add(s, j))
  {
    StartKeeps(s, j, NoProblem, false);
  }

  /** The messages curl has: of transfers it drives, once each. */
  predicate ReportsOf(messages: seq<(Transfer, Problem)>, multi: set<Transfer>) {
    && (forall i :: 0 <= i < |messages| ==> messages[i].0 in multi)
    && (forall i, k :: 0 <= i < k < |messages| ==> messages[i].0 != messages[k].0)
  }

  function Reports(messages: seq<(Transfer, Problem)>): seq<Event> {
    seq(|messages|, i requires 0 <= i < |messages| => Finished(messages[i].0, messages[i].1))
  }

  lemma ReportsTail(messages: seq<(Transfer, Problem)>, multi: set<Transfer>)
    requires ReportsOf(messages, multi) && messages != []
    ensures messages[0].0 in multi && ReportsOf(messages[1..], multi - {messages[0].0})
  {
  }

  lemma ReportsMore(messages: seq<(Transfer, Problem)>, i: nat)
    requires i < |messages|
    ensures Reports(messages[..i + 1]) == Reports(messages[..i]) + [Finished(messages[i].0, messages[i].1)]
  {
  }

  lemma {:induction false} RunMore(s: State, events: seq<Event>, e: Event)
    requires Runs(s, events)
    ensures Enabled(After(s, events), e) ==>
              Runs(s, events + [e]) && After(s, events + [e]) == Step(After(s, events), e)
    decreases |events|
  {
    hide Enabled, Step;
    var all := events + [e];
    if events == [] {
      assert all[1..] == [];
    } else {
      assert all[1..] == events[1..] + [e];
      RunMore(Step(s, events[0]), events[1..], e);
    }
  }
}
