/** The loop that removes a tree with a list and a stack, proved to empty it in order. */
module RemoveTree {
  import opened RemoveSpec
  import opened RemoveFrames

  // ---------- one node goes ----------

  lemma {:induction false} FindOnly(slots: seq<Slot>, i: nat)
    requires i < |slots| && DistinctNames(slots)
    ensures Find(slots, slots[i].name) == i
  {
  }

  lemma TopSlot(frames: seq<Frame>, slot: Slot, p: Place) returns (i: nat)
    requires frames != []
    ensures var slots := TopSlots(frames, [slot], p);
            && i < |slots| && slots[i] == slot && slots[..i] + slots[i + 1..] == TopSlots(frames, [], p)
  {
    var items := Slots(Top(frames).items);
    var slots := TopSlots(frames, [slot], p);
    if |frames| == 1 {
      i := |p.before| + |items|;
      assert slots[..i] == p.before + items && slots[i + 1..] == p.after;
      assert p.before + (items + []) + p.after == p.before + items + p.after;
    } else {
      i := |items|;
      assert slots[..i] == items && slots[i + 1..] == [];
    }
  }

  lemma FewerNames(slots: seq<Slot>, i: nat)
    requires i < |slots| && DistinctNames(slots)
    ensures DistinctNames(slots[..i] + slots[i + 1..])
  {
  }

  /** One name of `id` has gone from the directory `dir`, and nothing else has changed. */
  ghost predicate OnlyGone(fs: Files, gs: Files, dir: Id, id: Id) {
    && id in fs && dir in fs && dir in gs && dir != id && fs[dir].Folder? && gs[dir].Folder?
    && gs.Keys == Dropped(fs, id).Keys
    && forall k :: k in gs && k != dir ==> gs[k] == Dropped(fs, id)[k]
  }

  /** The system finds, in the innermost directory, the entry that is there besides what is
      left. */
  lemma StatTop(fs: Files, frames: seq<Frame>, slot: Slot, p: Place)
    requires Stands(fs, frames, [slot], p) && slot.id in fs
    ensures StatAt(fs, Top(frames).id, slot.name) ==
            if fs[slot.id].Folder? then IsFolder(slot.id) else IsPlain(slot.id)
  {
    hide HoldsAll, DistinctNames, TopSlots;
    var i := TopSlot(frames, slot, p);
    FindOnly(TopSlots(frames, [slot], p), i);
  }

  /** Only what is no directory comes twice. */
  ghost predicate Once(fs: Files, ids: seq<Id>) {
    forall i, k :: 0 <= i < k < |ids| && ids[i] == ids[k] ==> ids[i] in fs && fs[ids[i]].Plain?
  }

  lemma OnceSplit(fs: Files, a: seq<Id>, b: seq<Id>)
    requires Once(fs, a + b)
    ensures Once(fs, a) && Once(fs, b)
    ensures forall id :: id in a && id in b ==> id in fs && fs[id].Plain?
  {
    var all := a + b;
    assert forall i :: 0 <= i < |a| ==> a[i] == all[i];
    assert forall j :: 0 <= j < |b| ==> b[j] == all[|a| + j];
    forall id | id in a && id in b ensures id in fs && fs[id].Plain? {
      var i :| 0 <= i < |a| && a[i] == id;
      var j :| 0 <= j < |b| && b[j] == id;
      assert all[i] == all[|a| + j];
    }
  }

  /** The entry `slot` may go: it is no directory that holds anything, and if its file is
      pending under another name, this one is not its last. */
  ghost predicate MayGo(fs: Files, frames: seq<Frame>, slot: Slot, p: Place)
    requires frames != []
  {
    && slot.id in fs && (fs[slot.id].Folder? ==> fs[slot.id].slots == [])
    && (fs[slot.id].Plain? && slot.id in Pending(frames) ==> fs[slot.id].links > 1)
    && p.base !in [slot.id] + Pending(frames)
    && Once(fs, [slot.id] + Pending(frames))
  }

  lemma UnlinkTop(fs: Files, frames: seq<Frame>, slot: Slot, p: Place) returns (gs: Files)
    requires Stands(fs, frames, [slot], p) && MayGo(fs, frames, slot, p)
    ensures UnlinkAt(fs, Top(frames).id, slot.name, fs[slot.id].Folder?) == Gone(gs, slot.id)
    ensures Stands(gs, frames, [], p) && OnlyGone(fs, gs, Top(frames).id, slot.id)
  {
    hide HoldsAll, DistinctNames, TopSlots, Pending, Once, Find;
    var top, slots := Top(frames), TopSlots(frames, [slot], p);
    var i := TopSlot(frames, slot, p);
    FindOnly(slots, i);
    FewerNames(slots, i);
    Apart(fs, frames, slot.id, p);
    gs := Dropped(fs, slot.id)[top.id := fs[top.id].(slots := TopSlots(frames, [], p))];
    StandsWithout(fs, gs, frames, slot, p);
  }

  lemma StandsWithout(fs: Files, gs: Files, frames: seq<Frame>, slot: Slot, p: Place)
    requires Stands(fs, frames, [slot], p) && DistinctNames(TopSlots(frames, [], p)) && MayGo(fs, frames, slot, p)
    requires Once(fs, [slot.id] + Pending(frames)) && p.base !in [slot.id] + Pending(frames) && slot.id in fs
    requires Top(frames).id in gs && OnlyGone(fs, gs, Top(frames).id, slot.id)
    requires gs[Top(frames).id] == fs[Top(frames).id].(slots := TopSlots(frames, [], p))
    ensures Stands(gs, frames, [], p)
  {
    hide HoldsAll, DistinctNames, TopSlots, OrderAll, Once, Agree, OnlyGone, MayGo, Pending;
    var top := Top(frames);
    Apart(fs, frames, slot.id, p);
    AgreeWithout(fs, gs, frames, slot, p, OrderAll(top.items));
    HoldsAllStays(fs, gs, top.items, top.id);
    if |frames| > 1 {
      AgreeWithout(fs, gs, frames, slot, p, Pending(Lower(frames)));
      AgreeWithout(fs, gs, frames, slot, p, [p.base]);
      StandsStays(fs, gs, Lower(frames), [Slot(top.name, top.told, top.id)], p);
    }
  }

  lemma AgreeWithout(fs: Files, gs: Files, frames: seq<Frame>, slot: Slot, p: Place, ids: seq<Id>)
    requires frames != [] && MayGo(fs, frames, slot, p) && OnlyGone(fs, gs, Top(frames).id, slot.id)
    requires fs[slot.id].Folder? ==> slot.id !in ids
    requires Top(frames).id !in ids && forall k :: k in ids ==> k in Pending(frames) || k == p.base
    ensures Agree(fs, gs, ids)
  {
    hide Pending, Once;
    forall id | id in ids && id in fs ensures id in gs && (gs[id] == fs[id] || (gs[id].Plain? && fs[id].Plain?)) {
      assert id != Top(frames).id;
      assert p.base != slot.id;
    }
  }

  /** What is still to go is not the directory it goes from, nor what goes now if that is a
      directory. */
  lemma Apart(fs: Files, frames: seq<Frame>, id: Id, p: Place)
    requires frames != [] && Once(fs, [id] + Pending(frames)) && p.base !in [id] + Pending(frames) && id in fs
    requires Top(frames).id in fs && fs[Top(frames).id].Folder?
    requires |frames| == 1 ==> Top(frames).id == p.base
    ensures id != p.base && id != Top(frames).id && (fs[id].Folder? ==> id !in Pending(frames))
    ensures Top(frames).id !in OrderAll(Top(frames).items)
    ensures |frames| > 1 ==> Top(frames).id != p.base && Top(frames).id !in Pending(Lower(frames))
    ensures forall k :: k in OrderAll(Top(frames).items) ==> k in Pending(frames)
    ensures |frames| > 1 ==> forall k :: k in Pending(Lower(frames)) ==> k in Pending(frames)
  {
    hide OrderAll, Once, Pending;
    PendingIs(frames);
    OnceSplit(fs, [id], Pending(frames));
    if |frames| > 1 {
      var items, top, lower := OrderAll(Top(frames).items), Top(frames).id, Pending(Lower(frames));
      OnceSplit(fs, items, [top] + lower);
      OnceSplit(fs, [top], lower);
      assert top in [top] + lower;
    }
  }

  lemma PendingIs(frames: seq<Frame>)
    requires frames != []
    ensures |frames| == 1 ==> Pending(frames) == OrderAll(Top(frames).items)
    ensures |frames| > 1 ==>
              Pending(frames) == OrderAll(Top(frames).items) + ([Top(frames).id] + Pending(Lower(frames)))
  {
    hide OrderAll;
  }

  // ---------- the loop ----------

  /** An entry of the stack: the name to unlink later, the inode to check on the way back,
      and how many listed entries belong to levels further out. */
  datatype Level = Level(name: string, inode: Id, entries: nat)

  /** The removal's variables: the directory `dir` that entries go from, and what the entries
      gone so far named. */
  datatype State = State(
    fs: Files,
    listed: seq<Listed>,
    levels: seq<Level>,
    dir: Dir,
    removed: nat,
    gone: seq<Id>)

  datatype Step = Done(removed: nat) | Failed | On(next: State)

  function Unlink(s: State, name: string, directory: bool, look: Look): Step {
    var at := Target(s.dir, name, look);
    match UnlinkAt(s.fs, at.dir, at.name, directory)
    case Gone(fs, id) => On(s.(fs := fs, removed := s.removed + 1, gone := s.gone + [id]))
    case NoEntry => On(s)
    case Refused => Failed
  }

  function Stat(s: State, name: string, look: Look): Status {
    var at := Target(s.dir, name, look);
    StatAt(s.fs, at.dir, at.name)
  }

  /** A directory, or what was one: gone into if it lists anything, and otherwise removed. */
  function Descend(s: State, name: string, look: Look): Step {
    match Stat(s, name, look)
    case Missing => On(s)
    case IsPlain(_) => Unlink(s, name, false, look)
    case IsFolder(id) =>
      var inside := ListFolder(s.fs, id);
      if inside == [] then Unlink(s, name, true, look)
      else On(s.(listed := s.listed + inside, levels := s.levels + [Level(name, id, |s.listed|)], dir := Opened(id)))
  }

  /** Steps out of the top directory and unlinks it. */
  function Climb(s: State, look: Look): Step
    requires s.levels != []
  {
    var n := |s.levels| - 1;
    var level, levels := s.levels[n], s.levels[..n];
    if levels == [] then Unlink(s.(levels := levels, dir := Current), level.name, true, look)
    else if s.dir.Current? || s.dir.id !in s.fs || s.fs[s.dir.id].Plain? then Failed
    else if s.fs[s.dir.id].parent != levels[n - 1].inode then Failed
    else Unlink(s.(levels := levels, dir := Opened(s.fs[s.dir.id].parent)), level.name, true, look)
  }

  /** One turn of the loop. */
  function Turn(s: State, look: Look): Step {
    var start := if s.levels == [] then 0 else s.levels[|s.levels| - 1].entries;
    if |s.listed| > start then
      var entry := s.listed[|s.listed| - 1];
      var rest := s.(listed := s.listed[..|s.listed| - 1]);
      match entry.kind
      case TypeFolder => Descend(rest, entry.name, look)
      case TypePlain => Unlink(rest, entry.name, false, look)
      case TypeUnknown =>
        var status := Stat(s, entry.name, look);
        if status.Missing? then On(rest)
        else if status.IsFolder? then Descend(rest, entry.name, look)
        else Unlink(rest, entry.name, false, look)
    else if s.levels == [] then Done(s.removed)
    else Climb(s, look)
  }

  // ---------- what the loop keeps ----------

  function ListedItem(it: Item): Listed {
    Listed(it.name, if !it.told then TypeUnknown else if it.tree.Branch? then TypeFolder else TypePlain)
  }

  function ListedItems(items: seq<Item>): (s: seq<Listed>)
    ensures |s| == |items| && forall i :: 0 <= i < |s| ==> s[i] == ListedItem(items[i])
  {
    seq(|items|, i requires 0 <= i < |items| => ListedItem(items[i]))
  }

  /** The tree itself is not listed: it goes by the path asked for, and nothing tells its
      type. */
  ghost predicate Asked(listed: seq<Listed>, items: seq<Item>, p: Place) {
    && |listed| == |items|
    && forall i :: 0 <= i < |items| ==> items[i].name == p.name && listed[i] == Listed(p.path, TypeUnknown)
  }

  /** How an entry behind `levels` levels is written: in no level there is only the tree. */
  function Written(levels: seq<Level>, name: string, p: Place): string { if levels == [] then p.path else name }

  function DirOf(levels: seq<Level>): Dir { if levels == [] then Current else Opened(levels[|levels| - 1].inode) }

  /** The list holds each frame's entries, the innermost's last, and the levels are the
      frames but the first. */
  ghost predicate Shares(frames: seq<Frame>, levels: seq<Level>, listed: seq<Listed>, p: Place)
    decreases |frames|
  {
    frames != [] && |frames| == |levels| + 1 &&
    if |frames| == 1 then Asked(listed, Top(frames).items, p)
    else
      var level, top, lower := levels[|levels| - 1], Top(frames), levels[..|levels| - 1];
      && level.name == Written(lower, top.name, p) && (lower == [] ==> top.name == p.name) && level.inode == top.id
      && level.entries <= |listed| && listed[level.entries..] == ListedItems(top.items)
      && Shares(Lower(frames), lower, listed[..level.entries], p)
  }

  /** What is left of a node once `n` of its names have gone. */
  predicate Remains(node: Node, n: nat) { n == 0 || (node.Plain? && n < node.links) }

  function Less(node: Node, n: nat): Node
    requires Remains(node, n)
  {
    if n == 0 then node else Plain(node.links - n)
  }

  /** Of the files `fs`, those whose names have all gone are gone, and of the others only the
      directories of the tree and the one it is in are changed. */
  ghost predicate Kept(fs: Files, gs: Files, gone: seq<Id>, order: seq<Id>, base: Id) {
    && (forall id :: id in gs ==> id in fs)
    && forall id :: id in fs ==> KeptAt(fs, gs, multiset(gone)[id], order, base, id)
  }

  ghost predicate KeptAt(fs: Files, gs: Files, n: nat, order: seq<Id>, base: Id, id: Id)
    requires id in fs
  {
    && (id in gs <==> Remains(fs[id], n))
    && (id in gs ==> (gs[id].Folder? <==> fs[id].Folder?))
    && (id in gs && (fs[id].Plain? || (id !in order && id != base)) ==> gs[id] == Less(fs[id], n))
  }

  /** What is to be removed, of the files `fs`: directories once each, and no file more often
      than it has links; the directory it is all in is not part of it. */
  ghost predicate Sound(fs: Files, order: seq<Id>, base: Id) {
    && base !in order && Once(fs, order)
    && forall id :: id in order ==> id in fs && (fs[id].Plain? ==> multiset(order)[id] <= fs[id].links)
  }

  /** The removal asked for: the files as they were, the order to go in, and where. */
  datatype Removal = Removal(fs: Files, order: seq<Id>, p: Place, look: Look)

  ghost predicate Posed(w: Removal) {
    Sound(w.fs, w.order, w.p.base) && w.look(w.p.path) == Spot(w.p.base, w.p.name)
  }

  /** `dir` is the directory on top of the level stack, or the current one below them all;
      what has gone and what is pending make up the order of the whole tree. */
  ghost predicate Inv(s: State, frames: seq<Frame>, w: Removal) {
    && frames != [] && Shares(frames, s.levels, s.listed, w.p) && Stands(s.fs, frames, [], w.p)
    && s.dir == DirOf(s.levels) && Kept(w.fs, s.fs, s.gone, w.order, w.p.base)
    && s.gone + Pending(frames) == w.order && s.removed == |s.gone|
  }

  function Measure(frames: seq<Frame>): nat
    requires frames != []
  {
    Unseen(frames) + |Pending(frames)|
  }

  /** What the innermost directory holds besides what is left, once it has come to go, may. */
  lemma ComesToGo(s: State, frames: seq<Frame>, slot: Slot, w: Removal)
    requires frames != [] && Posed(w) && Kept(w.fs, s.fs, s.gone, w.order, w.p.base)
    requires s.gone + ([slot.id] + Pending(frames)) == w.order
    requires slot.id in s.fs && (s.fs[slot.id].Folder? ==> s.fs[slot.id].slots == [])
    ensures MayGo(s.fs, frames, slot, w.p)
  {
    hide Pending;
    var id, rest := slot.id, Pending(frames);
    var now := [id] + rest;
    OnceSplit(w.fs, s.gone, now);
    OnceKind(w.fs, s, now, w);
    assert id in w.order;
    assert KeptAt(w.fs, s.fs, multiset(s.gone)[id], w.order, w.p.base, id);
    assert multiset(w.order) == multiset(s.gone) + multiset{id} + multiset(rest);
    if id in rest { assert multiset(rest)[id] >= 1; }
  }

  /** What comes twice among what is still to go is still there. */
  lemma OnceKind(fs: Files, s: State, now: seq<Id>, w: Removal)
    requires fs == w.fs && Posed(w) && Kept(w.fs, s.fs, s.gone, w.order, w.p.base)
    requires s.gone + now == w.order && Once(fs, now)
    ensures Once(s.fs, now)
  {
    hide Once;
    assert multiset(w.order) == multiset(s.gone) + multiset(now);
    forall i, k | 0 <= i < k < |now| && now[i] == now[k] ensures now[i] in s.fs && s.fs[now[i]].Plain? {
      StillThere(s, now, w, i, k);
    }
    OnceIs(s.fs, now);
  }

  lemma OnceIs(fs: Files, ids: seq<Id>)
    requires forall i, k :: 0 <= i < k < |ids| && ids[i] == ids[k] ==> ids[i] in fs && fs[ids[i]].Plain?
    ensures Once(fs, ids)
  {
  }

  lemma StillThere(s: State, now: seq<Id>, w: Removal, i: nat, k: nat)
    requires Posed(w) && Kept(w.fs, s.fs, s.gone, w.order, w.p.base)
    requires s.gone + now == w.order && Once(w.fs, now) && i < k < |now| && now[i] == now[k]
    ensures now[i] in s.fs && s.fs[now[i]].Plain?
  {
    var id := now[i];
    assert now == now[..i] + [id] + now[i + 1..];
    assert id in now[i + 1..] by { assert now[i + 1..][k - i - 1] == id; }
    assert multiset(w.order) == multiset(s.gone) + multiset(now);
    assert multiset(now) == multiset(now[..i]) + multiset{id} + multiset(now[i + 1..]);
    assert id in w.order;
    assert KeptAt(w.fs, s.fs, multiset(s.gone)[id], w.order, w.p.base, id);
  }

  /** One more name gone: what was kept is. */
  lemma KeptOn(fs: Files, a: Files, b: Files, gone: seq<Id>, order: seq<Id>, base: Id, dir: Id, id: Id)
    requires Kept(fs, a, gone, order, base) && OnlyGone(a, b, dir, id) && id in order && (dir == base || dir in order)
    ensures Kept(fs, b, gone + [id], order, base)
  {
    hide Once;
    assert multiset(gone + [id]) == multiset(gone) + multiset{id};
    forall k | k in fs ensures KeptAt(fs, b, multiset(gone + [id])[k], order, base, k) {
      assert KeptAt(fs, a, multiset(gone)[k], order, base, k);
    }
  }

  /** Where the calls look an entry of the innermost directory up. */
  lemma LooksUp(frames: seq<Frame>, levels: seq<Level>, listed: seq<Listed>, name: string, fs: Files, below: seq<Slot>,
                w: Removal)
    requires Shares(frames, levels, listed, w.p) && Stands(fs, frames, below, w.p) && Posed(w)
    requires levels == [] ==> name == w.p.name
    ensures Target(DirOf(levels), Written(levels, name, w.p), w.look) == Spot(Top(frames).id, name)
  {
  }

  /** Unlinking what the innermost directory holds besides what is left. */
  lemma UnlinkKeeps(s: State, frames: seq<Frame>, slot: Slot, w: Removal)
    requires frames != [] && Shares(frames, s.levels, s.listed, w.p) && Stands(s.fs, frames, [slot], w.p)
    requires s.dir == DirOf(s.levels) && Posed(w) && Kept(w.fs, s.fs, s.gone, w.order, w.p.base)
    requires s.gone + ([slot.id] + Pending(frames)) == w.order && s.removed == |s.gone|
    requires slot.id in s.fs && (s.fs[slot.id].Folder? ==> s.fs[slot.id].slots == [])
    requires s.levels == [] ==> slot.name == w.p.name
    ensures var t := Unlink(s, Written(s.levels, slot.name, w.p), s.fs[slot.id].Folder?, w.look);
            t.On? && Inv(t.next, frames, w)
  {
    hide Shares, Stands, Once, UnlinkAt, Pending, Posed, Kept, MayGo, OnlyGone, Written, Target;
    ComesToGo(s, frames, slot, w);
    LooksUp(frames, s.levels, s.listed, slot.name, s.fs, [slot], w);
    var gs := UnlinkTop(s.fs, frames, slot, w.p);
    TopInOrder(s.fs, frames, s.gone, [slot.id], [slot], w);
    assert s.gone + [slot.id] + Pending(frames) == w.order;
    assert slot.id in s.gone + ([slot.id] + Pending(frames));
    KeptOn(w.fs, s.fs, gs, s.gone, w.order, w.p.base, Top(frames).id, slot.id);
  }

  lemma TopInOrder(fs: Files, frames: seq<Frame>, gone: seq<Id>, now: seq<Id>, below: seq<Slot>, w: Removal)
    requires Stands(fs, frames, below, w.p) && gone + (now + Pending(frames)) == w.order
    ensures Top(frames).id == w.p.base || Top(frames).id in w.order
  {
    hide OrderAll, HoldsAll;
    if |frames| > 1 {
      PendingIs(frames);
      assert Top(frames).id in Pending(frames);
      assert Top(frames).id in gone + (now + Pending(frames));
    }
  }

  // ---------- what a turn finds ----------

  /** The entry taken from the list is the innermost directory's last. */
  lemma {:induction false} TakeLast(
    frames: seq<Frame>, levels: seq<Level>, listed: seq<Listed>, items: seq<Item>, it: Item, p: Place)
    requires Shares(frames, levels, listed, p) && Top(frames).items == items + [it]
    ensures |listed| > (if levels == [] then 0 else levels[|levels| - 1].entries)
    ensures var entry := listed[|listed| - 1];
            entry.name == Written(levels, it.name, p) && entry.kind in {ListedItem(it).kind, TypeUnknown}
    ensures levels == [] ==> it.name == p.name
    ensures Shares(Left(frames, items), levels, listed[..|listed| - 1], p)
  {
    if levels == [] {
      AskedLast(listed, items, it, p);
    } else {
      TopLast(listed, levels[|levels| - 1].entries, items, it);
    }
  }

  lemma AskedLast(listed: seq<Listed>, items: seq<Item>, it: Item, p: Place)
    requires Asked(listed, items + [it], p)
    ensures |listed| > 0 && listed[|listed| - 1] == Listed(p.path, TypeUnknown) && it.name == p.name
    ensures Asked(listed[..|listed| - 1], items, p)
  {
    assert (items + [it])[|items|] == it;
    assert forall i :: 0 <= i < |items| ==> (items + [it])[i] == items[i];
  }

  lemma TopLast(listed: seq<Listed>, start: nat, items: seq<Item>, it: Item)
    requires start <= |listed| && listed[start..] == ListedItems(items + [it])
    ensures |listed| > start && listed[|listed| - 1] == ListedItem(it)
    ensures listed[..|listed| - 1][start..] == ListedItems(items)
    ensures listed[..|listed| - 1][..start] == listed[..start]
  {
    var tail, less := listed[start..], listed[..|listed| - 1];
    assert listed[|listed| - 1] == tail[|tail| - 1];
    assert less[start..] == tail[..|tail| - 1];
  }

  lemma {:induction false} TakeNone(frames: seq<Frame>, levels: seq<Level>, listed: seq<Listed>, p: Place)
    requires Shares(frames, levels, listed, p) && Top(frames).items == []
    ensures |listed| == (if levels == [] then 0 else levels[|levels| - 1].entries)
    ensures |frames| == |levels| + 1
    ensures |frames| > 1 ==>
              var level, lower := levels[|levels| - 1], levels[..|levels| - 1];
              && level.name == Written(lower, Top(frames).name, p) && (lower == [] ==> Top(frames).name == p.name)
              && Shares(Lower(frames), lower, listed, p)
  {
    if |frames| > 1 { assert listed[..|listed|] == listed; }
  }

  lemma {:induction false} ListsItems(fs: Files, items: seq<Item>, parent: Id, i: nat)
    requires HoldsAll(fs, items, parent) && i < |items|
    ensures ListedAs(fs, SlotOf(items[i])) == ListedItem(items[i])
  {
    if i > 0 { ListsItems(fs, items[1..], parent, i - 1); }
  }

  lemma ListsTree(fs: Files, tree: Tree, parent: Id)
    requires Holds(fs, tree, parent) && tree.Branch?
    ensures ListFolder(fs, tree.id) == ListedItems(tree.items)
  {
    var l := ListFolder(fs, tree.id);
    forall i | 0 <= i < |l| ensures l[i] == ListedItem(tree.items[i]) {
      ListsItems(fs, tree.items, tree.id, i);
    }
  }

  lemma {:induction false} ShareMore(frames: seq<Frame>, levels: seq<Level>, listed: seq<Listed>, it: Item, p: Place)
    requires Shares(frames, levels, listed, p) && it.tree.Branch? && (levels == [] ==> it.name == p.name)
    ensures Shares(frames + [Frame(it.name, it.told, it.tree.id, it.tree.items)],
                   levels + [Level(Written(levels, it.name, p), it.tree.id, |listed|)],
                   listed + ListedItems(it.tree.items), p)
  {
    var f := frames + [Frame(it.name, it.told, it.tree.id, it.tree.items)];
    var l := levels + [Level(Written(levels, it.name, p), it.tree.id, |listed|)];
    var all := listed + ListedItems(it.tree.items);
    assert Lower(f) == frames && l[..|levels|] == levels && all[..|listed|] == listed;
    assert all[|listed|..] == ListedItems(it.tree.items);
  }

  lemma HeldKind(fs: Files, tree: Tree, parent: Id)
    requires Holds(fs, tree, parent)
    ensures tree.id in fs && (tree.Branch? <==> fs[tree.id].Folder?)
    ensures tree.Branch? ==> |fs[tree.id].slots| == |tree.items|
  {
  }

  /** What the system tells of the innermost directory's last entry. */
  lemma StatLast(s: State, frames: seq<Frame>, items: seq<Item>, it: Item, w: Removal)
    requires Inv(s, frames, w) && Posed(w) && Top(frames).items == items + [it]
    ensures Stat(s, Written(s.levels, it.name, w.p), w.look) ==
            if it.tree.Branch? then IsFolder(it.tree.id) else IsPlain(it.tree.id)
  {
    hide Shares, Stands, StatAt, Pending, Posed, Kept, Target, Written;
    TakeLast(frames, s.levels, s.listed, items, it, w.p);
    Peel(s.fs, frames, items, it, w.p);
    HeldKind(s.fs, it.tree, Top(frames).id);
    StatTop(s.fs, Left(frames, items), SlotOf(it), w.p);
    LooksUp(frames, s.levels, s.listed, it.name, s.fs, [], w);
  }

  /** What a turn does with an entry, whether its listing told its type or not. */
  lemma TurnTakes(s: State, frames: seq<Frame>, items: seq<Item>, it: Item, w: Removal)
    requires Inv(s, frames, w) && Posed(w) && Top(frames).items == items + [it]
    ensures s.listed != []
    ensures var rest, name := s.(listed := s.listed[..|s.listed| - 1]), Written(s.levels, it.name, w.p);
            Turn(s, w.look) ==
            if it.tree.Branch? then Descend(rest, name, w.look) else Unlink(rest, name, false, w.look)
  {
    hide Shares, Stands, Descend, Unlink, Stat, Pending, Posed, Kept, Written;
    TakeLast(frames, s.levels, s.listed, items, it, w.p);
    StatLast(s, frames, items, it, w);
  }

  ghost predicate Ahead(t: Step, frames: seq<Frame>, w: Removal, measure: nat) {
    t.On? && Inv(t.next, frames, w) && Measure(frames) < measure
  }

  /** A turn with an entry to take keeps the invariant and gets on. */
  lemma TakeKeeps(s: State, frames: seq<Frame>, items: seq<Item>, it: Item, w: Removal) returns (next: seq<Frame>)
    requires Inv(s, frames, w) && Posed(w) && Top(frames).items == items + [it]
    ensures next != [] && Ahead(Turn(s, w.look), next, w, Measure(frames))
  {
    hide Shares, Stands, Unlink, Stat, Pending, Turn, Holds, Unseen, Order, Nodes, Posed, Kept, Written;
    TurnTakes(s, frames, items, it, w);
    var rest := s.(listed := s.listed[..|s.listed| - 1]);
    var left := Left(frames, items);
    TakeLast(frames, s.levels, s.listed, items, it, w.p);
    Peel(s.fs, frames, items, it, w.p);
    HeldKind(s.fs, it.tree, Top(frames).id);
    StatLast(s, frames, items, it, w);
    SameStat(s, rest, Written(s.levels, it.name, w.p), w.look);
    if it.tree.Branch? {
      ListsTree(s.fs, it.tree, Top(frames).id);
    }
    if it.tree.Branch? && it.tree.items != [] {
      next := left + [Frame(it.name, it.told, it.tree.id, it.tree.items)];
      ShareMore(left, s.levels, rest.listed, it, w.p);
      Push(s.fs, left, it, w.p);
    } else {
      next := left;
      SingleNode(it.tree);
      UnlinkKeeps(rest, left, SlotOf(it), w);
    }
  }

  lemma SameStat(s: State, t: State, name: string, look: Look)
    requires t.dir == s.dir && t.fs == s.fs
    ensures Stat(t, name, look) == Stat(s, name, look)
  {
  }

  lemma SingleNode(tree: Tree)
    requires tree.Leaf? || tree.items == []
    ensures Order(tree) == [tree.id] && Nodes(tree) == 1
  {
  }

  lemma DirIsTop(levels: seq<Level>, listed: seq<Listed>, frames: seq<Frame>, p: Place, fs: Files, below: seq<Slot>)
    requires Shares(frames, levels, listed, p) && Stands(fs, frames, below, p)
    ensures Top(frames).id == if levels == [] then p.base else levels[|levels| - 1].inode
  {
  }

  /** A turn with nothing left in a directory removes it from the one above, where `..` leads
      as recorded. */
  lemma ClimbKeeps(s: State, frames: seq<Frame>, w: Removal)
    requires Inv(s, frames, w) && Posed(w) && Top(frames).items == [] && |frames| > 1
    ensures Ahead(Turn(s, w.look), Lower(frames), w, Measure(frames))
  {
    hide Shares, Stands, Unlink, Pending, Unseen, Posed, Kept, Written;
    var top, lower := Top(frames), Lower(frames);
    var slot := Slot(top.name, top.told, top.id);
    TakeNone(frames, s.levels, s.listed, w.p);
    DirIsTop(s.levels, s.listed, frames, w.p, s.fs, []);
    Above(s.fs, frames, w.p);
    PendingNone(frames);
    var levels := s.levels[..|s.levels| - 1];
    DirIsTop(levels, s.listed, lower, w.p, s.fs, [slot]);
    UnlinkKeeps(s.(levels := levels, dir := DirOf(levels)), lower, slot, w);
  }

  lemma Above(fs: Files, frames: seq<Frame>, p: Place)
    requires Stands(fs, frames, [], p) && |frames| > 1 && Top(frames).items == []
    ensures var top := Top(frames);
            && Stands(fs, Lower(frames), [Slot(top.name, top.told, top.id)], p)
            && top.id in fs && fs[top.id] == Folder(Top(Lower(frames)).id, [])
  {
  }

  lemma PendingNone(frames: seq<Frame>)
    requires |frames| > 1 && Top(frames).items == []
    ensures Pending(frames) == [Top(frames).id] + Pending(Lower(frames)) && Unseen(frames) == Unseen(Lower(frames))
  {
    hide Pending, Order, Nodes;
    PendingIs(frames);
    assert OrderAll([]) == [] && NodesAll([]) == 0;
    assert [] + ([Top(frames).id] + Pending(Lower(frames))) == [Top(frames).id] + Pending(Lower(frames));
  }

  // ---------- the whole removal ----------

  /** What a turn promises: at the end all has gone, and else the next one finds the
      invariant. */
  ghost predicate Promises(s: State, t: Step, frames: seq<Frame>, next: seq<Frame>, w: Removal)
    requires frames != []
  {
    if t.Done? then
      && t == Done(|w.order|) && s.gone == w.order
      && w.p.base in s.fs && s.fs[w.p.base] == Folder(w.p.parent, w.p.before + w.p.after)
    else next != [] && Ahead(t, next, w, Measure(frames))
  }

  /** A turn of the loop never fails. */
  lemma TurnKeeps(s: State, frames: seq<Frame>, w: Removal) returns (next: seq<Frame>)
    requires Inv(s, frames, w) && Posed(w)
    ensures Promises(s, Turn(s, w.look), frames, next, w)
  {
    hide Turn, Pending, Unseen, Stands, Shares, Posed, Kept;
    next := frames;
    var items := Top(frames).items;
    if items != [] {
      assert items == items[..|items| - 1] + [items[|items| - 1]];
      next := TakeKeeps(s, frames, items[..|items| - 1], items[|items| - 1], w);
    } else if |frames| > 1 {
      next := Lower(frames);
      ClimbKeeps(s, frames, w);
    } else {
      EndReached(s, frames, w);
    }
  }

  lemma EndReached(s: State, frames: seq<Frame>, w: Removal)
    requires Inv(s, frames, w) && |frames| == 1 && Top(frames).items == []
    ensures Turn(s, w.look) == Done(|w.order|) && s.gone == w.order
    ensures w.p.base in s.fs && s.fs[w.p.base] == Folder(w.p.parent, w.p.before + w.p.after)
  {
    TakeNone(frames, s.levels, s.listed, w.p);
    assert Pending(frames) == [];
    assert s.gone + [] == w.order;
    assert w.p.before + (Slots([]) + []) + w.p.after == w.p.before + w.p.after;
  }

  /** The tree is in the directory `p.base` by the name `p.name`, with what `p` says around it. */
  ghost predicate Planted(fs: Files, told: bool, tree: Tree, p: Place) {
    var slots := p.before + [Slot(p.name, told, tree.id)] + p.after;
    && p.base in fs && fs[p.base] == Folder(p.parent, slots) && DistinctNames(slots)
    && Holds(fs, tree, p.base) && Sound(fs, Order(tree), p.base)
  }

  function First(fs: Files, path: string): State {
    State(fs, [Listed(path, TypeUnknown)], [], Current, 0, [])
  }

  ghost function FirstFrames(told: bool, tree: Tree, p: Place): seq<Frame> {
    [Frame([], false, p.base, [Item(p.name, told, tree)])]
  }

  lemma FirstInv(told: bool, tree: Tree, w: Removal)
    requires Planted(w.fs, told, tree, w.p) && w.order == Order(tree)
    ensures Inv(First(w.fs, w.p.path), FirstFrames(told, tree, w.p), w)
  {
    hide Order, OrderAll, Holds, HoldsAll, Sound, Stands, Pending, Kept;
    var frames := FirstFrames(told, tree, w.p);
    FirstStands(told, tree, w.fs, w.p);
    OnePending(Item(w.p.name, told, tree));
    PendingIs(frames);
    assert [] + Pending(frames) == Pending(frames);
    KeptFirst(w.fs, w.order, w.p.base);
  }

  lemma OnePending(it: Item)
    ensures OrderAll([it]) == Order(it.tree)
  {
    hide Order;
    assert [it][1..] == [] && OrderAll([]) == [];
  }

  lemma FirstStands(told: bool, tree: Tree, fs: Files, p: Place)
    requires Planted(fs, told, tree, p)
    ensures Stands(fs, FirstFrames(told, tree, p), [], p)
  {
    hide Order, Holds, Sound;
    var it := Item(p.name, told, tree);
    assert Slots([it]) + [] == [Slot(p.name, told, tree.id)];
    HoldsLast(fs, [], it, p.base);
    assert [] + [it] == [it];
  }

  lemma KeptFirst(fs: Files, order: seq<Id>, base: Id)
    ensures Kept(fs, fs, [], order, base)
  {
    forall id | id in fs ensures KeptAt(fs, fs, multiset([])[id], order, base, id) {
    }
  }

  /** With nothing at the path, the loop only drops the entry. */
  lemma MissingTurn(s: State, fs: Files, path: string, look: Look)
    requires StatAt(fs, look(path).dir, look(path).name).Missing?
    requires s == First(fs, path) || s == First(fs, path).(listed := [])
    ensures Turn(s, look) == if s.listed == [] then Done(0) else On(First(fs, path).(listed := []))
  {
  }

  /** The loop's invariant, where there is a tree. */
  ghost predicate GoesOn(s: State, frames: seq<Frame>, next: seq<Frame>, w: Removal) {
    && frames != [] && Posed(w) && Inv(s, frames, w) && Promises(s, Turn(s, w.look), frames, next, w)
  }

  /** Removing a tree no one disturbs, by whatever path: every entry goes once, in the order
      that puts a directory after all it holds, and the count is of the entries. A file is
      gone with its last name, and one with names elsewhere has as many links fewer; nothing
      else changes. Nothing at the path removes nothing. */
  method Remove(fs: Files, path: string, look: Look, ghost told: bool, ghost tree: Tree, ghost p: Place)
    returns (removed: nat, after: State)
    requires || StatAt(fs, look(path).dir, look(path).name).Missing?
             || (path == p.path && look(path) == Spot(p.base, p.name) && Planted(fs, told, tree, p))
    ensures StatAt(fs, look(path).dir, look(path).name).Missing? ==>
              removed == 0 && after.fs == fs && after.gone == []
    ensures !StatAt(fs, look(path).dir, look(path).name).Missing? ==>
              && after.gone == Order(tree) && removed == Nodes(tree)
              && p.base in after.fs && after.fs[p.base] == Folder(p.parent, p.before + p.after)
              && LeftOver(fs, after.fs, Order(tree), p.base)
  {
    hide StatAt, Inv, Turn, Order, Holds, Measure, Promises, Planted, Posed, LeftOver;
    ghost var missing := StatAt(fs, look(path).dir, look(path).name).Missing?;
    ghost var w := Removal(fs, Order(tree), p, look);
    ghost var frames := FirstFrames(told, tree, p);
    ghost var next := frames;
    after := First(fs, path);
    if missing {
      MissingTurn(after, fs, path, look);
    } else {
      next := FirstTurn(told, tree, w);
    }
    var step := Turn(after, look);
    while !step.Done?
      invariant frames != [] && step == Turn(after, look)
      invariant missing ==> after == First(fs, path) || after == First(fs, path).(listed := [])
      invariant !missing ==> GoesOn(after, frames, next, w)
      decreases if missing then |after.listed| else Measure(frames)
    {
      if missing {
        MissingTurn(after, fs, path, look);
        MissingTurn(step.next, fs, path, look);
      } else {
        ghost var later := NextTurn(after, frames, next, w);
        frames, next := next, later;
      }
      after := step.next;
      step := Turn(after, look);
    }
    removed := step.removed;
    if missing {
      MissingTurn(after, fs, path, look);
    } else {
      LastTurn(after, frames, next, w, tree);
    }
  }

  /** The files after the entries `order` have gone from the directory `base`. */
  ghost predicate LeftOver(fs: Files, gs: Files, order: seq<Id>, base: Id) {
    && (forall id :: id in gs ==> id in fs)
    && (forall id :: id in fs ==> (id in gs <==> Remains(fs[id], multiset(order)[id])))
    && (forall id :: id in gs && id != base ==>
          Remains(fs[id], multiset(order)[id]) && gs[id] == Less(fs[id], multiset(order)[id]))
  }

  lemma KeptIsLeft(fs: Files, gs: Files, order: seq<Id>, base: Id)
    requires Kept(fs, gs, order, order, base)
    ensures LeftOver(fs, gs, order, base)
  {
    forall id | id in fs
      ensures id in gs <==> Remains(fs[id], multiset(order)[id])
      ensures id in gs && id != base ==> gs[id] == Less(fs[id], multiset(order)[id])
    {
      assert KeptAt(fs, gs, multiset(order)[id], order, base, id);
      assert id in order <==> multiset(order)[id] > 0;
    }
  }

  lemma FirstTurn(told: bool, tree: Tree, w: Removal) returns (next: seq<Frame>)
    requires Planted(w.fs, told, tree, w.p) && w.order == Order(tree)
    requires w.look(w.p.path) == Spot(w.p.base, w.p.name)
    ensures GoesOn(First(w.fs, w.p.path), FirstFrames(told, tree, w.p), next, w)
  {
    hide Inv, Turn, Order, Holds, Measure, Sound, Promises;
    FirstInv(told, tree, w);
    next := TurnKeeps(First(w.fs, w.p.path), FirstFrames(told, tree, w.p), w);
  }

  lemma NextTurn(s: State, frames: seq<Frame>, next: seq<Frame>, w: Removal) returns (later: seq<Frame>)
    requires GoesOn(s, frames, next, w) && !Turn(s, w.look).Done?
    ensures Turn(s, w.look).On? && next != [] && GoesOn(Turn(s, w.look).next, next, later, w)
    ensures Measure(next) < Measure(frames)
  {
    hide Inv, Turn, Measure, Posed;
    later := TurnKeeps(Turn(s, w.look).next, next, w);
  }

  lemma LastTurn(s: State, frames: seq<Frame>, next: seq<Frame>, w: Removal, tree: Tree)
    requires w.order == Order(tree) && GoesOn(s, frames, next, w) && Turn(s, w.look).Done?
    ensures s.gone == Order(tree) && Turn(s, w.look).removed == Nodes(tree)
    ensures w.p.base in s.fs && s.fs[w.p.base] == Folder(w.p.parent, w.p.before + w.p.after)
    ensures LeftOver(w.fs, s.fs, Order(tree), w.p.base)
  {
    hide Turn, Order, Measure, Nodes, Kept, Shares, Stands, Pending, LeftOver, Posed;
    OrderCounts(tree);
    KeptIsLeft(w.fs, s.fs, w.order, w.p.base);
  }
}
