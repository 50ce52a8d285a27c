/** Where a removal stands: the directories it went into, each with the entries it still
    holds, and what that says of the file system. */
module RemoveFrames {
  import opened RemoveSpec

  /** A directory the removal went into and what is left in it; the first is the directory
      the tree is in. */
  datatype Frame = Frame(name: string, told: bool, id: Id, items: seq<Item>)

  /** The directory the tree is in: what else it holds, around the tree; and what the tree is
      called there, and by whoever asks to remove it. */
  datatype Place = Place(base: Id, parent: Id, before: seq<Slot>, after: seq<Slot>, name: string, path: string)

  function Top(frames: seq<Frame>): Frame
    requires frames != []
  {
    frames[|frames| - 1]
  }

  function Lower(frames: seq<Frame>): seq<Frame>
    requires frames != []
  {
    frames[..|frames| - 1]
  }

  /** The innermost directory's entries replaced. */
  function Left(frames: seq<Frame>, items: seq<Item>): (r: seq<Frame>)
    requires frames != []
    ensures |r| == |frames| && Lower(r) == Lower(frames) && Top(r) == Top(frames).(items := items)
  {
    Lower(frames) + [Top(frames).(items := items)]
  }

  /** The slots of the innermost directory: what is left, then `below`. */
  function TopSlots(frames: seq<Frame>, below: seq<Slot>, p: Place): seq<Slot>
    requires frames != []
  {
    if |frames| == 1 then p.before + (Slots(Top(frames).items) + below) + p.after else Slots(Top(frames).items) + below
  }

  /** The file system holds, of each directory gone into, exactly what is left and the one
      gone into from it; `below` is what the innermost holds besides what is left. */
  ghost predicate Stands(fs: Files, frames: seq<Frame>, below: seq<Slot>, p: Place)
    decreases |frames|
  {
    frames != [] &&
    var top := Top(frames);
    var parent := if |frames| == 1 then p.parent else frames[|frames| - 2].id;
    && top.id in fs && fs[top.id] == Folder(parent, TopSlots(frames, below, p))
    && DistinctNames(TopSlots(frames, below, p)) && HoldsAll(fs, top.items, top.id)
    && if |frames| == 1 then top.id == p.base else Stands(fs, Lower(frames), [Slot(top.name, top.told, top.id)], p)
  }

  /** What is still to go, in order. */
  function Pending(frames: seq<Frame>): seq<Id>
    requires frames != []
    decreases |frames|
  {
    OrderAll(Top(frames).items) + if |frames| == 1 then [] else [Top(frames).id] + Pending(Lower(frames))
  }

  /** How many nodes the removal has not yet looked at. */
  function Unseen(frames: seq<Frame>): nat
    requires frames != []
    decreases |frames|
  {
    NodesAll(Top(frames).items) + if |frames| == 1 then 0 else Unseen(Lower(frames))
  }

  // ---------- what a part of the file system tells ----------

  /** The same of `ids`, but for the numbers of links. */
  ghost predicate Agree(fs: Files, gs: Files, ids: seq<Id>) {
    forall id :: id in ids && id in fs ==> id in gs && (gs[id] == fs[id] || (gs[id].Plain? && fs[id].Plain?))
  }

  lemma {:induction false} HoldsStays(fs: Files, gs: Files, tree: Tree, parent: Id)
    requires Holds(fs, tree, parent) && Agree(fs, gs, Order(tree))
    ensures Holds(gs, tree, parent)
  {
    assert tree.id in Order(tree);
    if tree.Branch? {
      assert Agree(fs, gs, OrderAll(tree.items));
      HoldsAllStays(fs, gs, tree.items, tree.id);
    }
  }

  lemma {:induction false} HoldsAllStays(fs: Files, gs: Files, items: seq<Item>, parent: Id)
    requires HoldsAll(fs, items, parent) && Agree(fs, gs, OrderAll(items))
    ensures HoldsAll(gs, items, parent)
  {
    if items != [] {
      assert Agree(fs, gs, Order(items[0].tree)) && Agree(fs, gs, OrderAll(items[1..]));
      HoldsStays(fs, gs, items[0].tree, parent);
      HoldsAllStays(fs, gs, items[1..], parent);
    }
  }

  lemma {:induction false} StandsStays(fs: Files, gs: Files, frames: seq<Frame>, below: seq<Slot>, p: Place)
    requires Stands(fs, frames, below, p) && Agree(fs, gs, Pending(frames)) && Agree(fs, gs, [p.base])
    ensures Stands(gs, frames, below, p)
    decreases |frames|
  {
    hide DistinctNames, HoldsAll, OrderAll, TopSlots;
    var top := Top(frames);
    assert Agree(fs, gs, OrderAll(top.items));
    HoldsAllStays(fs, gs, top.items, top.id);
    if |frames| == 1 {
      assert p.base in [p.base];
    } else {
      assert top.id in Pending(frames);
      assert forall id :: id in Pending(Lower(frames)) ==> id in Pending(frames);
      StandsStays(fs, gs, Lower(frames), [Slot(top.name, top.told, top.id)], p);
    }
  }

  // ---------- moving ----------

  lemma {:induction false} LastItem(items: seq<Item>, it: Item)
    ensures OrderAll(items + [it]) == Order(it.tree) + OrderAll(items)
    ensures NodesAll(items + [it]) == NodesAll(items) + Nodes(it.tree)
    decreases |items|
  {
    if items == [] {
      assert [] + [it] == [it] && [it][1..] == [];
      assert OrderAll([]) == [];
    } else {
      assert (items + [it])[1..] == items[1..] + [it];
      LastItem(items[1..], it);
    }
  }

  lemma {:induction false} HoldsLast(fs: Files, items: seq<Item>, it: Item, parent: Id)
    ensures HoldsAll(fs, items + [it], parent) <==> HoldsAll(fs, items, parent) && Holds(fs, it.tree, parent)
    decreases |items|
  {
    if items == [] {
      assert [] + [it] == [it] && [it][1..] == [];
    } else {
      assert (items + [it])[1..] == items[1..] + [it];
      HoldsLast(fs, items[1..], it, parent);
    }
  }

  /** The innermost directory's last entry, taken from what is left: it is still there. */
  lemma Peel(fs: Files, frames: seq<Frame>, items: seq<Item>, it: Item, p: Place)
    requires Stands(fs, frames, [], p) && Top(frames).items == items + [it]
    ensures Stands(fs, Left(frames, items), [SlotOf(it)], p) && Holds(fs, it.tree, Top(frames).id)
    ensures Pending(frames) == Order(it.tree) + Pending(Left(frames, items))
    ensures Unseen(frames) == Nodes(it.tree) + Unseen(Left(frames, items))
  {
    hide DistinctNames, Holds, HoldsAll, Order, OrderAll, Nodes, NodesAll;
    HoldsLast(fs, items, it, Top(frames).id);
    LastItem(items, it);
    assert Slots(items + [it]) + [] == Slots(items) + [SlotOf(it)];
  }

  /** Going into a directory. */
  lemma Push(fs: Files, frames: seq<Frame>, it: Item, p: Place)
    requires Stands(fs, frames, [SlotOf(it)], p) && Holds(fs, it.tree, Top(frames).id) && it.tree.Branch?
    ensures var more := frames + [Frame(it.name, it.told, it.tree.id, it.tree.items)];
            && Stands(fs, more, [], p)
            && Pending(more) == Order(it.tree) + Pending(frames) && Unseen(more) + 1 == Nodes(it.tree) + Unseen(frames)
  {
    hide DistinctNames, HoldsAll, OrderAll, NodesAll;
    var more := frames + [Frame(it.name, it.told, it.tree.id, it.tree.items)];
    assert Lower(more) == frames;
    assert Slots(it.tree.items) + [] == Slots(it.tree.items);
  }
}
