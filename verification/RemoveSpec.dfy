/** A file system, and a tree in it to remove. */
module RemoveSpec {

  /** What tells one file from another: its inode. */
  type Id = nat

  /** An entry of a directory; whether listing it tells its type. */
  datatype Slot = Slot(name: string, told: bool, id: Id)

  /** Anything but a directory may have several names, in one directory or in many. */
  datatype Node = Plain(links: nat) | Folder(parent: Id, slots: seq<Slot>)

  type Files = map<Id, Node>

  // ---------- the system's calls ----------

  /** What names are relative to: the current directory, or one that is open. */
  datatype Dir = Current | Opened(id: Id)

  /** The directory an entry is in, and its name there. */
  datatype Spot = Spot(dir: Id, name: string)

  /** How a path, of any number of names, is looked up from the current directory. */
  type Look = string -> Spot

  function Target(dir: Dir, name: string, look: Look): Spot {
    if dir.Current? then look(name) else Spot(dir.id, name)
  }

  function Find(slots: seq<Slot>, name: string): (i: nat)
    ensures i <= |slots| && (i < |slots| ==> slots[i].name == name)
    ensures forall k :: 0 <= k < i ==> slots[k].name != name
  {
    if slots == [] || slots[0].name == name then 0 else 1 + Find(slots[1..], name)
  }

  datatype Status = Missing | IsPlain(id: Id) | IsFolder(id: Id)

  /** fstatat(), following no link; the same tells whether openat() finds a directory. */
  function StatAt(fs: Files, dir: Id, name: string): Status {
    if dir !in fs || fs[dir].Plain? then Missing
    else
      var slots := fs[dir].slots;
      var i := Find(slots, name);
      if i == |slots| || slots[i].id !in fs then Missing
      else if fs[slots[i].id].Folder? then IsFolder(slots[i].id) else IsPlain(slots[i].id)
  }

  datatype Type = TypeFolder | TypePlain | TypeUnknown

  datatype Listed = Listed(name: string, kind: Type)

  function ListedAs(fs: Files, slot: Slot): Listed {
    Listed(slot.name,
           if !slot.told || slot.id !in fs then TypeUnknown
           else if fs[slot.id].Folder? then TypeFolder else TypePlain)
  }

  function ListFolder(fs: Files, dir: Id): seq<Listed> {
    if dir !in fs || fs[dir].Plain? then []
    else
      var slots := fs[dir].slots;
      seq(|slots|, i requires 0 <= i < |slots| => ListedAs(fs, slots[i]))
  }

  datatype Unlinked = Gone(fs: Files, id: Id) | NoEntry | Refused

  /** What is left of the files without one name of `id`, its last or not. */
  function Dropped(fs: Files, id: Id): Files
    requires id in fs
  {
    if fs[id].Plain? && fs[id].links > 1 then fs[id := Plain(fs[id].links - 1)] else fs - {id}
  }

  /** unlinkat(): a directory goes only as one, and only empty. */
  function UnlinkAt(fs: Files, dir: Id, name: string, directory: bool): Unlinked {
    if dir !in fs || fs[dir].Plain? then NoEntry
    else
      var slots := fs[dir].slots;
      var i := Find(slots, name);
      if i == |slots| || slots[i].id !in fs then NoEntry
      else
        var node := fs[slots[i].id];
        if node.Folder? != directory || (node.Folder? && node.slots != []) then Refused
        else Gone(Dropped(fs, slots[i].id)[dir := fs[dir].(slots := slots[..i] + slots[i + 1..])], slots[i].id)
  }

  // ---------- a tree in the file system ----------

  datatype Tree = Leaf(id: Id) | Branch(id: Id, items: seq<Item>)

  datatype Item = Item(name: string, told: bool, tree: Tree)

  function SlotOf(item: Item): Slot { Slot(item.name, item.told, item.tree.id) }

  function Slots(items: seq<Item>): (s: seq<Slot>)
    ensures |s| == |items| && forall i :: 0 <= i < |s| ==> s[i] == SlotOf(items[i])
  {
    seq(|items|, i requires 0 <= i < |items| => SlotOf(items[i]))
  }

  ghost predicate DistinctNames(slots: seq<Slot>) {
    forall i, k :: 0 <= i < k < |slots| ==> slots[i].name != slots[k].name
  }

  /** The file system holds the tree, in the directory `parent`. */
  ghost predicate Holds(fs: Files, tree: Tree, parent: Id) {
    tree.id in fs &&
    match tree
    case Leaf(id) => fs[id].Plain?
    case Branch(id, items) =>
      fs[id] == Folder(parent, Slots(items)) && DistinctNames(Slots(items)) && HoldsAll(fs, items, id)
  }

  ghost predicate HoldsAll(fs: Files, items: seq<Item>, parent: Id) {
    items == [] || (Holds(fs, items[0].tree, parent) && HoldsAll(fs, items[1..], parent))
  }

  /** The order entries go in, told by what they name: a directory's entries from the last,
      then the directory. */
  function Order(tree: Tree): (ids: seq<Id>)
    ensures ids != [] && ids[|ids| - 1] == tree.id
  {
    if tree.Leaf? then [tree.id] else OrderAll(tree.items) + [tree.id]
  }

  function OrderAll(items: seq<Item>): seq<Id> {
    if items == [] then [] else OrderAll(items[1..]) + Order(items[0].tree)
  }

  function Nodes(tree: Tree): nat { if tree.Leaf? then 1 else 1 + NodesAll(tree.items) }

  function NodesAll(items: seq<Item>): nat {
    if items == [] then 0 else Nodes(items[0].tree) + NodesAll(items[1..])
  }

  lemma {:induction false} OrderCounts(tree: Tree)
    ensures |Order(tree)| == Nodes(tree)
  {
    if tree.Branch? { OrderAllCounts(tree.items); }
  }

  lemma {:induction false} OrderAllCounts(items: seq<Item>)
    ensures |OrderAll(items)| == NodesAll(items)
  {
    if items != [] {
      OrderCounts(items[0].tree);
      OrderAllCounts(items[1..]);
    }
  }

  // ---------- descendants first ----------

  /** `inner` is `tree` or is in it. */
  predicate Within(inner: Tree, tree: Tree) {
    inner == tree || (tree.Branch? && WithinAny(inner, tree.items))
  }

  predicate WithinAny(inner: Tree, items: seq<Item>) {
    items != [] && (Within(inner, items[0].tree) || WithinAny(inner, items[1..]))
  }

  /** `part` stands in `whole` as it is. */
  ghost predicate Segment(part: seq<Id>, whole: seq<Id>) {
    exists at: nat :: at + |part| <= |whole| && SegmentAt(part, whole, at)
  }

  ghost predicate SegmentAt(part: seq<Id>, whole: seq<Id>, at: nat)
    requires at + |part| <= |whole|
  {
    whole[at..at + |part|] == part
  }

  lemma SegmentGrows(part: seq<Id>, whole: seq<Id>, before: seq<Id>, after: seq<Id>)
    requires Segment(part, whole)
    ensures Segment(part, before + whole + after)
  {
    var at: nat :| at + |part| <= |whole| && SegmentAt(part, whole, at);
    var more := before + whole + after;
    assert more[|before| + at..|before| + at + |part|] == part;
    assert SegmentAt(part, more, |before| + at);
  }

  lemma SegmentOfItself(part: seq<Id>)
    ensures Segment(part, part)
  {
    assert part[0..|part|] == part;
    assert SegmentAt(part, part, 0);
  }

  /** Each node goes right after all that is in it, so a directory after its descendants:
      whatever is within a tree goes as one stretch that ends with it. */
  lemma {:induction false} DescendantsFirst(inner: Tree, tree: Tree)
    requires Within(inner, tree)
    ensures Segment(Order(inner), Order(tree)) && Order(inner)[|Order(inner)| - 1] == inner.id
  {
    if inner == tree {
      SegmentOfItself(Order(tree));
    } else {
      DescendantsFirstIn(inner, tree.items);
      SegmentGrows(Order(inner), OrderAll(tree.items), [], [tree.id]);
      assert [] + OrderAll(tree.items) + [tree.id] == Order(tree);
    }
  }

  lemma {:induction false} DescendantsFirstIn(inner: Tree, items: seq<Item>)
    requires WithinAny(inner, items)
    ensures Segment(Order(inner), OrderAll(items))
  {
    var first, rest := Order(items[0].tree), OrderAll(items[1..]);
    if Within(inner, items[0].tree) {
      DescendantsFirst(inner, items[0].tree);
      SegmentGrows(Order(inner), first, rest, []);
      assert rest + first + [] == OrderAll(items);
    } else {
      DescendantsFirstIn(inner, items[1..]);
      SegmentGrows(Order(inner), rest, [], first);
      assert [] + rest + first == OrderAll(items);
    }
  }
}
