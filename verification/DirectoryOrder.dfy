/** The order of a walk, told without walking: each item is found by the places of the names
    that lead to it, and the walk gives one item for each such way, in their order. */
module DirectoryOrder {
  import opened PathSpec
  import opened DirectoryWalk
  import PathLaws
  import PathBuffer

  /** Which entry to take in the root's listing, then in that directory's, and so on. */
  type Way = seq<nat>

  /** How many items a directory itself gives: its entries, or the one error. */
  function Width(dir: string, depth: nat, o: Options): nat {
    if depth >= o.maxDepth then 0
    else
      var listing := o.read(dir);
      if listing.Unreadable? then 1 else |listing.entries|
  }

  predicate Opens(item: Item, o: Options) { item.Entry? && item.kind.Folder? && !o.skips(item) }

  /** What the directory gives at place `i`. */
  function Child(dir: string, depth: nat, relative: int, o: Options, i: nat): Item
    requires i < Width(dir, depth, o)
  {
    var listing := o.read(dir);
    if listing.Unreadable? then Error(dir, listing.code)
    else EntryOf(listing.entries[i], dir, depth + 1, relative, o)
  }

  /** Whether the way leads to an item: through directories that are readable, not skipped and
      not too deep. */
  predicate Leads(dir: string, depth: nat, relative: int, o: Options, way: Way)
    decreases |way|
  {
    && way != [] && way[0] < Width(dir, depth, o)
    && (|way| > 1 ==>
          var child := Child(dir, depth, relative, o, way[0]);
          Opens(child, o) && Leads(child.path, depth + 1, child.relativeStart, o, way[1..]))
  }

  function ItemAt(dir: string, depth: nat, relative: int, o: Options, way: Way): Item
    requires Leads(dir, depth, relative, o, way)
    decreases |way|
  {
    var child := Child(dir, depth, relative, o, way[0]);
    if |way| == 1 then child else ItemAt(child.path, depth + 1, child.relativeStart, o, way[1..])
  }

  /** The order of ways: one leads before what it leads into, and by the first place where
      they part. */
  predicate Before(a: Way, b: Way)
    decreases |a|
  {
    b != [] && (a == [] || a[0] < b[0] || (a[0] == b[0] && Before(a[1..], b[1..])))
  }

  // ---------- the ways of a walk ----------

  function Through(i: nat, ways: seq<Way>): (r: seq<Way>)
    ensures |r| == |ways| && forall k :: 0 <= k < |ways| ==> r[k] == [i] + ways[k]
  {
    seq(|ways|, k requires 0 <= k < |ways| => [i] + ways[k])
  }

  function Ways(dir: string, depth: nat, relative: int, o: Options): seq<Way>
    decreases o.maxDepth - depth, 2, 0
  {
    WaysFrom(dir, depth, relative, o, 0)
  }

  /** Those from place `i` of the directory on. */
  function WaysFrom(dir: string, depth: nat, relative: int, o: Options, i: nat): seq<Way>
    decreases o.maxDepth - depth, 1, Width(dir, depth, o) - i
  {
    if i >= Width(dir, depth, o) then []
    else [[i]] + Through(i, WaysInto(dir, depth, relative, o, i)) + WaysFrom(dir, depth, relative, o, i + 1)
  }

  /** Those in the directory at place `i`, if it is one the walk goes into. */
  function WaysInto(dir: string, depth: nat, relative: int, o: Options, i: nat): seq<Way>
    requires i < Width(dir, depth, o)
    decreases o.maxDepth - depth, 0, 0
  {
    var child := Child(dir, depth, relative, o, i);
    if Opens(child, o) then Ways(child.path, depth + 1, child.relativeStart, o) else []
  }

  lemma Enters(dir: string, depth: nat, relative: int, o: Options, i: nat, way: Way)
    requires i < Width(dir, depth, o) && way != []
    ensures var child := Child(dir, depth, relative, o, i);
            Leads(dir, depth, relative, o, [i] + way) <==>
            Opens(child, o) && Leads(child.path, depth + 1, child.relativeStart, o, way)
  {
    hide Child, Opens;
    assert ([i] + way)[1..] == way;
  }

  /** Every way of the walk leads somewhere. */
  lemma {:induction false} WaysLead(dir: string, depth: nat, relative: int, o: Options, i: nat)
    ensures forall w :: w in WaysFrom(dir, depth, relative, o, i) ==>
                          w != [] && Leads(dir, depth, relative, o, w) && w[0] >= i
    decreases o.maxDepth - depth, Width(dir, depth, o) - i
  {
    hide Child, Opens, Through, Leads, WaysInto, Width;
    if i < Width(dir, depth, o) {
      var ways, into := WaysFrom(dir, depth, relative, o, i), WaysInto(dir, depth, relative, o, i);
      WaysLead(dir, depth, relative, o, i + 1);
      IntoLead(dir, depth, relative, o, i);
      LeadsHere(dir, depth, relative, o, i);
      forall w | w in ways ensures w != [] && Leads(dir, depth, relative, o, w) && w[0] >= i {
        if w != [i] && w !in WaysFrom(dir, depth, relative, o, i + 1) {
          var k :| 0 <= k < |into| && w == [i] + into[k];
        }
      }
    }
  }

  lemma LeadsHere(dir: string, depth: nat, relative: int, o: Options, i: nat)
    requires i < Width(dir, depth, o)
    ensures Leads(dir, depth, relative, o, [i])
  {
  }

  lemma IntoLead(dir: string, depth: nat, relative: int, o: Options, i: nat)
    requires i < Width(dir, depth, o)
    ensures forall w :: w in WaysInto(dir, depth, relative, o, i) ==>
                          w != [] && Leads(dir, depth, relative, o, [i] + w)
    decreases o.maxDepth - depth, Width(dir, depth, o) - i, 0
  {
    hide Child, WaysFrom, Leads;
    var child := Child(dir, depth, relative, o, i);
    if Opens(child, o) {
      WaysLead(child.path, depth + 1, child.relativeStart, o, 0);
      IntoIs(dir, depth, relative, o, i);
      forall w | w in WaysInto(dir, depth, relative, o, i) ensures w != [] && Leads(dir, depth, relative, o, [i] + w) {
        Enters(dir, depth, relative, o, i, w);
      }
    }
  }

  lemma LeadsNotEmpty(dir: string, depth: nat, relative: int, o: Options, way: Way)
    requires Leads(dir, depth, relative, o, way)
    ensures way != [] && way[0] < Width(dir, depth, o)
  {
  }

  /** What leads somewhere is a way of the walk. */
  lemma {:induction false} LeadingIsAWay(dir: string, depth: nat, relative: int, o: Options, i: nat, way: Way)
    requires Leads(dir, depth, relative, o, way) && way != [] && way[0] >= i
    ensures way in WaysFrom(dir, depth, relative, o, i)
    decreases o.maxDepth - depth, Width(dir, depth, o) - i
  {
    hide Child, Leads, Width, WaysInto, Through;
    LeadsNotEmpty(dir, depth, relative, o, way);
    var into := WaysInto(dir, depth, relative, o, i);
    if way[0] > i {
      LeadingIsAWay(dir, depth, relative, o, i + 1, way);
    } else if |way| == 1 {
      assert way == [i];
    } else {
      assert way == [i] + way[1..];
      Enters(dir, depth, relative, o, i, way[1..]);
      var child := Child(dir, depth, relative, o, i);
      WidthBounds(dir, depth, o);
      LeadingIsAWay(child.path, depth + 1, child.relativeStart, o, 0, way[1..]);
      IntoIs(dir, depth, relative, o, i);
      var k :| 0 <= k < |into| && into[k] == way[1..];
      assert Through(i, into)[k] == way;
    }
  }

  lemma WidthBounds(dir: string, depth: nat, o: Options)
    ensures Width(dir, depth, o) > 0 ==> depth < o.maxDepth
  {
  }

  lemma IntoIs(dir: string, depth: nat, relative: int, o: Options, i: nat)
    requires i < Width(dir, depth, o) && Opens(Child(dir, depth, relative, o, i), o)
    ensures var child := Child(dir, depth, relative, o, i);
            WaysInto(dir, depth, relative, o, i) == WaysFrom(child.path, depth + 1, child.relativeStart, o, 0)
  {
    hide Child;
  }

  /** Each way once, in order. */
  ghost predicate Ordered(ways: seq<Way>) { forall i, k :: 0 <= i < k < |ways| ==> Before(ways[i], ways[k]) }

  lemma {:induction false} WaysAreOrdered(dir: string, depth: nat, relative: int, o: Options, i: nat)
    ensures Ordered(WaysFrom(dir, depth, relative, o, i))
    decreases o.maxDepth - depth, Width(dir, depth, o) - i
  {
    hide Child, Width, WaysInto, Through, Ordered, Leads;
    if i < Width(dir, depth, o) {
      var child := Child(dir, depth, relative, o, i);
      var into, later := WaysInto(dir, depth, relative, o, i), WaysFrom(dir, depth, relative, o, i + 1);
      WaysAreOrdered(dir, depth, relative, o, i + 1);
      WaysLead(dir, depth, relative, o, i + 1);
      IntoLead(dir, depth, relative, o, i);
      WidthBounds(dir, depth, o);
      NoWays();
      if Opens(child, o) {
        IntoIs(dir, depth, relative, o, i);
        WaysAreOrdered(child.path, depth + 1, child.relativeStart, o, 0);
      } else {
        IntoNone(dir, depth, relative, o, i);
      }
      LaterStart(dir, depth, relative, o, i, later);
      OrderedParts(i, into, later);
    } else {
      NoWays();
    }
  }

  lemma NoWays()
    ensures Ordered([])
  {
  }

  lemma IntoNone(dir: string, depth: nat, relative: int, o: Options, i: nat)
    requires i < Width(dir, depth, o) && !Opens(Child(dir, depth, relative, o, i), o)
    ensures WaysInto(dir, depth, relative, o, i) == []
  {
  }

  lemma LaterStart(dir: string, depth: nat, relative: int, o: Options, i: nat, later: seq<Way>)
    requires forall w :: w in later ==> w != [] && Leads(dir, depth, relative, o, w) && w[0] >= i + 1
    ensures forall w :: w in later ==> w != [] && w[0] >= i + 1
  {
  }

  lemma OrderedParts(i: nat, inside: seq<Way>, later: seq<Way>)
    requires Ordered(inside) && Ordered(later)
    requires forall w :: w in inside ==> w != []
    requires forall w :: w in later ==> w != [] && w[0] >= i + 1
    ensures Ordered([[i]] + Through(i, inside) + later)
  {
    var through := Through(i, inside);
    var all := [[i]] + through + later;
    forall a, b | 0 <= a < b < |all| ensures Before(all[a], all[b]) {
      if b > |inside| {
        assert all[b] in later;
        assert a <= |inside| ==> all[a] != [] && all[a][0] == i;
      } else {
        assert all[b] == [i] + inside[b - 1] && all[b][1..] == inside[b - 1];
        if a == 0 {
          assert all[a] == [i] && all[a][1..] == [] && inside[b - 1] in inside;
        } else {
          assert all[a] == [i] + inside[a - 1] && all[a][1..] == inside[a - 1];
        }
      }
    }
  }

  // ---------- the walk, by its ways ----------

  /** The items the ways lead to, one each. */
  ghost predicate Finds(dir: string, depth: nat, relative: int, o: Options, ways: seq<Way>, items: seq<Item>) {
    && |items| == |ways|
    && forall k :: 0 <= k < |ways| ==>
         Leads(dir, depth, relative, o, ways[k]) && items[k] == ItemAt(dir, depth, relative, o, ways[k])
  }

  lemma FindsBoth(dir: string, depth: nat, relative: int, o: Options, a: seq<Way>, x: seq<Item>, b: seq<Way>,
                  y: seq<Item>)
    requires Finds(dir, depth, relative, o, a, x) && Finds(dir, depth, relative, o, b, y)
    ensures Finds(dir, depth, relative, o, a + b, x + y)
  {
    hide Leads, ItemAt;
  }

  lemma FindsHere(dir: string, depth: nat, relative: int, o: Options, i: nat)
    requires i < Width(dir, depth, o)
    ensures Finds(dir, depth, relative, o, [[i]], [Child(dir, depth, relative, o, i)])
  {
  }

  lemma FindsThrough(dir: string, depth: nat, relative: int, o: Options, i: nat, ways: seq<Way>, items: seq<Item>)
    requires i < Width(dir, depth, o) && Opens(Child(dir, depth, relative, o, i), o)
    requires var child := Child(dir, depth, relative, o, i);
             Finds(child.path, depth + 1, child.relativeStart, o, ways, items)
    ensures Finds(dir, depth, relative, o, Through(i, ways), items)
  {
    hide Child, Leads, ItemAt;
    var child := Child(dir, depth, relative, o, i);
    forall k | 0 <= k < |ways|
      ensures Leads(dir, depth, relative, o, [i] + ways[k])
      ensures items[k] == ItemAt(dir, depth, relative, o, [i] + ways[k])
    {
      LeadsNotEmpty(child.path, depth + 1, child.relativeStart, o, ways[k]);
      Enters(dir, depth, relative, o, i, ways[k]);
      ItemBeyond(dir, depth, relative, o, i, ways[k]);
    }
  }

  lemma ItemBeyond(dir: string, depth: nat, relative: int, o: Options, i: nat, way: Way)
    requires i < Width(dir, depth, o) && Opens(Child(dir, depth, relative, o, i), o) && way != []
    requires Leads(dir, depth, relative, o, [i] + way)
    ensures var child := Child(dir, depth, relative, o, i);
            && Leads(child.path, depth + 1, child.relativeStart, o, way)
            && ItemAt(dir, depth, relative, o, [i] + way) == ItemAt(child.path, depth + 1, child.relativeStart, o, way)
  {
    hide Child;
    assert ([i] + way)[1..] == way;
  }

  /** From place `i` of a directory on, the walk gives what its ways lead to. */
  lemma {:induction false} AllFinds(dir: string, depth: nat, relative: int, o: Options, i: nat)
    requires depth < o.maxDepth && o.read(dir).Entries? && i <= |o.read(dir).entries|
    ensures Finds(dir, depth, relative, o, WaysFrom(dir, depth, relative, o, i),
                  All(o.read(dir).entries[i..], dir, depth + 1, relative, o))
    decreases o.maxDepth - depth, Width(dir, depth, o) - i
  {
    hide Finds, Through, EntryOf, Below, WaysInto, Leads, ItemAt;
    var entries := o.read(dir).entries;
    if i == |entries| {
      FindsNone(dir, depth, relative, o);
    } else {
      assert entries[i..][0] == entries[i] && entries[i..][1..] == entries[i + 1..];
      var child := Child(dir, depth, relative, o, i);
      var into, inside := WaysInto(dir, depth, relative, o, i),
                          if Opens(child, o) then Below(child.path, depth + 1, child.relativeStart, o) else [];
      FindsHere(dir, depth, relative, o, i);
      if Opens(child, o) {
        BelowFinds(child.path, depth + 1, child.relativeStart, o);
        IntoIs(dir, depth, relative, o, i);
        FindsThrough(dir, depth, relative, o, i, into, inside);
      } else {
        IntoNone(dir, depth, relative, o, i);
        FindsNone(dir, depth, relative, o);
        assert Through(i, []) == [];
      }
      AllFinds(dir, depth, relative, o, i + 1);
      FindsBoth(dir, depth, relative, o, [[i]], [child], Through(i, into), inside);
      FindsBoth(dir, depth, relative, o, [[i]] + Through(i, into), [child] + inside,
                WaysFrom(dir, depth, relative, o, i + 1), All(entries[i + 1..], dir, depth + 1, relative, o));
    }
  }

  lemma FindsNone(dir: string, depth: nat, relative: int, o: Options)
    ensures Finds(dir, depth, relative, o, [], [])
  {
  }

  lemma {:induction false} BelowFinds(dir: string, depth: nat, relative: int, o: Options)
    ensures Finds(dir, depth, relative, o, WaysFrom(dir, depth, relative, o, 0), Below(dir, depth, relative, o))
    decreases o.maxDepth - depth, Width(dir, depth, o) + 1
  {
    hide Finds, All, Leads, ItemAt, EntryOf, Through;
    if depth >= o.maxDepth {
      FindsNone(dir, depth, relative, o);
    } else if o.read(dir).Unreadable? {
      FindsHere(dir, depth, relative, o, 0);
      assert WaysInto(dir, depth, relative, o, 0) == [];
      assert Through(0, []) == [];
      assert WaysFrom(dir, depth, relative, o, 1) == [];
      assert WaysFrom(dir, depth, relative, o, 0) == [[0]];
    } else {
      AllFinds(dir, depth, relative, o, 0);
      assert o.read(dir).entries[0..] == o.read(dir).entries;
    }
  }

  lemma {:induction false} NotBeforeItself(way: Way)
    ensures !Before(way, way)
    decreases |way|
  {
    if way != [] { NotBeforeItself(way[1..]); }
  }

  /** The walk of a tree: one item for each way that leads to one, and each way once, in
      order: parents before children, siblings by their places in the listing. */
  lemma WalkIsPreorder(root: string, o: Options)
    ensures var ways := Ways(root, 0, 0, o);
            && Finds(root, 0, 0, o, ways, Below(root, 0, 0, o))
            && (forall w: Way :: w in ways <==> Leads(root, 0, 0, o, w))
            && Ordered(ways)
            && (forall i, k :: 0 <= i < k < |ways| ==> ways[i] != ways[k])
  {
    hide Finds, Below, WaysFrom, Leads;
    var ways := Ways(root, 0, 0, o);
    BelowFinds(root, 0, 0, o);
    WaysLead(root, 0, 0, o, 0);
    WaysAreOrdered(root, 0, 0, o, 0);
    forall w: Way | Leads(root, 0, 0, o, w) ensures w in ways {
      LeadsNotEmpty(root, 0, 0, o, w);
      LeadingIsAWay(root, 0, 0, o, 0, w);
    }
    forall i, k | 0 <= i < k < |ways| ensures ways[i] != ways[k] {
      NotBeforeItself(ways[i]);
    }
  }

  // ---------- the names of an item, in POSIX style ----------

  /** What a system lists: names without separators. */
  ghost predicate NamesListed(o: Options) {
    forall dir: string, i: nat :: o.read(dir).Entries? && i < |o.read(dir).entries| ==>
      IsName(o.read(dir).entries[i].name, Posix, NoPrefix)
  }

  /** The names a way takes. */
  function Taken(dir: string, depth: nat, relative: int, o: Options, way: Way): seq<string>
    requires Leads(dir, depth, relative, o, way)
    decreases |way|
  {
    var child := Child(dir, depth, relative, o, way[0]);
    if child.Error? then []
    else
      [o.read(dir).entries[way[0]].name]
      + if |way| == 1 then [] else Taken(child.path, depth + 1, child.relativeStart, o, way[1..])
  }

  /** The root as it stands before the names under it. */
  function Lead(root: string): string { if root == [] || root[|root| - 1] == '/' then root else root + ['/'] }

  /** The directory at the end of `names`, those after the root. */
  ghost predicate AtNames(root: string, dir: string, relative: int, names: seq<string>) {
    if names == [] then dir == root
    else relative == |Lead(root)| && dir == Lead(root) + Joined(names, '/') && dir != [] && dir[|dir| - 1] != '/'
  }

  lemma EntryNamed(root: string, dir: string, relative: int, names: seq<string>, e: Listed, o: Options)
    requires o.style.Posix? && AtNames(root, dir, relative, names) && IsName(e.name, Posix, NoPrefix)
    ensures var item := EntryOf(e, dir, |names| + 1, relative, o);
            && AtNames(root, item.path, item.relativeStart, names + [e.name])
            && 0 <= item.nameStart <= |item.path| && item.path[item.nameStart..] == e.name
  {
    hide Pushed, Joined, AtNames;
    var path := Pushed(dir, e.name, Posix);
    PathLaws.PosixPushed(dir, e.name);
    assert !Separates(e.name[0], Posix, NoPrefix) && !Separates(e.name[|e.name| - 1], Posix, NoPrefix);
    assert path[|path| - |e.name|..] == e.name;
    if names == [] {
      FirstNamed(root, dir, relative, e.name);
    } else {
      DeeperNamed(root, dir, relative, names, e.name);
    }
  }

  lemma FirstNamed(root: string, dir: string, relative: int, name: string)
    requires AtNames(root, dir, relative, []) && name != [] && name[0] != '/' && name[|name| - 1] != '/'
    ensures var path := Pushed(dir, name, Posix);
            |name| <= |path| && AtNames(root, path, |path| - |name|, [] + [name])
  {
    hide Pushed;
    PathLaws.PosixPushed(root, name);
    assert [] + [name] == [name];
  }

  lemma DeeperNamed(root: string, dir: string, relative: int, names: seq<string>, name: string)
    requires AtNames(root, dir, relative, names) && names != [] && name != [] && name[|name| - 1] != '/'
    ensures dir != [] && dir[|dir| - 1] != '/' && AtNames(root, dir + ['/'] + name, relative, names + [name])
  {
    hide Joined, Lead;
    PathBuffer.JoinedMore(names, name, '/');
    var path := dir + ['/'] + name;
    assert path == Lead(root) + (Joined(names, '/') + ['/'] + name);
  }

  lemma {:induction false} ItemNamed(root: string, dir: string, relative: int, o: Options, way: Way,
                                     names: seq<string>)
    requires o.style.Posix? && NamesListed(o) && AtNames(root, dir, relative, names)
    requires Leads(dir, |names|, relative, o, way)
    ensures var item, all := ItemAt(dir, |names|, relative, o, way), names + Taken(dir, |names|, relative, o, way);
            if item.Error? then
              |all| == |names| + |way| - 1 < o.maxDepth && o.read(item.path) == Unreadable(item.code)
              && exists at :: AtNames(root, item.path, at, all)
            else
              && |all| == item.depth == |names| + |way| <= o.maxDepth
              && AtNames(root, item.path, item.relativeStart, all)
              && 0 <= item.nameStart <= |item.path| && item.path[item.nameStart..] == all[|all| - 1]
    decreases |way|
  {
    hide AtNames, EntryOf, ItemAt, Taken, Leads, Child, Width, NamesListed;
    WayUnfolds(dir, |names|, relative, o, way);
    ChildIs(dir, |names|, relative, o, way[0]);
    NamesUnfold(dir, |names|, relative, o, way);
    var child := Child(dir, |names|, relative, o, way[0]);
    if child.Entry? {
      var e := o.read(dir).entries[way[0]];
      ListedIsName(o, dir, way[0]);
      EntryNamed(root, dir, relative, names, e, o);
      if |way| > 1 {
        ItemNamed(root, child.path, child.relativeStart, o, way[1..], names + [e.name]);
        var more := Taken(child.path, |names| + 1, child.relativeStart, o, way[1..]);
        assert names + [e.name] + more == names + ([e.name] + more);
      }
    } else {
      assert names + [] == names;
    }
  }

  lemma ListedIsName(o: Options, dir: string, i: nat)
    requires NamesListed(o) && o.read(dir).Entries? && i < |o.read(dir).entries|
    ensures IsName(o.read(dir).entries[i].name, Posix, NoPrefix)
  {
  }

  lemma ChildIs(dir: string, depth: nat, relative: int, o: Options, i: nat)
    requires i < Width(dir, depth, o)
    ensures depth < o.maxDepth
    ensures var child := Child(dir, depth, relative, o, i);
            if child.Error? then child.path == dir && o.read(dir) == Unreadable(child.code)
            else
              && o.read(dir).Entries? && i < |o.read(dir).entries|
              && child == EntryOf(o.read(dir).entries[i], dir, depth + 1, relative, o) && child.depth == depth + 1
  {
    hide Pushed;
  }

  /** The first step of a way. */
  lemma {:induction false} WayUnfolds(dir: string, depth: nat, relative: int, o: Options, way: Way)
    requires Leads(dir, depth, relative, o, way)
    ensures way != [] && way[0] < Width(dir, depth, o)
    ensures var child := Child(dir, depth, relative, o, way[0]);
            && (|way| == 1 ==> ItemAt(dir, depth, relative, o, way) == child)
            && (|way| > 1 ==>
                  && child.Entry? && Leads(child.path, depth + 1, child.relativeStart, o, way[1..])
                  && ItemAt(dir, depth, relative, o, way) ==
                     ItemAt(child.path, depth + 1, child.relativeStart, o, way[1..]))
  {
    hide Child, Width;
  }

  lemma {:induction false} NamesUnfold(dir: string, depth: nat, relative: int, o: Options, way: Way)
    requires Leads(dir, depth, relative, o, way) && way != [] && way[0] < Width(dir, depth, o)
    ensures var child := Child(dir, depth, relative, o, way[0]);
            && (child.Error? ==> |way| == 1 && Taken(dir, depth, relative, o, way) == [])
            && (child.Entry? ==>
                  && o.read(dir).Entries? && way[0] < |o.read(dir).entries|
                  && var name := o.read(dir).entries[way[0]].name;
                  && (|way| == 1 ==> Taken(dir, depth, relative, o, way) == [name])
                  && (|way| > 1 ==>
                        && Leads(child.path, depth + 1, child.relativeStart, o, way[1..])
                        && Taken(dir, depth, relative, o, way) ==
                           [name] + Taken(child.path, depth + 1, child.relativeStart, o, way[1..])))
  {
    hide Child, Width;
    ChildIs(dir, depth, relative, o, way[0]);
  }

  /** Each item of a walk: an entry's depth is how many names lead to it, its name the last of
      them, its path the root and them all, and what it is relative to the root those names
      alone; an error is of the directory at its names. None is too deep. */
  lemma EntryNames(root: string, o: Options, way: Way)
    requires o.style.Posix? && NamesListed(o) && Leads(root, 0, 0, o, way)
    ensures var item, names := ItemAt(root, 0, 0, o, way), Taken(root, 0, 0, o, way);
            && item.path == (if names == [] then root else Lead(root) + Joined(names, '/'))
            && if item.Error? then |names| == |way| - 1 < o.maxDepth && o.read(item.path) == Unreadable(item.code)
               else
                 && item.depth == |way| == |names| <= o.maxDepth
                 && 0 <= item.relativeStart <= |item.path| && item.path[item.relativeStart..] == Joined(names, '/')
                 && 0 <= item.nameStart <= |item.path| && item.path[item.nameStart..] == names[|names| - 1]
  {
    hide ItemAt, Taken, Joined;
    assert AtNames(root, root, 0, []);
    ItemNamed(root, root, 0, o, way, []);
    assert [] + Taken(root, 0, 0, o, way) == Taken(root, 0, 0, o, way);
  }
}
