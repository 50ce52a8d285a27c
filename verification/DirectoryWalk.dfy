/** Walking the tree under a directory, depth first, with one list shared by all levels. */
module DirectoryWalk {
  import opened PathSpec

  datatype FileType = Regular | Folder | Symlink | Unknown

  /** One line of a listing. */
  datatype Listed = Listed(name: string, kind: FileType)

  datatype Listing = Entries(entries: seq<Listed>) | Unreadable(code: int)

  datatype Item =
    | Entry(path: string, depth: nat, kind: FileType, nameStart: int, relativeStart: int)
    | Error(path: string, code: int)

  /** What the walk is given: how directories list, of which entries the caller asks to skip
      the contents, the style of its paths and how deep to go. */
  datatype Options = Options(read: string -> Listing, skips: Item -> bool, style: Style, maxDepth: nat)

  // ---------- what a walk gives ----------

  /** What the directory at `dir` holds, its own depth being `depth`. */
  function Below(dir: string, depth: nat, relative: int, o: Options): seq<Item>
    decreases o.maxDepth - depth, 1, 0
  {
    if depth >= o.maxDepth then []
    else
      var listing := o.read(dir);
      if listing.Unreadable? then [Error(dir, listing.code)]
      else All(listing.entries, dir, depth + 1, relative, o)
  }

  /** The entry of the directory `dir`. */
  function EntryOf(e: Listed, dir: string, depth: nat, relative: int, o: Options): (item: Item)
    ensures item.Entry? && item.kind == e.kind
  {
    var path := Pushed(dir, e.name, o.style);
    var start := |path| - |e.name|;
    Entry(path, depth, e.kind, start, if depth == 1 then start else relative)
  }

  /** The entries of a directory in the order listed, each before what it holds. */
  function All(entries: seq<Listed>, dir: string, depth: nat, relative: int, o: Options): seq<Item>
    decreases o.maxDepth - depth, 2, |entries|
  {
    if entries == [] then []
    else
      var item := EntryOf(entries[0], dir, depth, relative, o);
      [item]
      + (if item.kind.Folder? && !o.skips(item) then Below(item.path, depth, item.relativeStart, o) else [])
      + All(entries[1..], dir, depth, relative, o)
  }

  // ---------- levels ----------

  datatype Level = Level(path: string, listed: nat)

  /** A directory being walked and its entries still to reach. */
  datatype Frame = Frame(path: string, entries: seq<Listed>)

  function Reversed(s: seq<Listed>): (r: seq<Listed>)
    ensures |r| == |s| && forall i :: 0 <= i < |s| ==> r[i] == s[|s| - 1 - i]
  {
    seq(|s|, i requires 0 <= i < |s| => s[|s| - 1 - i])
  }

  /** The shared list holds each frame's entries, the last first, the innermost's at the end. */
  ghost predicate Shares(frames: seq<Frame>, levels: seq<Level>, listed: seq<Listed>)
    decreases |frames|
  {
    |levels| == |frames| &&
    if frames == [] then listed == []
    else
      var n := |frames| - 1;
      var start := levels[n].listed;
      && levels[n].path == frames[n].path
      && start <= |listed| && listed[start..] == Reversed(frames[n].entries)
      && Shares(frames[..n], levels[..n], listed[..start])
  }

  /** What the levels still give, the innermost first. */
  ghost function Ahead(frames: seq<Frame>, relative: int, o: Options): seq<Item>
    decreases |frames|
  {
    if frames == [] then []
    else
      var n := |frames| - 1;
      All(frames[n].entries, frames[n].path, n + 1, relative, o) + Ahead(frames[..n], relative, o)
  }

  datatype Reached = At(entry: Listed) | Nowhere

  class Walk {
    const root: string
    const options: Options
    var listed: seq<Listed>
    var levels: seq<Level>
    var reached: Reached
    var relativeStart: int
    var current: Item
    var skipped: bool
    var done: bool
    ghost var frames: seq<Frame>

    ghost predicate Valid()
      reads this
    {
      Shares(frames, levels, listed) && |frames| == |levels| <= options.maxDepth
    }

    /** The directory the walk stands on, if it stands on one. */
    ghost function Inside(): string
      reads this
      requires Valid() && reached.At?
    {
      if frames == [] then root else Pushed(frames[|frames| - 1].path, reached.entry.name, options.style)
    }

    /** What the walk is still to give, if the contents of the entry it stands on are skipped
        or not. */
    ghost function Upcoming(skip: bool): seq<Item>
      reads this
      requires Valid()
    {
      (if reached.At? && reached.entry.kind.Folder? && !skip
       then Below(Inside(), |frames|, relativeStart, options) else [])
      + Ahead(frames, relativeStart, options)
    }

    constructor (root: string, options: Options)
      ensures Valid() && !done && !skipped && Upcoming(false) == Below(root, 0, 0, options)
      ensures this.root == root && this.options == options
    {
      this.root, this.options := root, options;
      listed, levels, frames, reached := [], [], [], At(Listed([], Folder));
      relativeStart, current, skipped, done := 0, Error([], 0), false, false;
    }

    /** Asks not to go into the entry just given. */
    method Skip()
      modifies this`skipped
      ensures skipped
    {
      skipped := true;
    }

    /** Reads the directory the walk stands on; false when it cannot be read. */
    method Enter() returns (entered: bool)
      requires Valid() && reached.At? && reached.entry.kind.Folder? && |levels| < options.maxDepth
      modifies this`listed, this`levels, this`frames, this`reached, this`current
      ensures Valid()
      ensures entered ==> old(Upcoming(false)) == Ahead(frames, relativeStart, options)
      ensures !entered ==>
                reached.Nowhere? && frames == old(frames) && old(Upcoming(false)) == [current] + Upcoming(true)
    {
      hide Ahead, All, Pushed;
      var path := root;
      if levels != [] {
        path := Pushed(levels[|levels| - 1].path, reached.entry.name, options.style);
      }
      var start := |listed|;
      var listing := options.read(path);
      if listing.Unreadable? {
        reached := Nowhere;
        current := Error(path, listing.code);
        return false;
      }
      // The list is taken from its end, so a listing goes in backwards.
      ShareMore(frames, levels, listed, path, listing.entries);
      AheadMore(frames, Frame(path, listing.entries), relativeStart, options);
      listed := listed + Reversed(listing.entries);
      levels := levels + [Level(path, start)];
      frames := frames + [Frame(path, listing.entries)];
      return true;
    }

    /** Leaves the levels whose entries have all been reached. */
    method Leave()
      requires Valid()
      modifies this`levels, this`frames
      ensures Valid() && Ahead(frames, relativeStart, options) == old(Ahead(frames, relativeStart, options))
      ensures frames != [] ==> frames[|frames| - 1].entries != []
    {
      hide All;
      while levels != [] && |listed| == levels[|levels| - 1].listed
        invariant Valid() && Ahead(frames, relativeStart, options) == old(Ahead(frames, relativeStart, options))
        decreases |levels|
      {
        AheadLess(frames, relativeStart, options);
        assert listed[..|listed|] == listed;
        levels := levels[..|levels| - 1];
        frames := frames[..|frames| - 1];
      }
    }

    /** Goes on to the next entry. */
    method Reach()
      requires Valid() && frames != [] && frames[|frames| - 1].entries != []
      modifies this`listed, this`frames, this`reached, this`relativeStart, this`current
      ensures Valid() && current.Entry?
      ensures old(Ahead(frames, relativeStart, options)) == [current] + Upcoming(options.skips(current))
    {
      hide Ahead, All, Pushed, Below, Shares, EntryOf;
      var n := |levels|;
      ghost var frame := frames[n - 1];
      ghost var rest := Frame(frame.path, frame.entries[1..]);
      ShareLess(frames, levels, listed, rest);
      reached := At(listed[|listed| - 1]);
      listed := listed[..|listed| - 1];
      var path := Pushed(levels[n - 1].path, reached.entry.name, options.style);
      var nameStart := |path| - |reached.entry.name|;
      ghost var before := relativeStart;
      if n == 1 {
        relativeStart := nameStart;
      }
      current := Entry(path, n, reached.entry.kind, nameStart, relativeStart);
      assert current == EntryOf(frame.entries[0], frame.path, n, before, options) by {
        EntryIs(frame.entries[0], frame.path, n, before, options);
      }
      AheadNext(frames, rest, before, options);
      frames := frames[..n - 1] + [rest];
      AheadSame(frames, before, relativeStart, options);
    }

    /** Goes on: what was upcoming is the item reached and what is upcoming from it, its
        contents skipped as the caller then asks. */
    method Advance()
      requires Valid() && !done
      modifies this
      ensures Valid() && !skipped
      ensures done ==> old(Upcoming(skipped)) == []
      ensures !done ==> old(Upcoming(skipped)) == [current] + Upcoming(options.skips(current))
    {
      hide Shares, Ahead, Pushed, All;
      ghost var upcoming := Upcoming(skipped);
      if reached.At? && reached.entry.kind == Folder && !skipped && |levels| < options.maxDepth {
        var entered := Enter();
        if !entered {
          return;
        }
      } else {
        assert [] + Ahead(frames, relativeStart, options) == Ahead(frames, relativeStart, options);
      }
      skipped := false;
      assert Ahead(frames, relativeStart, options) == upcoming;
      Leave();
      if levels == [] {
        NoneAhead(relativeStart, options);
        done := true;
        return;
      }
      Reach();
    }
  }

  lemma EntryIs(e: Listed, dir: string, depth: nat, relative: int, o: Options)
    ensures var path := Pushed(dir, e.name, o.style);
            var start := |path| - |e.name|;
            EntryOf(e, dir, depth, relative, o) ==
            Entry(path, depth, e.kind, start, if depth == 1 then start else relative)
  {
    hide Pushed;
  }

  lemma NoneAhead(relative: int, o: Options)
    ensures Ahead([], relative, o) == []
  {
  }

  lemma ShareMore(frames: seq<Frame>, levels: seq<Level>, listed: seq<Listed>, path: string, entries: seq<Listed>)
    requires Shares(frames, levels, listed)
    ensures Shares(frames + [Frame(path, entries)], levels + [Level(path, |listed|)], listed + Reversed(entries))
  {
    var f, l, all := frames + [Frame(path, entries)], levels + [Level(path, |listed|)], listed + Reversed(entries);
    assert f[..|frames|] == frames && l[..|levels|] == levels && all[..|listed|] == listed;
    assert all[|listed|..] == Reversed(entries);
  }

  /** The last listed is the innermost frame's next entry. */
  lemma {:induction false} ShareLess(frames: seq<Frame>, levels: seq<Level>, listed: seq<Listed>, rest: Frame)
    requires Shares(frames, levels, listed) && frames != []
    requires var frame := frames[|frames| - 1]; frame.entries != [] && rest == Frame(frame.path, frame.entries[1..])
    ensures |levels| == |frames| && levels[|levels| - 1].path == rest.path
    ensures listed != [] && listed[|listed| - 1] == frames[|frames| - 1].entries[0]
    ensures Shares(frames[..|frames| - 1] + [rest], levels, listed[..|listed| - 1])
  {
    var n := |frames| - 1;
    var start := levels[n].listed;
    var f, less := frames[..n] + [rest], listed[..|listed| - 1];
    var tail := listed[start..];
    assert tail == Reversed(frames[n].entries);
    assert listed[|listed| - 1] == tail[|tail| - 1];
    assert less[start..] == tail[..|tail| - 1];
    assert tail[..|tail| - 1] == Reversed(rest.entries);
    assert f[..n] == frames[..n] && less[..start] == listed[..start];
  }

  lemma AheadMore(frames: seq<Frame>, frame: Frame, relative: int, o: Options)
    ensures Ahead(frames + [frame], relative, o) ==
            All(frame.entries, frame.path, |frames| + 1, relative, o) + Ahead(frames, relative, o)
  {
    hide All;
    assert (frames + [frame])[..|frames|] == frames;
  }

  lemma AheadLess(frames: seq<Frame>, relative: int, o: Options)
    requires frames != [] && frames[|frames| - 1].entries == []
    ensures Ahead(frames, relative, o) == Ahead(frames[..|frames| - 1], relative, o)
  {
  }

  /** The innermost frame's next entry comes first, then what it holds. */
  lemma AheadNext(frames: seq<Frame>, rest: Frame, relative: int, o: Options)
    requires frames != [] && frames[|frames| - 1].entries != []
    requires rest == Frame(frames[|frames| - 1].path, frames[|frames| - 1].entries[1..])
    ensures var n := |frames|;
            var item := EntryOf(frames[n - 1].entries[0], frames[n - 1].path, n, relative, o);
            Ahead(frames, relative, o) ==
            [item]
            + ((if item.kind.Folder? && !o.skips(item) then Below(item.path, n, item.relativeStart, o) else [])
               + Ahead(frames[..n - 1] + [rest], relative, o))
  {
    hide Below, EntryOf, Ahead;
    var n := |frames|;
    var frame := frames[n - 1];
    var item := EntryOf(frame.entries[0], frame.path, n, relative, o);
    var inside := if item.kind.Folder? && !o.skips(item) then Below(item.path, n, item.relativeStart, o) else [];
    AheadMore(frames[..n - 1], frame, relative, o);
    AheadMore(frames[..n - 1], rest, relative, o);
    assert frames[..n - 1] + [frame] == frames;
    Regroup([item], inside, All(rest.entries, frame.path, n, relative, o), Ahead(frames[..n - 1], relative, o));
  }

  lemma Regroup(a: seq<Item>, b: seq<Item>, c: seq<Item>, d: seq<Item>)
    ensures (a + b + c) + d == a + (b + (c + d))
  {
  }

  lemma {:induction false} AllFirst(entries: seq<Listed>, dir: string, a: int, b: int, o: Options)
    ensures All(entries, dir, 1, a, o) == All(entries, dir, 1, b, o)
    decreases |entries|
  {
    hide Below, Pushed;
    if entries != [] { AllFirst(entries[1..], dir, a, b, o); }
  }

  /** Entries of the root do not depend on where names started before. */
  lemma AheadSame(frames: seq<Frame>, a: int, b: int, o: Options)
    requires a == b || |frames| <= 1
    ensures Ahead(frames, a, o) == Ahead(frames, b, o)
  {
    hide All;
    if |frames| == 1 {
      AllFirst(frames[0].entries, frames[0].path, a, b, o);
      assert frames[..0] == [];
      NoneAhead(a, o);
      NoneAhead(b, o);
    }
  }

  lemma Shift(a: seq<Item>, x: Item, b: seq<Item>)
    ensures a + ([x] + b) == a + [x] + b
  {
  }

  /** A whole walk: every item of the tree cut at the depth and at what the caller skips. */
  method WalkAll(root: string, options: Options) returns (items: seq<Item>)
    ensures items == Below(root, 0, 0, options)
  {
    hide Below, Shares, Ahead, EntryOf, Pushed;
    var walk := new Walk(root, options);
    items := [];
    ghost var left := walk.Upcoming(false);
    walk.Advance();
    while !walk.done
      invariant fresh(walk) && walk.Valid() && walk.options == options && !walk.skipped
      invariant Below(root, 0, 0, options) == items + left
      invariant if walk.done then left == [] else left == [walk.current] + walk.Upcoming(options.skips(walk.current))
      decreases |left|
    {
      ghost var beyond := walk.Upcoming(options.skips(walk.current));
      Shift(items, walk.current, beyond);
      items := items + [walk.current];
      left := beyond;
      if options.skips(walk.current) {
        walk.Skip();
      }
      walk.Advance();
    }
  }
}
