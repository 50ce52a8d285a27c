/** What POSIX paths mean, and what normalizing, joining and relating them keep of it. */
module PathLaws {
  import opened PathSpec

  // ---------- names and text ----------

  predicate AllNames(names: seq<string>) { forall i :: 0 <= i < |names| ==> IsName(names[i], Posix, NoPrefix) }

  function PosixNames(p: string): seq<string> { Names(p, 0, Posix, NoPrefix) }

  predicate StartsAtRoot(p: string) { p != [] && p[0] == '/' }

  lemma {:induction false} SkipSeparators(p: string, at: nat, end: nat)
    requires at <= end <= |p| && forall i :: at <= i < end ==> p[i] == '/'
    ensures Names(p, at, Posix, NoPrefix) == Names(p, end, Posix, NoPrefix)
    decreases end - at
  {
    if at < end { SkipSeparators(p, at + 1, end); }
  }

  lemma PosixRoot(p: string)
    ensures NamesOf(p, Posix) == PosixNames(p)
    ensures Rooted(RootOf(p, Posix)) == IsAbsolute(p, Posix) == StartsAtRoot(p)
  {
    hide Names;
    var r := RootOf(p, Posix);
    assert forall i :: 0 <= i < r.end ==> Separates(p[i], Posix, NoPrefix);
    SkipSeparators(p, 0, r.end);
  }

  lemma {:induction false} NamesAreNames(p: string, at: nat)
    requires at <= |p|
    ensures AllNames(Names(p, at, Posix, NoPrefix))
    decreases |p| - at
  {
    if at < |p| {
      if Separates(p[at], Posix, NoPrefix) {
        NamesAreNames(p, at + 1);
      } else {
        NamesAreNames(p, NameEnd(p, at, Posix, NoPrefix));
      }
    }
  }

  lemma {:induction false} EndIs(p: string, at: nat, end: nat)
    requires at <= end <= |p| && (forall i :: at <= i < end ==> p[i] != '/') && (end == |p| || p[end] == '/')
    ensures NameEnd(p, at, Posix, NoPrefix) == end
    decreases end - at
  {
    if at < end { EndIs(p, at + 1, end); }
  }

  lemma {:induction false} NamesOfTail(a: string, b: string, at: nat)
    requires at <= |b|
    ensures Names(a + b, |a| + at, Posix, NoPrefix) == Names(b, at, Posix, NoPrefix)
    decreases |b| - at
  {
    var p := a + b;
    if at < |b| {
      assert p[|a| + at] == b[at];
      if b[at] == '/' {
        NamesOfTail(a, b, at + 1);
      } else {
        var end := NameEnd(b, at, Posix, NoPrefix);
        NameInTail(a, b, at, end);
        NamesOfTail(a, b, end);
      }
    }
  }

  lemma NameInTail(a: string, b: string, at: nat, end: nat)
    requires at <= |b| && end == NameEnd(b, at, Posix, NoPrefix)
    ensures NameEnd(a + b, |a| + at, Posix, NoPrefix) == |a| + end
    ensures (a + b)[|a| + at..|a| + end] == b[at..end]
  {
    var p := a + b;
    forall i | |a| + at <= i < |a| + end ensures p[i] != '/' {
      assert p[i] == b[i - |a|] && !Separates(b[i - |a|], Posix, NoPrefix);
    }
    if end < |b| { assert p[|a| + end] == b[end]; }
    EndIs(p, |a| + at, |a| + end);
  }

  lemma {:induction false} NamesOfHead(a: string, b: string, at: nat)
    requires at <= |a| && StartsAtRoot(b)
    ensures Names(a + b, at, Posix, NoPrefix) == Names(a, at, Posix, NoPrefix) + PosixNames(b)
    decreases |a| - at
  {
    var p := a + b;
    if at == |a| {
      NamesOfTail(a, b, 0);
    } else {
      assert p[at] == a[at];
      if a[at] == '/' {
        NamesOfHead(a, b, at + 1);
      } else {
        var end := NameEnd(a, at, Posix, NoPrefix);
        NameInHead(a, b, at, end);
        NamesOfHead(a, b, end);
      }
    }
  }

  lemma NameInHead(a: string, b: string, at: nat, end: nat)
    requires at <= |a| && StartsAtRoot(b) && end == NameEnd(a, at, Posix, NoPrefix)
    ensures NameEnd(a + b, at, Posix, NoPrefix) == end && (a + b)[at..end] == a[at..end]
  {
    var p := a + b;
    forall i | at <= i < end ensures p[i] != '/' {
      assert p[i] == a[i] && !Separates(a[i], Posix, NoPrefix);
    }
    assert p[end] == if end < |a| then a[end] else b[0];
    EndIs(p, at, end);
  }

  /** The names of two texts with a separator between them. */
  lemma NamesOfConcat(a: string, b: string)
    ensures PosixNames(a + ['/'] + b) == PosixNames(a) + PosixNames(b)
  {
    hide Names;
    assert a + ['/'] + b == a + (['/'] + b);
    NamesOfHead(a, ['/'] + b, 0);
    SkipSeparators(['/'] + b, 0, 1);
    NamesOfTail(['/'], b, 0);
  }

  lemma NamesOfName(s: string)
    requires IsName(s, Posix, NoPrefix)
    ensures PosixNames(s) == [s]
  {
    assert forall i :: 0 <= i < |s| ==> !Separates(s[i], Posix, NoPrefix);
    EndIs(s, 0, |s|);
    assert Names(s, |s|, Posix, NoPrefix) == [];
    assert s[0..|s|] == s;
  }

  /** Names written with separators between them read back. */
  lemma {:induction false} NamesOfJoined(names: seq<string>)
    requires AllNames(names)
    ensures PosixNames(Joined(names, '/')) == names
    ensures names != [] ==> Joined(names, '/') != [] && Joined(names, '/')[0] == names[0][0] && names[0][0] != '/'
    decreases |names|
  {
    hide Names;
    if names == [] {
      NoNames();
    } else {
      NamesOfName(names[0]);
      assert !Separates(names[0][0], Posix, NoPrefix);
      if |names| > 1 {
        NamesOfJoined(names[1..]);
        NamesOfConcat(names[0], Joined(names[1..], '/'));
      }
    }
  }

  lemma NoNames()
    ensures PosixNames([]) == []
  {
  }

  /** The text of a path by its root and names, and how it reads. */
  function TextOf(rooted: bool, names: seq<string>): string { (if rooted then "/" else "") + Joined(names, '/') }

  lemma TextReads(rooted: bool, names: seq<string>)
    requires AllNames(names)
    ensures PosixNames(TextOf(rooted, names)) == names
    ensures StartsAtRoot(TextOf(rooted, names)) <==> rooted
  {
    hide Names;
    NamesOfJoined(names);
    var text := Joined(names, '/');
    if rooted {
      NamesOfConcat([], text);
      NoNames();
      assert [] + ['/'] + text == "/" + text;
    } else {
      assert TextOf(rooted, names) == text;
    }
  }

  // ---------- normal forms ----------

  function Kept(p: string, mode: DotDot): seq<string> { KeepAll([], PosixNames(p), mode, StartsAtRoot(p)) }

  lemma PosixNormal(p: string, mode: DotDot)
    ensures Normal(p, mode, Posix) ==
            if p == [] then []
            else if !StartsAtRoot(p) && Kept(p, mode) == [] then "."
            else TextOf(StartsAtRoot(p), Kept(p, mode))
    ensures AllNames(Kept(p, mode))
  {
    hide Names, KeepAll, RootOf;
    PosixRoot(p);
    NamesAreNames(p, 0);
    KeptAreNames([], PosixNames(p), mode, StartsAtRoot(p));
    NamesOfJoined(Kept(p, mode));
    if p != [] {
      var r := RootOf(p, Posix);
      assert PrefixText(p[..r.name], r.prefix, Posix, '/') == [];
    }
  }

  lemma {:induction false} KeptAreNames(kept: seq<string>, names: seq<string>, mode: DotDot, stops: bool)
    requires AllNames(kept) && AllNames(names)
    ensures AllNames(KeepAll(kept, names, mode, stops))
    decreases |names|
  {
    if names != [] { KeptAreNames(KeepName(kept, names[0], mode, stops), names[1..], mode, stops); }
  }

  /** Names no rule removes: no `.`, and when folding, `..` only first and past no root. */
  predicate Canonical(names: seq<string>, mode: DotDot, stops: bool) {
    && "." !in names
    && (mode.Fold? ==> forall i :: 0 <= i < |names| && names[i] == ".." ==>
                         !stops && (i > 0 ==> names[i - 1] == ".."))
  }

  lemma {:induction false} KeptIsCanonical(kept: seq<string>, names: seq<string>, mode: DotDot, stops: bool)
    requires Canonical(kept, mode, stops)
    ensures Canonical(KeepAll(kept, names, mode, stops), mode, stops)
    decreases |names|
  {
    if names != [] {
      KeepNameCanonical(kept, names[0], mode, stops);
      KeptIsCanonical(KeepName(kept, names[0], mode, stops), names[1..], mode, stops);
    }
  }

  lemma KeepNameCanonical(kept: seq<string>, name: string, mode: DotDot, stops: bool)
    requires Canonical(kept, mode, stops)
    ensures Canonical(KeepName(kept, name, mode, stops), mode, stops)
  {
    var after := KeepName(kept, name, mode, stops);
    forall i | 0 <= i < |after| ensures after[i] != "." {
      if i < |kept| { assert after[i] == kept[i] && kept[i] in kept; }
    }
  }

  lemma {:induction false} CanonicalIsKept(kept: seq<string>, names: seq<string>, mode: DotDot, stops: bool)
    requires Canonical(kept + names, mode, stops)
    ensures KeepAll(kept, names, mode, stops) == kept + names
    decreases |names|
  {
    if names == [] {
      assert kept + names == kept;
    } else {
      var all := kept + names;
      assert all[|kept|] == names[0] && names[0] in all;
      if kept != [] { assert all[|kept| - 1] == kept[|kept| - 1]; }
      assert KeepName(kept, names[0], mode, stops) == kept + [names[0]];
      assert kept + [names[0]] + names[1..] == all;
      CanonicalIsKept(kept + [names[0]], names[1..], mode, stops);
    }
  }

  /** Normalizing twice is normalizing once. */
  lemma NormalIsFixed(p: string, mode: DotDot)
    ensures Normal(Normal(p, mode, Posix), mode, Posix) == Normal(p, mode, Posix)
  {
    hide Names, KeepAll, RootOf, Normal, Joined;
    var n := Normal(p, mode, Posix);
    PosixNormal(p, mode);
    PosixNormal(n, mode);
    NormalReads(p, mode);
    if p != [] {
      KeptAgain(p, mode);
    }
  }

  lemma DotReads()
    ensures PosixNames(".") == ["."]
  {
    NamesOfName(".");
  }

  /** How a normal form reads. */
  lemma NormalReads(p: string, mode: DotDot)
    ensures StartsAtRoot(Normal(p, mode, Posix)) == StartsAtRoot(p)
    ensures p != [] ==> Normal(p, mode, Posix) != []
    ensures PosixNames(Normal(p, mode, Posix)) ==
            if p != [] && !StartsAtRoot(p) && Kept(p, mode) == [] then ["."] else Kept(p, mode)
  {
    hide Names, KeepAll, RootOf, Normal;
    PosixNormal(p, mode);
    if p == [] {
      NoNames();
      KeepNone([], mode, false);
    } else {
      TextReads(StartsAtRoot(p), Kept(p, mode));
      NamesOfJoined(Kept(p, mode));
      DotReads();
    }
  }

  lemma KeepNone(kept: seq<string>, mode: DotDot, stops: bool)
    ensures KeepAll(kept, [], mode, stops) == kept
    ensures KeepAll(kept, ["."], mode, stops) == kept
  {
    assert ["."][1..] == [];
  }

  lemma KeptAgain(p: string, mode: DotDot)
    requires p != []
    ensures Kept(Normal(p, mode, Posix), mode) == Kept(p, mode)
  {
    hide Names, KeepAll, RootOf, Normal;
    NormalReads(p, mode);
    KeepNone([], mode, StartsAtRoot(p));
    var kept := Kept(p, mode);
    KeptIsCanonical([], PosixNames(p), mode, StartsAtRoot(p));
    assert [] + kept == kept;
    CanonicalIsKept([], kept, mode, StartsAtRoot(p));
  }

  // ---------- directories ----------

  /** A directory, by the names that lead to it from the root. */
  type Directory = seq<string>

  /** One name taken: `..` as text says, stopping at the root. */
  function Enter(dir: Directory, name: string): Directory {
    if name == "." then dir
    else if name == ".." then (if dir == [] then [] else dir[..|dir| - 1])
    else dir + [name]
  }

  function EnterAll(dir: Directory, names: seq<string>): Directory
    decreases |names|
  {
    if names == [] then dir else EnterAll(Enter(dir, names[0]), names[1..])
  }

  /** The directory a path names from `start`. */
  function Named(p: string, start: Directory): Directory {
    EnterAll(if StartsAtRoot(p) then [] else start, PosixNames(p))
  }

  lemma {:induction false} EnterConcat(dir: Directory, a: seq<string>, b: seq<string>)
    ensures EnterAll(dir, a + b) == EnterAll(EnterAll(dir, a), b)
    decreases |a|
  {
    if a == [] {
      assert a + b == b;
    } else {
      assert (a + b)[1..] == a[1..] + b;
      EnterConcat(Enter(dir, a[0]), a[1..], b);
    }
  }

  lemma EnterLast(dir: Directory, a: seq<string>, name: string)
    ensures EnterAll(dir, a + [name]) == Enter(EnterAll(dir, a), name)
  {
    EnterConcat(dir, a, [name]);
    assert [name][1..] == [];
    assert EnterAll(Enter(EnterAll(dir, a), name), []) == Enter(EnterAll(dir, a), name);
  }

  lemma KeepNameKeepsDirectory(start: Directory, kept: seq<string>, name: string, mode: DotDot, stops: bool)
    requires Canonical(kept, mode, stops) && (stops ==> start == [])
    ensures EnterAll(start, KeepName(kept, name, mode, stops)) == Enter(EnterAll(start, kept), name)
  {
    var n := |kept|;
    if name == ".." && mode.Fold? && kept != [] && kept[n - 1] != ".." {
      assert kept[n - 1] in kept;
      assert kept == kept[..n - 1] + [kept[n - 1]];
      EnterLast(start, kept[..n - 1], kept[n - 1]);
    } else if name == ".." && mode.Fold? && stops {
      assert kept == [];
    } else if name != "." {
      EnterLast(start, kept, name);
    }
  }

  lemma {:induction false} KeepAllKeepsDirectory(start: Directory, kept: seq<string>, names: seq<string>,
                                                 mode: DotDot, stops: bool)
    requires Canonical(kept, mode, stops) && (stops ==> start == [])
    ensures EnterAll(start, KeepAll(kept, names, mode, stops)) == EnterAll(EnterAll(start, kept), names)
    decreases |names|
  {
    hide Canonical, KeepName;
    if names != [] {
      KeepNameKeepsDirectory(start, kept, names[0], mode, stops);
      KeepNameCanonical(kept, names[0], mode, stops);
      KeepAllKeepsDirectory(start, KeepName(kept, names[0], mode, stops), names[1..], mode, stops);
    }
  }

  /** A normal form names the same directory, from every start. */
  lemma NormalNamesTheSame(p: string, mode: DotDot, start: Directory)
    ensures Named(Normal(p, mode, Posix), start) == Named(p, start)
  {
    hide Names, KeepAll, Normal;
    NormalReads(p, mode);
    var from := if StartsAtRoot(p) then [] else start;
    KeepAllKeepsDirectory(from, [], PosixNames(p), mode, StartsAtRoot(p));
    assert EnterAll(from, []) == from;
    assert EnterAll(from, ["."]) == EnterAll(from, []) by { assert ["."][1..] == []; }
  }

  // ---------- joining ----------

  lemma PosixPushed(base: string, p: string)
    ensures Pushed(base, p, Posix) ==
            if base == [] || StartsAtRoot(p) then p
            else if p == [] || base[|base| - 1] == '/' then base + p
            else base + ['/'] + p
  {
    hide Names;
    PosixRoot(p);
    PosixRoot(base);
    if !(base == [] || StartsAtRoot(p)) {
      assert p[0..] == p;
      assert LastSeparator(base, Posix, SeparatorOf(p, NoPrefix, Posix, '/')) == '/';
      assert base + [] + p == base + p;
    }
  }

  /** Joined onto a path, a relative one's names follow. */
  lemma PushedReads(base: string, p: string)
    requires base != [] && !StartsAtRoot(p)
    ensures PosixNames(Pushed(base, p, Posix)) == PosixNames(base) + PosixNames(p)
    ensures StartsAtRoot(Pushed(base, p, Posix)) == StartsAtRoot(base)
    ensures Pushed(base, p, Posix) != []
  {
    hide Names, Pushed;
    PosixPushed(base, p);
    NoNames();
    var n := |base|;
    if p == [] {
      assert base + p == base;
    } else if base[n - 1] == '/' {
      assert base == base[..n - 1] + ['/'] + [];
      assert base + p == base[..n - 1] + ['/'] + p;
      NamesOfConcat(base[..n - 1], []);
      NamesOfConcat(base[..n - 1], p);
    } else {
      NamesOfConcat(base, p);
    }
  }

  /** The joined path names what `p` names from where `base` leads. */
  lemma PushedNames(base: string, p: string, start: Directory)
    ensures Named(Pushed(base, p, Posix), start) == Named(p, Named(base, start))
  {
    hide Names, Pushed;
    PosixPushed(base, p);
    if StartsAtRoot(p) {
    } else if base == [] {
      NoNames();
    } else {
      PushedReads(base, p);
      EnterConcat(if StartsAtRoot(base) then [] else start, PosixNames(base), PosixNames(p));
    }
  }

  // ---------- relating ----------

  lemma {:induction false} KeepConcat(kept: seq<string>, a: seq<string>, b: seq<string>, mode: DotDot, stops: bool)
    ensures KeepAll(kept, a + b, mode, stops) == KeepAll(KeepAll(kept, a, mode, stops), b, mode, stops)
    decreases |a|
  {
    hide KeepName;
    if a == [] {
      assert a + b == b;
    } else {
      assert (a + b)[1..] == a[1..] + b;
      KeepConcat(KeepName(kept, a[0], mode, stops), a[1..], b, mode, stops);
    }
  }

  /** As many `..` as names entered lead back to where they were entered. */
  lemma {:induction false} ClimbsBack(kept: seq<string>, names: seq<string>, rest: seq<string>, stops: bool)
    requires ".." !in names
    ensures KeepAll(kept, names + (Ups(Depth(names)) + rest), Fold, stops) == KeepAll(kept, rest, Fold, stops)
    decreases |names|
  {
    hide KeepAll;
    if names == [] {
      assert names + (Ups(0) + rest) == rest;
    } else {
      var d := Depth(names[1..]);
      assert names[0] in names;
      assert ".." !in names[1..];
      if names[0] == "." {
        var after := names[1..] + (Ups(d) + rest);
        assert names + (Ups(d) + rest) == ["."] + after;
        KeepFirst(kept, ".", after, stops);
        ClimbsBack(kept, names[1..], rest, stops);
      } else {
        UpsLast(d, rest);
        var after := names[1..] + (Ups(d) + ([".."] + rest));
        assert names + (Ups(d + 1) + rest) == [names[0]] + after;
        KeepFirst(kept, names[0], after, stops);
        ClimbsBack(kept + [names[0]], names[1..], [".."] + rest, stops);
        KeepFirst(kept + [names[0]], "..", rest, stops);
        assert (kept + [names[0]])[..|kept|] == kept;
      }
    }
  }

  lemma KeepFirst(kept: seq<string>, name: string, rest: seq<string>, stops: bool)
    ensures KeepAll(kept, [name] + rest, Fold, stops) == KeepAll(KeepName(kept, name, Fold, stops), rest, Fold, stops)
  {
    hide KeepName;
    assert ([name] + rest)[1..] == rest;
  }

  lemma UpsLast(d: nat, rest: seq<string>)
    ensures Ups(d + 1) + rest == Ups(d) + ([".."] + rest)
  {
  }

  /** What relative() writes, in POSIX style. */
  lemma PosixWay(p: string, base: string)
    ensures var a, b := PosixNames(p), PosixNames(base);
            var n := Common(a, b);
            WayTo(p, base, Posix) ==
            if StartsAtRoot(p) != StartsAtRoot(base) || ".." in b[n..] then NoWay
            else
              var names := Ups(Depth(b[n..])) + a[n..];
              Way(if names == [] then "." else Joined(names, '/'))
  {
    hide Names, Common, Depth, Joined;
    PosixRoot(p);
    PosixRoot(base);
  }

  lemma WayReads(p: string, base: string, way: string)
    requires WayTo(p, base, Posix) == Way(way)
    ensures var a, b := PosixNames(p), PosixNames(base);
            var n := Common(a, b);
            var names := Ups(Depth(b[n..])) + a[n..];
            && ".." !in b[n..] && StartsAtRoot(p) == StartsAtRoot(base)
            && way != [] && !StartsAtRoot(way)
            && PosixNames(way) == if names == [] then ["."] else names
  {
    hide Names, Common, Depth, WayTo, Joined;
    PosixWay(p, base);
    var a, b := PosixNames(p), PosixNames(base);
    var n := Common(a, b);
    var names := Ups(Depth(b[n..])) + a[n..];
    NamesAreNames(p, 0);
    UpsAreNames(Depth(b[n..]), a[n..]);
    NamesOfJoined(names);
    DotReads();
  }

  lemma UpsAreNames(d: nat, rest: seq<string>)
    requires AllNames(rest)
    ensures AllNames(Ups(d) + rest)
  {
    assert IsName("..", Posix, NoPrefix);
  }

  /** What is kept of the base's names and the way's is what is kept of the path's. */
  lemma WayLeads(a: seq<string>, b: seq<string>, stops: bool)
    requires ".." !in b[Common(a, b)..]
    ensures var n := Common(a, b);
            var names := Ups(Depth(b[n..])) + a[n..];
            && KeepAll([], b + names, Fold, stops) == KeepAll([], a, Fold, stops)
            && KeepAll([], b + ["."], Fold, stops) == KeepAll([], b, Fold, stops)
  {
    hide KeepAll, Depth, Common;
    var n := Common(a, b);
    var names := Ups(Depth(b[n..])) + a[n..];
    var shared := KeepAll([], b[..n], Fold, stops);
    assert b + names == b[..n] + (b[n..] + names);
    KeepConcat([], b[..n], b[n..] + names, Fold, stops);
    ClimbsBack(shared, b[n..], a[n..], stops);
    assert a == a[..n] + a[n..];
    KeepConcat([], a[..n], a[n..], Fold, stops);
    KeepConcat([], b, ["."], Fold, stops);
    KeepNone(KeepAll([], b, Fold, stops), Fold, stops);
  }

  /** Joined onto the base, the way keeps what the path keeps. */
  lemma WayJoined(p: string, base: string, way: string)
    requires WayTo(p, base, Posix) == Way(way)
    ensures var joined := Pushed(base, way, Posix);
            joined != [] && StartsAtRoot(joined) == StartsAtRoot(p) && Kept(joined, Fold) == Kept(p, Fold)
  {
    hide Names, Common, WayTo, KeepAll, Pushed, Depth;
    WayReads(p, base, way);
    var a, b := PosixNames(p), PosixNames(base);
    WayLeads(a, b, StartsAtRoot(p));
    PosixPushed(base, way);
    NoNames();
    if base != [] {
      PushedReads(base, way);
    } else {
      assert [] + PosixNames(way) == PosixNames(way);
    }
    var names := Ups(Depth(b[Common(a, b)..])) + a[Common(a, b)..];
    if names == [] { assert b + names == b; }
  }

  /** resolve() is the inverse of relative(): the way from `base` to `p`, resolved against
      `base`, is the folded normal form of `p`, unless that is empty, as only the empty
      path's is. */
  lemma RelativeThenResolve(p: string, base: string, way: string)
    requires WayTo(p, base, Posix) == Way(way)
    ensures Resolved(way, base, Fold, Posix) == Normal(p, Fold, Posix) <==> p != []
  {
    hide Names, WayTo, KeepAll, Normal, Pushed, Joined;
    WayJoined(p, base, way);
    PosixNormal(p, Fold);
    PosixNormal(Pushed(base, way, Posix), Fold);
    NormalReads(Pushed(base, way, Posix), Fold);
  }

  /** From wherever `base` leads, the way leads to what `p` names: the empty path too. */
  lemma WayNames(p: string, base: string, way: string, start: Directory)
    requires WayTo(p, base, Posix) == Way(way)
    ensures Named(way, Named(base, start)) == Named(p, start)
  {
    hide Names, WayTo, KeepAll, Pushed;
    WayJoined(p, base, way);
    PushedNames(base, way, start);
    var from := if StartsAtRoot(p) then [] else start;
    KeepAllKeepsDirectory(from, [], PosixNames(p), Fold, StartsAtRoot(p));
    KeepAllKeepsDirectory(from, [], PosixNames(Pushed(base, way, Posix)), Fold, StartsAtRoot(p));
  }
}
