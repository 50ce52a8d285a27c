/** Joining paths, the way from one to another, and resolving it. */
module PathJoin {
  import opened PathSpec
  import opened PathLaws
  import opened PathBuffer

  method HasSamePrefix(p: string, r: Root, q: string, s: Root, style: Style) returns (same: bool)
    requires r.name <= |p| && s.name <= |q|
    ensures same <==> SamePrefix(p, r, q, s, style)
  {
    if r.prefix != s.prefix || r.name != s.name {
      return false;
    }
    for i := 0 to r.name
      invariant forall j :: 0 <= j < i ==> SameCharacter(p[j], q[j], style, r.prefix)
    {
      if Separates(p[i], style, r.prefix) && Separates(q[i], style, s.prefix) {
        continue;
      }
      if Lower(p[i]) != Lower(q[i]) {
        return false;
      }
    }
    return true;
  }

  method FindLastSeparator(p: string, style: Style, fallback: char) returns (c: char)
    ensures c == LastSeparator(p, style, fallback)
  {
    c := fallback;
    for i := 0 to |p|
      invariant c == LastSeparator(p[..i], style, fallback)
    {
      assert p[..i + 1][..i] == p[..i];
      if IsSeparator(p[i], style) {
        c := p[i];
      }
    }
    assert p[..|p|] == p;
  }

  /** Turns each `/` from `from` on into `\`. */
  method BackslashFrom(path: Buffer, from: nat)
    requires path.Valid() && from <= path.size
    modifies path.chars
    ensures path.Valid() && path.Contents() == old(path.Contents()[..from]) + Backslashed(old(path.Contents()[from..]))
  {
    ghost var was := path.Contents();
    for i := from to path.size
      invariant forall j :: 0 <= j < path.size && (j < from || i <= j) ==> path.chars[j] == was[j]
      invariant forall j :: from <= j < i ==> path.chars[j] == if was[j] == '/' then '\\' else was[j]
    {
      if path.chars[i] == '/' {
        path.chars[i] := '\\';
      }
    }
  }

  /** Whether `p` takes the place of `base` when joined onto it. */
  predicate Replaces(base: string, b: Root, p: string, r: Root, style: Style)
    requires b.name <= |base| && r.name <= |p|
  {
    || base == [] || ImpliesRoot(r.prefix) || ((r.prefix.Drive? || style.Posix?) && r.end > r.name)
    || (!r.prefix.NoPrefix? && !SamePrefix(p, r, base, b, style))
  }

  lemma PushedIs(base: string, b: Root, p: string, r: Root, style: Style)
    requires b == RootOf(base, style) && r == RootOf(p, style)
    ensures Pushed(base, p, style) ==
            if Replaces(base, b, p, r, style) then p
            else
              (if r.end > r.name then base[..b.name] else base + Between(base, b, p, r, style))
              + (if IsVerbatim(b.prefix) then Backslashed(p[r.name..]) else p[r.name..])
  {
    hide RootOf, SamePrefix, Between, Backslashed;
  }

  method Push(path: Buffer, p: string, style: Style)
    requires path.Valid()
    modifies path, path.chars
    ensures path.Valid() && (path.chars == old(path.chars) || fresh(path.chars))
    ensures path.Contents() == Pushed(old(path.Contents()), p, style)
  {
    hide RootOf, SamePrefix, Between, Backslashed, Pushed;
    var base := path.chars[..path.size];
    var r := FindRoot(p, style);
    var absolute := || ImpliesRoot(r.prefix) || (r.prefix == Drive && r.end > r.name)
                    || (style == Posix && r.end > r.name);
    ghost var b0 := RootOf(base, style);
    PushedIs(base, b0, p, r, style);
    if base == [] || absolute {
      path.Assign(p);
      return;
    }
    var b := FindRoot(base, style);
    var same := HasSamePrefix(p, r, base, b, style);
    if r.prefix != NoPrefix && !same {
      path.Assign(p);
      return;
    }
    var rest := p[r.name..];
    var verbatim := IsVerbatim(b.prefix);
    if r.end > r.name {
      path.Resize(b.name);
    } else {
      PutBetween(path, base, b, p, r, style);
    }
    AppendRest(path, rest, verbatim);
  }

  method AppendRest(path: Buffer, rest: string, verbatim: bool)
    requires path.Valid()
    modifies path, path.chars
    ensures path.Valid() && (path.chars == old(path.chars) || fresh(path.chars))
    ensures path.Contents() == old(path.Contents()) + if verbatim then Backslashed(rest) else rest
  {
    ghost var head := path.Contents();
    var appended := path.size;
    path.Append(rest);
    assert path.Contents()[..appended] == head && path.Contents()[appended..] == rest;
    if verbatim {
      BackslashFrom(path, appended);
    }
  }

  method PutBetween(path: Buffer, base: string, b: Root, p: string, r: Root, style: Style)
    requires path.Valid() && path.Contents() == base && b.name <= |base| && r.name <= |p|
    modifies path, path.chars
    ensures path.Valid() && (path.chars == old(path.chars) || fresh(path.chars))
    ensures path.Contents() == base + Between(base, b, p, r, style)
  {
    hide LastSeparator, FirstSeparator;
    var rest := p[r.name..];
    var ends := |base| > b.name && Separates(base[|base| - 1], style, b.prefix);
    if rest != [] && !ends && (|base| > b.name || ImpliesRoot(b.prefix)) {
      var sep := FindSeparator(rest, r.prefix, style, '/');
      sep := FindLastSeparator(base, style, sep);
      path.Append([if IsVerbatim(b.prefix) then '\\' else sep]);
    } else {
      assert base + [] == base;
    }
  }

  /** Writes the way from one path to another, or reports that there is none and writes nothing. */
  method Relative(out: Buffer, p: string, base: string, style: Style) returns (ok: bool)
    requires out.Valid()
    modifies out, out.chars
    ensures out.Valid() && (out.chars == old(out.chars) || fresh(out.chars))
    ensures ok <==> WayTo(p, base, style).Way?
    ensures out.Contents() == if ok then WayTo(p, base, style).path else old(out.Contents())
  {
    hide RootOf, FirstSeparator, Joined, Depth, Common, Names;
    var pr := FindRoot(p, style);
    var br := FindRoot(base, style);
    var same := HasSamePrefix(p, pr, base, br, style);
    if !same || Rooted(pr) != Rooted(br) {
      return false;
    }
    var a := CollectNames(p, pr, style);
    var b := CollectNames(base, br, style);
    var common := FindCommon(a, b);
    var known, climbs := CountClimbs(b[common..]);
    if !known {
      return false;
    }
    if climbs == 0 && common == |a| {
      assert Ups(0) + a[common..] == [];
      out.Assign(".");
      return true;
    }
    var sep := FindSeparator(base, br.prefix, style, '/');
    sep := FindSeparator(p, pr.prefix, style, sep);
    NamesNotEmpty(p, pr.end, style, pr.prefix);
    WriteWay(out, climbs, a[common..], sep);
    return true;
  }

  lemma {:induction false} NamesNotEmpty(p: string, at: nat, style: Style, x: Prefix)
    requires at <= |p|
    ensures forall i :: 0 <= i < |Names(p, at, style, x)| ==> Names(p, at, style, x)[i] != []
    decreases |p| - at
  {
    if at < |p| {
      NamesNotEmpty(p, if Separates(p[at], style, x) then at + 1 else NameEnd(p, at, style, x), style, x);
    }
  }

  method FindCommon(a: seq<string>, b: seq<string>) returns (common: nat)
    ensures common == Common(a, b)
  {
    common := 0;
    assert a[0..] == a && b[0..] == b;
    while common < |a| && common < |b| && a[common] == b[common]
      invariant common <= |a| && common <= |b|
      invariant Common(a, b) == common + Common(a[common..], b[common..])
    {
      assert a[common..][1..] == a[common + 1..] && b[common..][1..] == b[common + 1..];
      common := common + 1;
    }
  }

  method CountClimbs(names: seq<string>) returns (known: bool, climbs: nat)
    ensures known <==> ".." !in names
    ensures known ==> climbs == Depth(names)
  {
    climbs := 0;
    assert names[0..] == names;
    for i := 0 to |names|
      invariant ".." !in names[..i]
      invariant climbs + Depth(names[i..]) == Depth(names)
    {
      if names[i] == ".." {
        return false, climbs;
      }
      assert names[i..][1..] == names[i + 1..];
      if names[i] != "." {
        climbs := climbs + 1;
      }
    }
    assert names[..|names|] == names;
    return true, climbs;
  }

  /** Appends a name, behind a separator unless it is the first. */
  method PutName(out: Buffer, name: string, sep: char, ghost before: seq<string>)
    requires out.Valid() && out.Contents() == Joined(before, sep) && (before == [] <==> out.Contents() == [])
    requires name != []
    modifies out, out.chars
    ensures out.Valid() && (out.chars == old(out.chars) || fresh(out.chars))
    ensures out.Contents() == Joined(before + [name], sep) && out.Contents() != []
  {
    hide Joined;
    JoinedMore(before, name, sep);
    if out.size != 0 {
      out.Append([sep]);
    }
    out.Append(name);
  }

  method WriteWay(out: Buffer, climbs: nat, names: seq<string>, sep: char)
    requires out.Valid() && forall i :: 0 <= i < |names| ==> names[i] != []
    modifies out, out.chars
    ensures out.Valid() && (out.chars == old(out.chars) || fresh(out.chars))
    ensures out.Contents() == Joined(Ups(climbs) + names, sep)
  {
    hide Joined;
    out.Resize(0);
    ghost var all := Ups(climbs) + names;
    JoinedNone(sep);
    for i := 0 to climbs
      invariant out.Valid() && (out.chars == old(out.chars) || fresh(out.chars))
      invariant out.Contents() == Joined(all[..i], sep) && (i == 0 <==> out.Contents() == [])
    {
      assert all[..i + 1] == all[..i] + [".."];
      PutName(out, "..", sep, all[..i]);
    }
    for i := 0 to |names|
      invariant out.Valid() && (out.chars == old(out.chars) || fresh(out.chars))
      invariant out.Contents() == Joined(all[..climbs + i], sep) && (climbs + i == 0 <==> out.Contents() == [])
    {
      assert all[..climbs + i + 1] == all[..climbs + i] + [names[i]];
      PutName(out, names[i], sep, all[..climbs + i]);
    }
    assert all[..climbs + |names|] == all;
  }

  method Resolve(out: Buffer, p: string, base: string, mode: DotDot, style: Style)
    requires out.Valid()
    modifies out, out.chars
    ensures out.Valid() && out.Contents() == Resolved(p, base, mode, style)
  {
    hide Pushed, Normal;
    var joined := new Buffer(base);
    Push(joined, p, style);
    joined.Normalize(mode, style);
    out.Assign(joined.chars[..joined.size]);
  }

  /** The operations themselves, one after the other: what relative() wrote resolves to the
      normal form of the path. */
  method RelativeThenResolveAgain(out: Buffer, p: string, base: string) returns (ok: bool)
    requires out.Valid() && p != []
    modifies out, out.chars
    ensures out.Valid() && (ok <==> WayTo(p, base, Posix).Way?)
    ensures ok ==> out.Contents() == Normal(p, Fold, Posix)
  {
    hide WayTo, Normal, Pushed;
    ok := Relative(out, p, base, Posix);
    if ok {
      var way := out.chars[..out.size];
      RelativeThenResolve(p, base, way);
      Resolve(out, way, base, Fold, Posix);
    }
  }
}
