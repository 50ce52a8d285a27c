/** Which path a normal form is: what each mode keeps of the names, and that two paths have
    the same folded form exactly when they lead to the same directory from everywhere. */
module PathForms {
  import opened PathSpec
  import opened PathLaws

  // ---------- what is kept ----------

  function WithoutDots(names: seq<string>): seq<string> {
    if names == [] then [] else (if names[0] == "." then [] else [names[0]]) + WithoutDots(names[1..])
  }

  lemma KeepOne(kept: seq<string>, name: string, stops: bool)
    ensures KeepName(kept, name, Keep, stops) == kept + if name == "." then [] else [name]
  {
    assert kept + [] == kept;
  }

  lemma {:induction false} WithoutFirst(kept: seq<string>, names: seq<string>)
    requires names != []
    ensures (kept + if names[0] == "." then [] else [names[0]]) + WithoutDots(names[1..]) == kept + WithoutDots(names)
  {
    Regroup(kept, if names[0] == "." then [] else [names[0]], WithoutDots(names[1..]));
  }

  lemma Regroup(a: seq<string>, b: seq<string>, c: seq<string>)
    ensures a + b + c == a + (b + c)
  {
  }

  /** Without folding, every name but `.` stays, in order. */
  lemma {:induction false} KeepDropsDots(kept: seq<string>, names: seq<string>, stops: bool)
    ensures KeepAll(kept, names, Keep, stops) == kept + WithoutDots(names)
    decreases |names|
  {
    hide KeepName;
    if names == [] {
      assert kept + [] == kept;
    } else {
      KeepOne(kept, names[0], stops);
      KeepDropsDots(KeepName(kept, names[0], Keep, stops), names[1..], stops);
      WithoutFirst(kept, names);
    }
  }

  lemma KeptNames(p: string)
    requires p != []
    ensures StartsAtRoot(Normal(p, Keep, Posix)) == StartsAtRoot(p)
    ensures var names := WithoutDots(PosixNames(p));
            PosixNames(Normal(p, Keep, Posix)) == if names == [] && !StartsAtRoot(p) then ["."] else names
  {
    hide Names, KeepAll, Normal;
    NormalReads(p, Keep);
    KeepDropsDots([], PosixNames(p), StartsAtRoot(p));
    assert [] + WithoutDots(PosixNames(p)) == WithoutDots(PosixNames(p));
  }

  /** Some climbs, then names that lead down. */
  predicate ClimbsThenNames(names: seq<string>, climbs: nat) {
    && climbs <= |names| && "." !in names
    && forall i :: 0 <= i < |names| ==> (names[i] == ".." <==> i < climbs)
  }

  /** How many climbs the names start with. */
  function Climbs(names: seq<string>): nat {
    if names != [] && names[0] == ".." then 1 + Climbs(names[1..]) else 0
  }

  lemma {:induction false} CanonicalClimbs(names: seq<string>, stops: bool)
    requires Canonical(names, Fold, stops)
    ensures ClimbsThenNames(names, Climbs(names)) && (stops ==> Climbs(names) == 0)
  {
    if names != [] {
      var rest := names[1..];
      forall i | 0 <= i < |rest| && rest[i] == ".." ensures !stops && (i > 0 ==> rest[i - 1] == "..") {
        assert names[i + 1] == "..";
      }
      assert "." !in rest;
      CanonicalClimbs(rest, stops);
      assert forall i :: 1 <= i < |names| ==> names[i] == rest[i - 1];
    }
  }

  /** Folded, a path climbs first if at all, and behind a root never. */
  lemma FoldedNames(p: string)
    ensures var kept := Kept(p, Fold);
            ClimbsThenNames(kept, Climbs(kept)) && (StartsAtRoot(p) ==> Climbs(kept) == 0)
  {
    hide Names, KeepAll;
    KeptIsCanonical([], PosixNames(p), Fold, StartsAtRoot(p));
    CanonicalClimbs(Kept(p, Fold), StartsAtRoot(p));
  }

  // ---------- where climbs and names lead ----------

  lemma {:induction false} EnterNames(dir: Directory, names: seq<string>)
    requires "." !in names && ".." !in names
    ensures EnterAll(dir, names) == dir + names
    decreases |names|
  {
    if names == [] {
      assert dir + names == dir;
    } else {
      assert names[0] in names;
      EnterNames(dir + [names[0]], names[1..]);
      assert dir + [names[0]] + names[1..] == dir + names;
    }
  }

  lemma {:induction false} ClimbsLead(dir: Directory, names: seq<string>, climbs: nat)
    requires ClimbsThenNames(names, climbs) && climbs <= |dir|
    ensures EnterAll(dir, names) == dir[..|dir| - climbs] + names[climbs..]
    decreases climbs
  {
    if climbs == 0 {
      assert ".." !in names && names[0..] == names && dir[..|dir|] == dir;
      EnterNames(dir, names);
    } else {
      var up, rest := dir[..|dir| - 1], names[1..];
      assert forall i :: 0 <= i < |rest| ==> rest[i] == names[i + 1];
      ClimbsLead(up, rest, climbs - 1);
      assert up[..|up| - (climbs - 1)] == dir[..|dir| - climbs] && rest[climbs - 1..] == names[climbs..];
    }
  }

  /** A directory of that depth. */
  function Deep(n: nat, name: string): (d: Directory)
    ensures |d| == n && forall i :: 0 <= i < n ==> d[i] == name
  {
    seq(n, _ => name)
  }

  /** They lead to the same directory from everywhere. */
  ghost predicate LeadAlike(a: seq<string>, b: seq<string>) {
    forall start: Directory :: EnterAll(start, a) == EnterAll(start, b)
  }

  lemma FewerClimbs(a: seq<string>, i: nat, b: seq<string>, j: nat) returns (start: Directory)
    requires ClimbsThenNames(a, i) && ClimbsThenNames(b, j) && i < j
    ensures EnterAll(start, a) != EnterAll(start, b)
  {
    var other := if j < |b| then b[j] + "x" else "x";
    start := Deep(j, other);
    ClimbsLead(start, a, i);
    ClimbsLead(start, b, j);
    var x, y := start[..j - i] + a[i..], start[..0] + b[j..];
    assert x[0] == other;
    if y != [] { assert y[0] == b[j]; }
  }

  /** Climbs and names are told by where they lead. */
  lemma SameLeadSame(a: seq<string>, b: seq<string>)
    requires ClimbsThenNames(a, Climbs(a)) && ClimbsThenNames(b, Climbs(b)) && LeadAlike(a, b)
    ensures a == b
  {
    hide EnterAll, Climbs;
    var i, j := Climbs(a), Climbs(b);
    if i < j {
      var start := FewerClimbs(a, i, b, j);
      assert false;
    } else if j < i {
      var start := FewerClimbs(b, j, a, i);
      assert false;
    } else {
      SameClimbs(a, b, i);
    }
  }

  lemma SameClimbs(a: seq<string>, b: seq<string>, i: nat)
    requires ClimbsThenNames(a, i) && ClimbsThenNames(b, i) && LeadAlike(a, b)
    ensures a == b
  {
    hide EnterAll, Climbs;
    var start := Deep(i, "x");
    ClimbsLead(start, a, i);
    ClimbsLead(start, b, i);
    assert start[..i - i] == [];
    assert [] + a[i..] == a[i..] && [] + b[i..] == b[i..];
    assert a == a[..i] + a[i..] && b == b[..i] + b[i..];
    assert a[..i] == b[..i];
  }

  lemma FromRoot(a: seq<string>, b: seq<string>)
    requires ClimbsThenNames(a, 0) && ClimbsThenNames(b, 0) && EnterAll([], a) == EnterAll([], b)
    ensures a == b
  {
    hide EnterAll;
    EnterNames([], a);
    EnterNames([], b);
    assert [] + a == a && [] + b == b;
  }

  lemma KeptLeads(p: string, start: Directory)
    ensures Named(p, start) == EnterAll(if StartsAtRoot(p) then [] else start, Kept(p, Fold))
  {
    hide Names, KeepAll;
    var from := if StartsAtRoot(p) then [] else start;
    KeepAllKeepsDirectory(from, [], PosixNames(p), Fold, StartsAtRoot(p));
    assert EnterAll(from, []) == from;
  }

  ghost predicate NameTheSame(p: string, q: string) {
    forall start: Directory :: Named(p, start) == Named(q, start)
  }

  lemma SameKept(p: string, q: string)
    requires StartsAtRoot(p) == StartsAtRoot(q) && NameTheSame(p, q)
    ensures Kept(p, Fold) == Kept(q, Fold)
  {
    hide Names, KeepAll, Kept, Named, EnterAll, Climbs;
    FoldedNames(p);
    FoldedNames(q);
    var a, b := Kept(p, Fold), Kept(q, Fold);
    if StartsAtRoot(p) {
      KeptLeads(p, []);
      KeptLeads(q, []);
      assert Named(p, []) == Named(q, []);
      FromRoot(a, b);
    } else {
      forall start: Directory ensures EnterAll(start, a) == EnterAll(start, b) {
        KeptLeads(p, start);
        KeptLeads(q, start);
        assert Named(p, start) == Named(q, start);
      }
      SameLeadSame(a, b);
    }
  }

  /** Two paths fold to the same text exactly when they name the same directory, from the
      root or from every start alike. */
  lemma NormalIsUnique(p: string, q: string)
    requires p != [] && q != []
    ensures Normal(p, Fold, Posix) == Normal(q, Fold, Posix) <==>
            StartsAtRoot(p) == StartsAtRoot(q) && NameTheSame(p, q)
  {
    hide Names, KeepAll, Normal, Named, Kept;
    PosixNormal(p, Fold);
    PosixNormal(q, Fold);
    NormalReads(p, Fold);
    NormalReads(q, Fold);
    if StartsAtRoot(p) == StartsAtRoot(q) && NameTheSame(p, q) {
      SameKept(p, q);
    }
    if Normal(p, Fold, Posix) == Normal(q, Fold, Posix) {
      forall start: Directory ensures Named(p, start) == Named(q, start) {
        NormalNamesTheSame(p, Fold, start);
        NormalNamesTheSame(q, Fold, start);
      }
    }
  }
}
