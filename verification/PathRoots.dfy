/** A root is told by its own text: cut off behind its root, a path has the same root. */
module PathRoots {
  import opened PathSpec

  lemma {:induction false} NameEndCut(p: string, n: nat, at: nat, style: Style, x: Prefix)
    requires at <= n <= |p|
    ensures NameEnd(p[..n], at, style, x) == if NameEnd(p, at, style, x) < n then NameEnd(p, at, style, x) else n
    decreases n - at
  {
    hide Separates;
    if at < n {
      assert p[..n][at] == p[at];
      if !Separates(p[at], style, x) { NameEndCut(p, n, at + 1, style, x); }
    }
  }

  lemma {:induction false} RunEndCut(p: string, n: nat, at: nat, style: Style, x: Prefix)
    requires at <= n <= |p|
    ensures RunEnd(p[..n], at, style, x) == if RunEnd(p, at, style, x) < n then RunEnd(p, at, style, x) else n
    decreases n - at
  {
    hide Separates;
    if at < n {
      assert p[..n][at] == p[at];
      if Separates(p[at], style, x) { RunEndCut(p, n, at + 1, style, x); }
    }
  }

  lemma {:induction false} TrimmedCut(p: string, n: nat, end: nat, style: Style, x: Prefix)
    requires end <= n <= |p|
    ensures Trimmed(p[..n], end, style, x) == Trimmed(p, end, style, x)
    decreases end
  {
    hide Separates;
    if end > 0 {
      assert p[..n][end - 1] == p[end - 1];
      if Separates(p[end - 1], style, x) { TrimmedCut(p, n, end - 1, style, x); }
    }
  }

  /** Where a path may be cut without changing how it starts: past the start, and not between
      separators. */
  predicate Cuts(p: string, n: nat, s: Start) {
    s.end <= n <= |p| && (n == |p| || !Separates(p[n], Windows, s.prefix))
  }

  lemma VerbatimCut(p: string, n: nat)
    requires |p| >= 4 && p[..4] == "\\\\?\\" && Cuts(p, n, VerbatimStart(p))
    ensures n >= 4 && VerbatimStart(p[..n]) == VerbatimStart(p)
  {
    hide NameEnd;
    var q := p[..n];
    NameEndCut(p, n, 4, Windows, Verbatim);
    if n >= 8 {
      NameEndCut(p, n, 8, Windows, Verbatim);
      var server := NameEnd(p, 8, Windows, Verbatim);
      if server < n { NameEndCut(p, n, server + 1, Windows, Verbatim); }
    }
  }

  lemma StartCut(p: string, n: nat)
    requires Cuts(p, n, WindowsStart(p))
    ensures WindowsStart(p[..n]) == WindowsStart(p)
  {
    hide NameEnd, VerbatimStart, Lower;
    var q, s := p[..n], WindowsStart(p);
    assert forall i :: 0 <= i < n ==> q[i] == p[i];
    if |p| >= 4 && p[..4] == "\\\\?\\" {
      VerbatimCut(p, n);
      assert q[..4] == p[..4];
    } else {
      NotVerbatim(p, n);
      if s.prefix.Device? {
        NameEndCut(p, n, 4, Windows, Device);
      } else if s.prefix.UNC? {
        UncCut(p, n);
      }
    }
  }

  /** Where the prefix of a share ends: behind its second name, if it has one. */
  function UncEnd(p: string): nat
    requires |p| >= 3
  {
    var server := NameEnd(p, 2, Windows, UNC);
    if server + 1 < |p| && !Slash(p[server + 1]) then NameEnd(p, server + 1, Windows, UNC) else server
  }

  lemma UncCut(p: string, n: nat)
    requires |p| >= 3 && !Slash(p[2]) && UncEnd(p) <= n <= |p| && (n == |p| || !Slash(p[n]))
    ensures n >= 3 && UncEnd(p[..n]) == UncEnd(p)
  {
    hide NameEnd;
    var server := NameEnd(p, 2, Windows, UNC);
    assert server > 2;
    NameEndCut(p, n, 2, Windows, UNC);
    if server + 1 < n {
      assert p[..n][server + 1] == p[server + 1];
      NameEndCut(p, n, server + 1, Windows, UNC);
    }
  }

  lemma NotVerbatim(p: string, n: nat)
    requires n <= |p| && (|p| < 4 || p[..4] != "\\\\?\\")
    ensures n < 4 || p[..n][..4] != "\\\\?\\"
  {
    if n >= 4 { assert p[..n][..4] == p[..4]; }
  }

  /** Cut off behind its root, a path has the same root, in either style. */
  lemma RootIsItsOwn(p: string, style: Style)
    ensures RootOf(p[..RootOf(p, style).end], style) == RootOf(p, style)
  {
    hide WindowsStart, NameEnd, RunEnd, Trimmed;
    var r := RootOf(p, style);
    var n := r.end;
    var s := if style.Windows? then WindowsStart(p) else Start(NoPrefix, 0);
    EndBehindStart(p, s, r, style);
    if style.Windows? { StartCut(p, n); }
    TrimmedCut(p, n, s.end, Windows, s.prefix);
    RunEndCut(p, n, r.name, style, s.prefix);
  }

  lemma EndBehindStart(p: string, s: Start, r: Root, style: Style)
    requires s == (if style.Windows? then WindowsStart(p) else Start(NoPrefix, 0)) && r == RootOf(p, style)
    ensures s.end <= r.end
  {
    hide WindowsStart, Separates;
  }
}
