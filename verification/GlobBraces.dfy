/** Brace expressions: finding them, and enumerating the arms they expand to. */
module GlobBraces {
  import opened GlobText
  import opened GlobClass
  import opened GlobSyntax

  /** A brace expression: its first byte, the one past it, and the alternatives inside. */
  datatype Brace = Brace(begin: nat, end: nat, terms: seq<Text>)

  // ---------- the grammar ----------

  /** Past the bracket, escape or byte at `i`; none when it is cut off. */
  function UnitEnd(p: Text, i: nat): (r: Result<nat>)
    requires i < |p|
    ensures r.Ok? ==> i < r.value <= |p|
  {
    if p[i] == OPEN then
      var close := ScanBracket(p[i..]);
      if close.Err? then Err(close.error) else Ok(i + close.value + 1)
    else if p[i] == BACKSLASH then
      if i + 1 == |p| then Err(StrayBackslash) else Ok(i + 2)
    else Ok(i + 1)
  }

  /** A brace outside an expression, and inside one also a comma or the closing brace. */
  predicate Stops(b: byte, inTerm: bool) {
    b == LBRACE || (inTerm && (b == RBRACE || b == COMMA))
  }

  /** From `a`, whole units lead to `b`, and none of them is a stop. */
  predicate Quiet(p: Text, a: nat, b: nat, inTerm: bool)
    requires b <= |p|
    decreases b - a
  {
    a == b ||
    (a < b && !Stops(p[a], inTerm) && UnitEnd(p, a).Ok? && Quiet(p, UnitEnd(p, a).value, b, inTerm))
  }

  /** The text from `a` to `b` is the terms, commas between them. */
  predicate TermsFit(p: Text, a: nat, b: nat, terms: seq<Text>)
    requires b <= |p|
    decreases |terms|
  {
    && terms != []
    && var e := a + |terms[0]|;
    && e <= b && p[a..e] == terms[0] && Quiet(p, a, e, true)
    && if |terms| == 1 then e == b else e < b && p[e] == COMMA && TermsFit(p, e + 1, b, terms[1..])
  }

  /** The brace expressions of `p` from `from` on are `braces`: text without a brace
      before, between and after them, and terms inside. */
  predicate WellBraced(p: Text, from: nat, braces: seq<Brace>)
    requires from <= |p|
    decreases |braces|
  {
    if braces == [] then Quiet(p, from, |p|, false)
    else
      var b := braces[0];
      && from <= b.begin && b.begin + 2 <= b.end <= |p|
      && Quiet(p, from, b.begin, false)
      && p[b.begin] == LBRACE && p[b.end - 1] == RBRACE
      && b.terms != [[]] && TermsFit(p, b.begin + 1, b.end - 1, b.terms)
      && WellBraced(p, b.end, braces[1..])
  }

  // ---------- the scanner ----------

  function ConsBrace(b: Brace, r: Result<seq<Brace>>): Result<seq<Brace>> {
    match r
    case Ok(bs) => Ok([b] + bs)
    case Err(e) => Err(e)
  }

  /** Scanning on at `i`, outside an expression. */
  function Outside(p: Text, i: nat): (r: Result<seq<Brace>>)
    requires i <= |p|
    decreases |p| - i
  {
    if i == |p| then Ok([])
    else if p[i] == LBRACE then Inside(p, i, i + 1, i + 1, [])
    else
      var next := UnitEnd(p, i);
      if next.Err? then Err(next.error) else Outside(p, next.value)
  }

  /** The same inside the expression opened at `begin`, in the term begun at `term`. */
  function Inside(p: Text, begin: nat, term: nat, i: nat, terms: seq<Text>): (r: Result<seq<Brace>>)
    requires begin < term <= i <= |p|
    decreases |p| - i
  {
    if i == |p| then Err(IncompleteBrace)
    else if p[i] == LBRACE then Err(NestedBrace)
    else if p[i] == COMMA then Inside(p, begin, i + 1, i + 1, terms + [p[term..i]])
    else if p[i] == RBRACE then
      if terms == [] && i == term then Err(EmptyBrace)
      else ConsBrace(Brace(begin, i + 1, terms + [p[term..i]]), Outside(p, i + 1))
    else
      var next := UnitEnd(p, i);
      if next.Err? then Err(next.error) else Inside(p, begin, term, next.value, terms)
  }

  lemma {:induction false} QuietExtends(p: Text, a: nat, b: nat, inTerm: bool)
    requires b < |p| && Quiet(p, a, b, inTerm) && !Stops(p[b], inTerm) && UnitEnd(p, b).Ok?
    ensures Quiet(p, a, UnitEnd(p, b).value, inTerm)
    decreases b - a
  {
    hide UnitEnd;
    if a != b { QuietExtends(p, UnitEnd(p, a).value, b, inTerm); }
  }

  lemma {:induction false} TermsExtend(p: Text, a: nat, term: nat, i: nat, terms: seq<Text>)
    requires a <= term <= i <= |p| && Quiet(p, term, i, true)
    requires if terms == [] then a == term else a < term && p[term - 1] == COMMA && TermsFit(p, a, term - 1, terms)
    ensures TermsFit(p, a, i, terms + [p[term..i]])
    decreases |terms|
  {
    hide Quiet, UnitEnd;
    var all := terms + [p[term..i]];
    if terms != [] {
      assert all[1..] == terms[1..] + [p[term..i]];
      TermsExtend(p, a + |terms[0]| + 1, term, i, terms[1..]);
    }
  }

  /** What the scanner finds is well formed. */
  lemma {:induction false} OutsideSound(p: Text, from: nat, i: nat)
    requires from <= i <= |p| && Quiet(p, from, i, false) && Outside(p, i).Ok?
    ensures WellBraced(p, from, Outside(p, i).value)
    decreases |p| - i
  {
    hide Quiet, UnitEnd;
    if i < |p| {
      if p[i] == LBRACE {
        QuietEmpty(p, i + 1);
        InsideSound(p, from, i, i + 1, i + 1, []);
      } else {
        QuietExtends(p, from, i, false);
        OutsideSound(p, from, UnitEnd(p, i).value);
      }
    }
  }

  lemma QuietEmpty(p: Text, i: nat)
    requires i <= |p|
    ensures Quiet(p, i, i, true) && Quiet(p, i, i, false)
  {
  }

  lemma NotOnlyEmpty(terms: seq<Text>, last: Text)
    ensures terms + [last] != [[]] <==> terms != [] || last != []
  {
    assert (terms + [last])[|terms|] == last;
  }

  lemma {:induction false} InsideSound(p: Text, from: nat, begin: nat, term: nat, i: nat, terms: seq<Text>)
    requires from <= begin < term <= i <= |p| && p[begin] == LBRACE
    requires Quiet(p, from, begin, false) && Quiet(p, term, i, true)
    requires if terms == [] then term == begin + 1
             else begin + 1 < term && p[term - 1] == COMMA && TermsFit(p, begin + 1, term - 1, terms)
    requires Inside(p, begin, term, i, terms).Ok?
    ensures WellBraced(p, from, Inside(p, begin, term, i, terms).value)
    decreases |p| - i
  {
    hide Quiet, UnitEnd, TermsFit;
    if p[i] == COMMA {
      TermsExtend(p, begin + 1, term, i, terms);
      QuietEmpty(p, i + 1);
      InsideSound(p, from, begin, i + 1, i + 1, terms + [p[term..i]]);
    } else if p[i] == RBRACE {
      TermsExtend(p, begin + 1, term, i, terms);
      QuietEmpty(p, i + 1);
      OutsideSound(p, i + 1, i + 1);
      var braces := Inside(p, begin, term, i, terms).value;
      assert braces[1..] == Outside(p, i + 1).value;
      NotOnlyEmpty(terms, p[term..i]);
    } else {
      QuietExtends(p, term, i, true);
      InsideSound(p, from, begin, term, UnitEnd(p, i).value, terms);
    }
  }

  /** Whatever is well formed, the scanner finds. */
  lemma {:induction false} OutsideComplete(p: Text, from: nat, braces: seq<Brace>)
    requires from <= |p| && WellBraced(p, from, braces)
    ensures Outside(p, from) == Ok(braces)
    decreases |braces|
  {
    hide Quiet, UnitEnd, TermsFit, Inside;
    if braces == [] {
      OutsideSkips(p, from, |p|);
    } else {
      var b := braces[0];
      OutsideSkips(p, from, b.begin);
      OutsideComplete(p, b.end, braces[1..]);
      InsideComplete(p, b.begin, b.begin + 1, b.end - 1, [], b.terms);
      assert [] + b.terms == b.terms;
      assert braces == [b] + braces[1..];
    }
  }

  lemma {:induction false} OutsideSkips(p: Text, a: nat, b: nat)
    requires a <= b <= |p| && Quiet(p, a, b, false)
    ensures Outside(p, a) == Outside(p, b)
    decreases b - a
  {
    hide UnitEnd;
    if a != b { OutsideSkips(p, UnitEnd(p, a).value, b); }
  }

  lemma {:induction false} InsideSkips(p: Text, begin: nat, term: nat, a: nat, b: nat, terms: seq<Text>)
    requires begin < term <= a <= b <= |p| && Quiet(p, a, b, true)
    ensures Inside(p, begin, term, a, terms) == Inside(p, begin, term, b, terms)
    decreases b - a
  {
    hide UnitEnd;
    if a != b { InsideSkips(p, begin, term, UnitEnd(p, a).value, b, terms); }
  }

  lemma {:induction false} InsideComplete(p: Text, begin: nat, a: nat, b: nat, done: seq<Text>, terms: seq<Text>)
    requires begin < a <= b < |p| && TermsFit(p, a, b, terms) && p[b] == RBRACE && done + terms != [[]]
    ensures Inside(p, begin, a, a, done) == ConsBrace(Brace(begin, b + 1, done + terms), Outside(p, b + 1))
    decreases |terms|
  {
    hide Quiet, UnitEnd, Outside;
    var e := a + |terms[0]|;
    InsideSkips(p, begin, a, a, e, done);
    if |terms| > 1 {
      InsideComplete(p, begin, e + 1, b, done + [terms[0]], terms[1..]);
      assert done + [terms[0]] + terms[1..] == done + terms;
    } else {
      assert terms == [terms[0]];
      NotOnlyEmpty(done, terms[0]);
    }
  }

  function PrependBraces(done: seq<Brace>, r: Result<seq<Brace>>): Result<seq<Brace>> {
    match r
    case Ok(bs) => Ok(done + bs)
    case Err(e) => Err(e)
  }

  lemma PrependConsBrace(done: seq<Brace>, b: Brace, r: Result<seq<Brace>>)
    ensures PrependBraces(done, ConsBrace(b, r)) == PrependBraces(done + [b], r)
  {
    if r.Ok? { assert done + ([b] + r.value) == done + [b] + r.value; }
  }

  /** The one loop over the pattern that finds all brace expressions: it succeeds exactly
      when the text is well formed, and finds what is there. */
  method ParseBraces(p: Text, from: nat) returns (r: Result<seq<Brace>>)
    requires from <= |p|
    ensures r == Outside(p, from)
    ensures r.Ok? ==> WellBraced(p, from, r.value)
    ensures r.Err? ==> !exists braces :: WellBraced(p, from, braces)
  {
    hide UnitEnd, WellBraced;
    r := ScanBraces(p, from);
    if r.Ok? {
      QuietEmpty(p, from);
      OutsideSound(p, from, from);
    } else {
      forall braces ensures !WellBraced(p, from, braces) {
        if WellBraced(p, from, braces) { OutsideComplete(p, from, braces); }
      }
    }
  }

  method ScanBraces(p: Text, from: nat) returns (r: Result<seq<Brace>>)
    requires from <= |p|
    ensures r == Outside(p, from)
  {
    hide UnitEnd;
    var braces: seq<Brace>, open, begin: nat, term: nat := [], false, 0, 0;
    var terms: seq<Text> := [];
    var i: nat := from;
    assert PrependBraces([], Outside(p, from)) == Outside(p, from) by {
      if Outside(p, from).Ok? { assert [] + Outside(p, from).value == Outside(p, from).value; }
    }
    while i != |p|
      invariant i <= |p| && (open ==> begin < term <= i)
      invariant Outside(p, from) ==
                PrependBraces(braces, if open then Inside(p, begin, term, i, terms) else Outside(p, i))
      decreases |p| - i
    {
      if p[i] == LBRACE {
        if open {
          return Err(NestedBrace);
        }
        open, begin, term, terms := true, i, i + 1, [];
        i := i + 1;
      } else if p[i] == COMMA && open {
        terms := terms + [p[term..i]];
        term := i + 1;
        i := i + 1;
      } else if p[i] == RBRACE && open {
        if terms == [] && i == term {
          return Err(EmptyBrace);
        }
        var brace := Brace(begin, i + 1, terms + [p[term..i]]);
        PrependConsBrace(braces, brace, Outside(p, i + 1));
        braces := braces + [brace];
        open := false;
        i := i + 1;
      } else {
        var next := UnitEnd(p, i);
        if next.Err? {
          return Err(next.error);
        }
        i := next.value;
      }
    }
    if open {
      return Err(IncompleteBrace);
    }
    assert braces + [] == braces;
    r := Ok(braces);
  }

  // ---------- choices of terms ----------

  predicate ValidChoice(choice: seq<nat>, braces: seq<Brace>) {
    |choice| == |braces| && forall k :: 0 <= k < |braces| ==> choice[k] < |braces[k].terms|
  }

  predicate HasTerms(braces: seq<Brace>) {
    forall k :: 0 <= k < |braces| ==> braces[k].terms != []
  }

  function Count(braces: seq<Brace>): (n: nat) {
    if braces == [] then 1
    else Count(braces[..|braces| - 1]) * |braces[|braces| - 1].terms|
  }

  /** The choice read as a number, one digit a brace, the last brace the lowest digit. */
  function Rank(choice: seq<nat>, braces: seq<Brace>): nat
    requires |choice| == |braces|
  {
    if choice == [] then 0
    else
      var n := |choice| - 1;
      Rank(choice[..n], braces[..n]) * |braces[n].terms| + choice[n]
  }

  lemma {:induction false} RankBelowCount(choice: seq<nat>, braces: seq<Brace>)
    requires ValidChoice(choice, braces)
    ensures Rank(choice, braces) < Count(braces)
  {
    if choice != [] {
      var n := |choice| - 1;
      RankBelowCount(choice[..n], braces[..n]);
      var r, c, z := Rank(choice[..n], braces[..n]), Count(braces[..n]), |braces[n].terms|;
      assert r * z + choice[n] < (r + 1) * z <= c * z;
    }
  }

  lemma {:induction false} RankInjective(a: seq<nat>, b: seq<nat>, braces: seq<Brace>)
    requires ValidChoice(a, braces) && ValidChoice(b, braces) && Rank(a, braces) == Rank(b, braces)
    ensures a == b
  {
    if a != [] {
      var n := |a| - 1;
      DigitsInjective(Rank(a[..n], braces[..n]), a[n], Rank(b[..n], braces[..n]), b[n], |braces[n].terms|);
      RankInjective(a[..n], b[..n], braces[..n]);
      assert a == a[..n] + [a[n]] && b == b[..n] + [b[n]];
    }
  }

  lemma DigitsInjective(r: nat, c: nat, q: nat, d: nat, z: nat)
    requires c < z && d < z && r * z + c == q * z + d
    ensures r == q && c == d
  {
    if r < q { MultipleBelow(r, q, z); }
    if q < r { MultipleBelow(q, r, z); }
  }

  lemma MultipleBelow(r: nat, q: nat, z: nat)
    requires r < q
    ensures r * z + z <= q * z
  {
    assert (r + 1) * z <= q * z;
  }

  lemma RankUnfolds(choice: seq<nat>, braces: seq<Brace>)
    requires |choice| == |braces| && choice != []
    ensures var n := |choice| - 1;
            Rank(choice, braces) == Rank(choice[..n], braces[..n]) * |braces[n].terms| + choice[n]
  {
  }

  lemma {:induction false} ZerosRankFirst(choice: seq<nat>, braces: seq<Brace>)
    requires |choice| == |braces| && forall k :: 0 <= k < |choice| ==> choice[k] == 0
    ensures Rank(choice, braces) == 0
  {
    if choice != [] { ZerosRankFirst(choice[..|choice| - 1], braces[..|braces| - 1]); }
  }

  /** The last places are spent: raising the digit at `k` and clearing those after it is
      one step. */
  lemma {:induction false} CarryStep(a: seq<nat>, b: seq<nat>, braces: seq<Brace>, k: nat)
    requires ValidChoice(a, braces) && |b| == |a| && k < |a|
    requires a[..k] == b[..k] && b[k] == a[k] + 1
    requires forall j :: k < j < |a| ==> a[j] + 1 == |braces[j].terms| && b[j] == 0
    ensures Rank(b, braces) == Rank(a, braces) + 1
    decreases |a|
  {
    hide Rank;
    var n := |a| - 1;
    RankUnfolds(a, braces);
    RankUnfolds(b, braces);
    if k == n {
      assert a[..n] == b[..n];
    } else {
      assert a[..n][..k] == a[..k] && b[..n][..k] == b[..k];
      CarryStep(a[..n], b[..n], braces[..n], k);
      NextMultiple(Rank(a[..n], braces[..n]), |braces[n].terms|);
    }
  }

  lemma NextMultiple(r: nat, z: nat)
    ensures (r + 1) * z == r * z + z
  {
  }

  lemma {:induction false} AllSpent(a: seq<nat>, braces: seq<Brace>)
    requires ValidChoice(a, braces) && forall j :: 0 <= j < |a| ==> a[j] + 1 == |braces[j].terms|
    ensures Rank(a, braces) + 1 == Count(braces)
  {
    if a != [] {
      var n := |a| - 1;
      AllSpent(a[..n], braces[..n]);
      NextMultiple(Rank(a[..n], braces[..n]), |braces[n].terms|);
    }
  }

  /** Steps to the next choice, in place; false, back at the first one, after the last. */
  method NextChoice(choice: array<nat>, braces: seq<Brace>) returns (more: bool)
    requires ValidChoice(choice[..], braces)
    modifies choice
    ensures ValidChoice(choice[..], braces)
    ensures more ==> Rank(choice[..], braces) == old(Rank(choice[..], braces)) + 1
    ensures !more ==> old(Rank(choice[..], braces)) + 1 == Count(braces)
  {
    hide Rank;
    ghost var before := choice[..];
    var k := choice.Length;
    while k > 0
      invariant 0 <= k <= choice.Length
      invariant forall j :: 0 <= j < k ==> choice[j] == before[j]
      invariant forall j :: k <= j < choice.Length ==> before[j] + 1 == |braces[j].terms| && choice[j] == 0
    {
      k := k - 1;
      choice[k] := choice[k] + 1;
      if choice[k] != |braces[k].terms| {
        CarryStep(before, choice[..], braces, k);
        return true;
      }
      choice[k] := 0;
    }
    AllSpent(before, braces);
    more := false;
  }

  // ---------- the text of an arm ----------

  predicate InOrder(p: Text, from: nat, braces: seq<Brace>)
    decreases |braces|
  {
    from <= |p| &&
    (braces == [] ||
     (from <= braces[0].begin < braces[0].end <= |p| && InOrder(p, braces[0].end, braces[1..])))
  }

  /** The text from `from` on under a choice of terms. */
  function ArmText(p: Text, from: nat, braces: seq<Brace>, choice: seq<nat>): Text
    requires InOrder(p, from, braces) && ValidChoice(choice, braces)
    decreases |braces|
  {
    if braces == [] then p[from..]
    else
      p[from..braces[0].begin] + braces[0].terms[choice[0]]
      + ArmText(p, braces[0].end, braces[1..], choice[1..])
  }

  method BuildArm(p: Text, from: nat, braces: seq<Brace>, choice: seq<nat>) returns (text: Text)
    requires InOrder(p, from, braces) && ValidChoice(choice, braces)
    ensures text == ArmText(p, from, braces, choice)
  {
    hide ArmText;
    text := [];
    var cursor: nat := from;
    assert braces[0..] == braces && choice[0..] == choice;
    for k := 0 to |braces|
      invariant InOrder(p, cursor, braces[k..])
      invariant ArmText(p, from, braces, choice) == text + ArmText(p, cursor, braces[k..], choice[k..])
    {
      assert braces[k..][1..] == braces[k + 1..] && choice[k..][1..] == choice[k + 1..];
      ArmTextUnfolds(p, cursor, braces[k..], choice[k..]);
      text := text + p[cursor..braces[k].begin] + braces[k].terms[choice[k]];
      cursor := braces[k].end;
    }
    ArmTextUnfolds(p, cursor, [], choice[|braces|..]);
    text := text + p[cursor..];
  }

  lemma ArmTextUnfolds(p: Text, from: nat, braces: seq<Brace>, choice: seq<nat>)
    requires InOrder(p, from, braces) && ValidChoice(choice, braces)
    ensures braces == [] ==> ArmText(p, from, braces, choice) == p[from..]
    ensures braces != [] ==>
              forall text: Text :: text + ArmText(p, from, braces, choice) ==
                text + p[from..braces[0].begin] + braces[0].terms[choice[0]]
                + ArmText(p, braces[0].end, braces[1..], choice[1..])
  {
  }

  lemma {:induction false} WellBracedInOrder(p: Text, from: nat, braces: seq<Brace>)
    requires from <= |p| && WellBraced(p, from, braces)
    ensures InOrder(p, from, braces) && HasTerms(braces)
    decreases |braces|
  {
    hide Quiet;
    if braces != [] {
      WellBracedInOrder(p, braces[0].end, braces[1..]);
      assert forall k :: 0 < k < |braces| ==> braces[k] == braces[1..][k - 1];
    }
  }

  // ---------- arms of a UTF-8 pattern are UTF-8 ----------

  /** An ASCII byte is no part of a longer character: cutting at it cuts none. */
  lemma {:induction false} CutUtf8(s: Text, i: nat)
    requires IsUtf8(s) && i < |s| && s[i] < 0x80
    ensures IsUtf8(s[..i]) && IsUtf8(s[i..]) && IsUtf8(s[i + 1..])
    decreases |s|
  {
    hide StartsCharacter, AtomLen;
    var n := AtomLen(s);
    if i == 0 {
      assert s[0..] == s && s[..0] == [];
      AsciiAlone(s);
    } else {
      if i < n { InsideAtom(s, i); }
      CutUtf8(s[n..], i - n);
      assert s[n..][i - n..] == s[i..] && s[n..][i - n + 1..] == s[i + 1..];
      assert s[..i][n..] == s[n..][..i - n];
      AtomOfCut(s, i);
    }
  }

  lemma AsciiAlone(s: Text)
    requires s != [] && s[0] < 0x80
    ensures AtomLen(s) == 1
  {
  }

  lemma AtomOfCut(s: Text, i: nat)
    requires StartsCharacter(s) && AtomLen(s) <= i <= |s|
    ensures StartsCharacter(s[..i]) && AtomLen(s[..i]) == AtomLen(s)
  {
  }

  lemma Utf8Between(p: Text, a: nat, b: nat)
    requires a <= b <= |p| && IsUtf8(p[a..]) && (b == |p| || p[b] < 0x80)
    ensures IsUtf8(p[a..b])
    ensures b < |p| ==> IsUtf8(p[b + 1..])
  {
    if b < |p| {
      CutUtf8(p[a..], b - a);
      assert p[a..][..b - a] == p[a..b] && p[a..][b - a + 1..] == p[b + 1..];
    } else {
      assert p[a..b] == p[a..];
    }
  }

  lemma {:induction false} TermsUtf8(p: Text, a: nat, b: nat, terms: seq<Text>)
    requires a <= b < |p| && p[b] < 0x80 && IsUtf8(p[a..]) && TermsFit(p, a, b, terms)
    ensures forall k :: 0 <= k < |terms| ==> IsUtf8(terms[k])
    ensures IsUtf8(p[b + 1..])
    decreases |terms|
  {
    hide IsUtf8, Quiet;
    var e := a + |terms[0]|;
    Utf8Between(p, a, e);
    if |terms| > 1 {
      TermsUtf8(p, e + 1, b, terms[1..]);
      assert forall k :: 0 < k < |terms| ==> terms[k] == terms[1..][k - 1];
    }
  }

  lemma {:induction false} ArmTextUtf8(p: Text, from: nat, braces: seq<Brace>, choice: seq<nat>)
    requires from <= |p| && WellBraced(p, from, braces) && IsUtf8(p[from..])
    requires InOrder(p, from, braces) && ValidChoice(choice, braces)
    ensures IsUtf8(ArmText(p, from, braces, choice))
    decreases |braces|
  {
    hide IsUtf8, Quiet, TermsFit;
    if braces != [] {
      var b := braces[0];
      Utf8Between(p, from, b.begin);
      TermsUtf8(p, b.begin + 1, b.end - 1, b.terms);
      ArmTextUtf8(p, b.end, braces[1..], choice[1..]);
      Utf8Concat(p[from..b.begin], b.terms[choice[0]]);
      Utf8Concat(p[from..b.begin] + b.terms[choice[0]], ArmText(p, b.end, braces[1..], choice[1..]));
    }
  }
}
