/** The answer a pattern gives, from what is written in it: brackets, segments and braces. */
module GlobLaws {
  import opened GlobText
  import opened GlobSpec
  import opened GlobClass
  import opened GlobSyntax
  import opened GlobBraces
  import opened GlobCreate
  import opened GlobLetters
  import opened GlobWritten

  // ---------- patterns with braces ----------

  /** A stretch of a pattern: fixed, or one of several terms in braces. */
  datatype Chunk = Fixed(elements: seq<Element>) | Choice(terms: seq<seq<Element>>)

  /** A comma and a closing brace in a term need a backslash. */
  predicate TermFits(es: seq<Element>) {
    forall i :: 0 <= i < |es| && es[i].Char? ==> !Bare(es[i].letter, 0x2C) && !Bare(es[i].letter, 0x7D)
  }

  /** No brace of the elements' own. */
  predicate Braceless(es: seq<Element>) { forall i :: 0 <= i < |es| ==> !es[i].OpenBrace? }

  predicate AllTermsFit(terms: seq<seq<Element>>) {
    forall i :: 0 <= i < |terms| ==> AllFit(terms[i]) && Braceless(terms[i]) && TermFits(terms[i])
  }

  predicate ChunkFits(c: Chunk) {
    match c
    case Fixed(es) => AllFit(es) && Braceless(es)
    case Choice(terms) => terms != [] && terms != [[]] && AllTermsFit(terms)
  }

  predicate ChunksFit(chunks: seq<Chunk>) { forall i :: 0 <= i < |chunks| ==> ChunkFits(chunks[i]) }

  function TermsText(terms: seq<seq<Element>>): Text
    requires terms != [] && forall i :: 0 <= i < |terms| ==> AllFit(terms[i])
  {
    if |terms| == 1 then ElementsText(terms[0]) else ElementsText(terms[0]) + [0x2C] + TermsText(terms[1..])
  }

  function ChunkText(c: Chunk): Text
    requires ChunkFits(c)
  {
    if c.Fixed? then ElementsText(c.elements) else [0x7B] + TermsText(c.terms) + [0x7D]
  }

  function ChunksText(chunks: seq<Chunk>): Text
    requires ChunksFit(chunks)
  {
    if chunks == [] then [] else ChunkText(chunks[0]) + ChunksText(chunks[1..])
  }

  /** One term for each pair of braces. */
  predicate Picks(chunks: seq<Chunk>, picks: seq<nat>) {
    if chunks == [] then picks == []
    else if chunks[0].Fixed? then Picks(chunks[1..], picks)
    else picks != [] && picks[0] < |chunks[0].terms| && Picks(chunks[1..], picks[1..])
  }

  /** The pattern with the terms picked. */
  function Picked(chunks: seq<Chunk>, picks: seq<nat>): seq<Element>
    requires Picks(chunks, picks)
  {
    if chunks == [] then []
    else if chunks[0].Fixed? then chunks[0].elements + Picked(chunks[1..], picks)
    else chunks[0].terms[picks[0]] + Picked(chunks[1..], picks[1..])
  }

  /** How many ways there are to pick. */
  function Ways(chunks: seq<Chunk>): nat {
    if chunks == [] then 1 else (if chunks[0].Fixed? then 1 else |chunks[0].terms|) * Ways(chunks[1..])
  }

  predicate NoBraces(chunks: seq<Chunk>) { forall i :: 0 <= i < |chunks| ==> chunks[i].Fixed? }

  // ---------- no brace in elements ----------

  lemma {:induction false} QuietJoins(p: Text, a: nat, b: nat, c: nat, inTerm: bool)
    requires a <= b <= c <= |p| && Quiet(p, a, b, inTerm) && Quiet(p, b, c, inTerm)
    ensures Quiet(p, a, c, inTerm)
    decreases b - a
  {
    hide UnitEnd, Stops;
    if a != b {
      var n := UnitEnd(p, a).value;
      QuietInside(p, n, b, inTerm);
      QuietJoins(p, n, b, c, inTerm);
    }
  }

  lemma QuietInside(p: Text, a: nat, b: nat, inTerm: bool)
    requires b <= |p| && Quiet(p, a, b, inTerm)
    ensures a <= b
  {
    hide UnitEnd, Stops;
  }

  lemma QuietUnit(p: Text, a: nat, inTerm: bool)
    requires a < |p| && !Stops(p[a], inTerm) && UnitEnd(p, a).Ok?
    ensures Quiet(p, a, UnitEnd(p, a).value, inTerm)
  {
    hide UnitEnd, Stops;
  }

  predicate PlainIn(b: byte, inTerm: bool) { b != OPEN && b != BACKSLASH && !Stops(b, inTerm) }

  lemma {:induction false} PlainIsQuiet(p: Text, a: nat, b: nat, inTerm: bool)
    requires a <= b <= |p| && forall k :: a <= k < b ==> PlainIn(p[k], inTerm)
    ensures Quiet(p, a, b, inTerm)
    decreases b - a
  {
    hide Quiet;
    if a == b {
      NothingIsQuiet(p, a, inTerm);
    } else {
      assert UnitEnd(p, a) == Ok(a + 1);
      QuietUnit(p, a, inTerm);
      PlainIsQuiet(p, a + 1, b, inTerm);
      QuietJoins(p, a, a + 1, b, inTerm);
    }
  }

  lemma NothingIsQuiet(p: Text, a: nat, inTerm: bool)
    requires a <= |p|
    ensures Quiet(p, a, a, inTerm)
  {
  }

  lemma CharIsQuiet(p: Text, at: nat, l: Letter, inTerm: bool)
    requires CharFits(l) && (inTerm ==> !Bare(l, 0x2C) && !Bare(l, 0x7D)) && Stands(p, at, LetterText(l))
    ensures at + |LetterText(l)| <= |p| && Quiet(p, at, at + |LetterText(l)|, inTerm)
  {
    hide Quiet, Utf8, Stands;
    var t := Utf8(l.cp);
    var end := at + |LetterText(l)|;
    StandsInside(p, at, LetterText(l));
    Utf8Bytes(l.cp);
    forall k | at <= k < end ensures p[k] == LetterText(l)[k - at] { ByteStands(p, at, LetterText(l), k - at); }
    if l.escaped {
      assert UnitEnd(p, at) == Ok(at + 2);
      QuietUnit(p, at, inTerm);
      forall k | at + 2 <= k < end ensures PlainIn(p[k], inTerm) { assert p[k] == t[k - at - 1]; }
      PlainIsQuiet(p, at + 2, end, inTerm);
      QuietJoins(p, at, at + 2, end, inTerm);
    } else {
      forall k | at <= k < end ensures PlainIn(p[k], inTerm) { assert p[k] == t[k - at]; }
      PlainIsQuiet(p, at, end, inTerm);
    }
  }

  lemma BracketIsQuiet(p: Text, at: nat, m: Mark, items: seq<Item>, inTerm: bool)
    requires BracketFits(m, items) && Stands(p, at, BracketText(m, items))
    ensures at + |BracketText(m, items)| <= |p| && Quiet(p, at, at + |BracketText(m, items)|, inTerm)
  {
    hide Quiet, BracketText, BracketFits, ScanBracket, Stands;
    var t := BracketText(m, items);
    StandsInside(p, at, t);
    StandsFirst(p, at, t);
    OpenStarts(m, items);
    BracketEnds(m, items, p[at + |t|..]);
    ByteStands(p, at, t, 0);
    assert UnitEnd(p, at) == Ok(at + |t|);
    QuietUnit(p, at, inTerm);
  }

  lemma StandsFirst(p: Text, at: nat, t: Text)
    requires Stands(p, at, t)
    ensures p[at..] == t + p[at + |t|..]
  {
    assert p[at..] == p[at..at + |t|] + p[at + |t|..];
  }

  lemma ElementIsQuiet(p: Text, at: nat, e: Element, inTerm: bool)
    requires ElementFits(e) && !e.OpenBrace? && Stands(p, at, ElementText(e))
    requires inTerm && e.Char? ==> !Bare(e.letter, 0x2C) && !Bare(e.letter, 0x7D)
    ensures at + |ElementText(e)| <= |p| && Quiet(p, at, at + |ElementText(e)|, inTerm)
  {
    hide Quiet, BracketText, BracketFits, AllProper, LetterText, CharFits, Stands;
    if e.Char? {
      CharIsQuiet(p, at, e.letter, inTerm);
    } else if e.Bracket? {
      BracketIsQuiet(p, at, e.mark, e.items, inTerm);
    } else {
      StandsInside(p, at, ElementText(e));
      forall k | at <= k < at + |ElementText(e)| ensures PlainIn(p[k], inTerm) {
        ByteStands(p, at, ElementText(e), k - at);
      }
      PlainIsQuiet(p, at, at + |ElementText(e)|, inTerm);
    }
  }

  /** No brace of the pattern is in what elements spell. */
  lemma {:induction false} ElementsAreQuiet(p: Text, at: nat, es: seq<Element>, inTerm: bool)
    requires AllFit(es) && Braceless(es) && (inTerm ==> TermFits(es)) && Stands(p, at, ElementsText(es))
    ensures at + |ElementsText(es)| <= |p| && Quiet(p, at, at + |ElementsText(es)|, inTerm)
    decreases |es|
  {
    hide Quiet, ElementFits, ElementText, ElementsText, Stands, Bare;
    StandsInside(p, at, ElementsText(es));
    if es == [] {
      NoText();
      NothingIsQuiet(p, at, inTerm);
    } else {
      TextUnfolds(es);
      var n := |ElementText(es[0])|;
      StandsApart(p, at, ElementText(es[0]), ElementsText(es[1..]));
      ElementIsQuiet(p, at, es[0], inTerm);
      ElementsAreQuiet(p, at + n, es[1..], inTerm);
      QuietJoins(p, at, at + n, at + |ElementsText(es)|, inTerm);
    }
  }

  // ---------- the braces of the text ----------

  function TermTexts(terms: seq<seq<Element>>): (r: seq<Text>)
    requires forall i :: 0 <= i < |terms| ==> AllFit(terms[i])
    ensures |r| == |terms|
  {
    seq(|terms|, i requires 0 <= i < |terms| => ElementsText(terms[i]))
  }

  lemma {:induction false} TermsStand(p: Text, at: nat, terms: seq<seq<Element>>)
    requires terms != [] && AllTermsFit(terms)
    requires Stands(p, at, TermsText(terms))
    ensures at + |TermsText(terms)| <= |p| && TermsFit(p, at, at + |TermsText(terms)|, TermTexts(terms))
    decreases |terms|
  {
    hide Quiet, ElementsText, Stands, TermFits, AllFit, TermTexts, TermsFit, Braceless;
    StandsInside(p, at, TermsText(terms));
    var first, rest := ElementsText(terms[0]), terms[1..];
    TermTextsAre(terms);
    if |terms| == 1 {
      StandsThere(p, at, first);
      ElementsAreQuiet(p, at, terms[0], true);
    } else {
      StandsApart(p, at, first + [0x2C], TermsText(rest));
      StandsApart(p, at, first, [0x2C]);
      StandsThere(p, at, first);
      ElementsAreQuiet(p, at, terms[0], true);
      StandsInside(p, at + |first|, [0x2C]);
      ByteStands(p, at + |first|, [0x2C], 0);
      TermsStand(p, at + |first| + 1, rest);
    }
    TermFirst(p, at, at + |TermsText(terms)|, TermTexts(terms));
  }

  lemma TermTextsAre(terms: seq<seq<Element>>)
    requires terms != [] && forall i :: 0 <= i < |terms| ==> AllFit(terms[i])
    ensures var r := TermTexts(terms); r != [] && r[0] == ElementsText(terms[0]) && r[1..] == TermTexts(terms[1..])
  {
    hide ElementsText, AllFit;
  }

  lemma TermFirst(p: Text, a: nat, b: nat, terms: seq<Text>)
    requires b <= |p| && terms != [] && a + |terms[0]| <= b
    requires var e := a + |terms[0]|;
             && p[a..e] == terms[0] && Quiet(p, a, e, true)
             && if |terms| == 1 then e == b else e < b && p[e] == COMMA && TermsFit(p, e + 1, b, terms[1..])
    ensures TermsFit(p, a, b, terms)
  {
    hide Quiet;
  }

  lemma StandsThere(p: Text, at: nat, t: Text)
    requires Stands(p, at, t)
    ensures at + |t| <= |p| && p[at..at + |t|] == t
  {
  }

  /** The brace expressions of a text of chunks that starts at `at`. */
  function BracesAt(chunks: seq<Chunk>, at: nat): seq<Brace>
    requires ChunksFit(chunks)
  {
    if chunks == [] then []
    else
      var end := at + |ChunkText(chunks[0])|;
      (if chunks[0].Fixed? then [] else [Brace(at, end, TermTexts(chunks[0].terms))]) + BracesAt(chunks[1..], end)
  }

  lemma ChunksUnfold(chunks: seq<Chunk>, at: nat)
    requires chunks != [] && ChunksFit(chunks)
    ensures ChunksFit(chunks[1..]) && ChunkFits(chunks[0])
    ensures ChunksText(chunks) == ChunkText(chunks[0]) + ChunksText(chunks[1..])
    ensures var end := at + |ChunkText(chunks[0])|;
            BracesAt(chunks, at) ==
            (if chunks[0].Fixed? then [] else [Brace(at, end, TermTexts(chunks[0].terms))]) + BracesAt(chunks[1..], end)
  {
    hide ChunkText;
  }

  /** They are where the text has them. */
  lemma {:induction false} ChunksAreBraced(p: Text, from: nat, at: nat, chunks: seq<Chunk>)
    requires ChunksFit(chunks) && from <= at <= |p| && Quiet(p, from, at, false)
    requires Stands(p, at, ChunksText(chunks)) && at + |ChunksText(chunks)| == |p|
    ensures WellBraced(p, from, BracesAt(chunks, at))
    decreases |chunks|
  {
    hide Quiet, Stands, ChunkFits, ChunksText, BracesAt, ChunkText, TermsFit, ChunksFit;
    if chunks == [] {
      NoChunks(at);
    } else {
      ChunksUnfold(chunks, at);
      var text, rest := ChunkText(chunks[0]), chunks[1..];
      var end := at + |text|;
      StandsApart(p, at, text, ChunksText(rest));
      StandsInside(p, at, text);
      if chunks[0].Fixed? {
        FixedIsQuiet(p, at, chunks[0]);
        QuietJoins(p, from, at, end, false);
        ChunksAreBraced(p, from, end, rest);
        assert [] + BracesAt(rest, end) == BracesAt(rest, end);
      } else {
        ChoiceStands(p, at, chunks[0]);
        NothingIsQuiet(p, end, false);
        ChunksAreBraced(p, end, end, rest);
        var braces := BracesAt(chunks, at);
        assert braces[1..] == BracesAt(rest, end);
      }
    }
  }

  lemma NoChunks(at: nat)
    ensures ChunksFit([]) && ChunksText([]) == [] && BracesAt([], at) == []
  {
  }

  lemma FixedIsQuiet(p: Text, at: nat, c: Chunk)
    requires c.Fixed? && ChunkFits(c) && Stands(p, at, ChunkText(c))
    ensures at + |ChunkText(c)| <= |p| && Quiet(p, at, at + |ChunkText(c)|, false)
  {
    hide Quiet, Stands, ElementsText, AllFit;
    ElementsAreQuiet(p, at, c.elements, false);
  }

  lemma ChoiceStands(p: Text, at: nat, c: Chunk)
    requires c.Choice? && ChunkFits(c) && Stands(p, at, ChunkText(c))
    ensures var end := at + |ChunkText(c)|;
            && at + 2 <= end <= |p| && p[at] == LBRACE && p[end - 1] == RBRACE
            && TermTexts(c.terms) != [[]] && TermsFit(p, at + 1, end - 1, TermTexts(c.terms))
  {
    hide Stands, TermsFit, TermsText, TermFits, ElementsText, AllFit;
    var inner := TermsText(c.terms);
    StandsApart(p, at, [0x7B] + inner, [0x7D]);
    StandsApart(p, at, [0x7B], inner);
    ByteStands(p, at, [0x7B], 0);
    ByteStands(p, at + 1 + |inner|, [0x7D], 0);
    StandsInside(p, at, ChunkText(c));
    TermsStand(p, at + 1, c.terms);
    if TermTexts(c.terms) == [[]] { OnlyEmptyTerm(c.terms); }
  }

  lemma OnlyEmptyTerm(terms: seq<seq<Element>>)
    requires (forall i :: 0 <= i < |terms| ==> AllFit(terms[i])) && TermTexts(terms) == [[]]
    ensures terms == [[]]
  {
    hide ElementsText, AllFit;
    assert |terms| == 1 && TermTexts(terms)[0] == ElementsText(terms[0]);
    TextStarts(terms[0]);
  }

  // ---------- the literal head ----------

  /** The head ends before the first brace, with whole units behind it. */
  lemma {:induction false} HeadIsQuiet(p: Text, a: nat, b: nat)
    requires a <= b <= |p| && Quiet(p, a, b, false) && (b == |p| || p[b] == LBRACE)
    ensures a + HeadSize(p[a..]) <= b && Quiet(p, a + HeadSize(p[a..]), b, false)
    decreases b - a
  {
    hide HeadSize, Quiet;
    var s := p[a..];
    if s == [] || Wildcard(s[0]) || BadEscape(s) {
      HeadStopsHere(s);
    } else {
      var n := if s[0] == BACKSLASH then 2 else 1;
      HeadGoesOn(s, n);
      assert s[n..] == p[a + n..];
      assert a != b;
      QuietStep(p, a, b, n);
      HeadIsQuiet(p, a + n, b);
    }
  }

  lemma HeadStopsHere(s: Text)
    requires s == [] || Wildcard(s[0]) || BadEscape(s)
    ensures HeadSize(s) == 0
  {
  }

  lemma HeadGoesOn(s: Text, n: nat)
    requires s != [] && !Wildcard(s[0]) && !BadEscape(s) && n == if s[0] == BACKSLASH then 2 else 1
    ensures n <= |s| && HeadSize(s) == n + HeadSize(s[n..])
  {
  }

  lemma QuietStep(p: Text, a: nat, b: nat, n: nat)
    requires a < b <= |p| && Quiet(p, a, b, false) && !Wildcard(p[a]) && !BadEscape(p[a..])
    requires n == if p[a] == BACKSLASH then 2 else 1
    ensures a + n <= b && Quiet(p, a + n, b, false)
  {
    assert UnitEnd(p, a) == Ok(a + n);
    QuietInside(p, a + n, b, false);
  }

  lemma HeadIsBraced(p: Text, braces: seq<Brace>)
    requires WellBraced(p, 0, braces)
    ensures HeadSize(p) <= |p| && WellBraced(p, HeadSize(p), braces)
    ensures braces != [] ==> HeadSize(p) <= braces[0].begin < |p| && p[braces[0].begin] == LBRACE
  {
    hide Quiet, HeadSize, TermsFit;
    assert p[0..] == p;
    HeadIsQuiet(p, 0, if braces == [] then |p| else braces[0].begin);
  }

  /** The braces expanded are those written. */
  lemma BracesFound(p: Text, braces: seq<Brace>, n: nat)
    requires WellBraced(p, 0, braces) && (n > 0 || braces == [])
    ensures SpecBraces(p, n) == Ok(braces)
  {
    hide WellBraced, HeadSize, Outside;
    HeadIsBraced(p, braces);
    var h := HeadSize(p);
    OutsideComplete(p, h, braces);
    if braces != [] { assert p[h..][braces[0].begin - h] == LBRACE; }
    if LBRACE !in p[h..] { assert braces == []; }
  }

  // ---------- picking terms ----------

  lemma {:induction false} PicksAreChoices(chunks: seq<Chunk>, picks: seq<nat>, at: nat)
    requires ChunksFit(chunks)
    ensures Picks(chunks, picks) <==> ValidChoice(picks, BracesAt(chunks, at))
    decreases |chunks|
  {
    hide ChunkText, BracesAt, ChunkFits, ChunksText, TermTexts, ChunksFit, ValidChoice;
    if chunks == [] {
      NoChunks(at);
      NoChoice(picks);
    } else {
      ChunksUnfold(chunks, at);
      var end := at + |ChunkText(chunks[0])|;
      var more := BracesAt(chunks[1..], end);
      if chunks[0].Fixed? {
        assert [] + more == more;
        PicksAreChoices(chunks[1..], picks, end);
      } else {
        TermCount(chunks[0]);
        if picks != [] { PicksAreChoices(chunks[1..], picks[1..], end); }
        ChoiceApart(picks, Brace(at, end, TermTexts(chunks[0].terms)), more);
      }
    }
  }

  lemma TermCount(c: Chunk)
    requires c.Choice? && ChunkFits(c)
    ensures |TermTexts(c.terms)| == |c.terms|
    ensures forall i :: 0 <= i < |c.terms| ==> AllFit(c.terms[i]) && TermTexts(c.terms)[i] == ElementsText(c.terms[i])
  {
    hide ElementsText, AllFit;
  }

  lemma NoChoice(picks: seq<nat>)
    ensures ValidChoice(picks, []) <==> picks == []
  {
  }

  lemma ChoiceApart(picks: seq<nat>, b: Brace, more: seq<Brace>)
    ensures ValidChoice(picks, [b] + more) <==>
            picks != [] && picks[0] < |b.terms| && ValidChoice(picks[1..], more)
  {
    var all := [b] + more;
    assert forall k :: 1 <= k < |all| ==> all[k] == more[k - 1];
    if picks != [] && |picks| == |all| {
      assert forall k :: 1 <= k < |picks| ==> picks[k] == picks[1..][k - 1];
      if picks[0] < |b.terms| && ValidChoice(picks[1..], more) {
        forall k | 0 <= k < |all| ensures picks[k] < |all[k].terms| {
          if k > 0 { assert picks[1..][k - 1] < |more[k - 1].terms|; }
        }
      }
      if ValidChoice(picks, all) {
        forall k | 0 <= k < |more| ensures picks[1..][k] < |more[k].terms| { assert picks[k + 1] < |all[k + 1].terms|; }
        assert picks[0] < |all[0].terms|;
      }
    }
  }

  lemma PickedFits(chunks: seq<Chunk>, picks: seq<nat>)
    requires ChunksFit(chunks) && Picks(chunks, picks)
    ensures AllFit(Picked(chunks, picks))
  {
    hide AllFit, TermFits;
    if chunks == [] {
      NoText();
    } else {
      ChunksUnfold(chunks, 0);
      var head := if chunks[0].Fixed? then chunks[0].elements else chunks[0].terms[picks[0]];
      var rest := if chunks[0].Fixed? then picks else picks[1..];
      PickedFits(chunks[1..], rest);
      TextConcat(head, Picked(chunks[1..], rest));
    }
  }

  lemma InOrderLater(p: Text, from: nat, at: nat, braces: seq<Brace>)
    requires InOrder(p, from, braces) && from <= at <= |p| && (braces != [] ==> at <= braces[0].begin)
    ensures InOrder(p, at, braces)
  {
  }

  /** What is before `at` is kept. */
  lemma {:induction false} ArmTextFrom(p: Text, from: nat, at: nat, braces: seq<Brace>, choice: seq<nat>)
    requires InOrder(p, from, braces) && InOrder(p, at, braces) && from <= at && ValidChoice(choice, braces)
    ensures ArmText(p, from, braces, choice) == p[from..at] + ArmText(p, at, braces, choice)
  {
    hide ArmText;
    var none: Text := [];
    ArmTextUnfolds(p, from, braces, choice);
    ArmTextUnfolds(p, at, braces, choice);
    if braces == [] {
      assert p[from..] == p[from..at] + p[at..];
    } else {
      assert p[from..braces[0].begin] == p[from..at] + p[at..braces[0].begin];
      assert none + ArmText(p, from, braces, choice) == ArmText(p, from, braces, choice);
    }
  }

  lemma {:induction false} BracesInOrder(p: Text, at: nat, chunks: seq<Chunk>)
    requires ChunksFit(chunks) && at + |ChunksText(chunks)| <= |p|
    ensures InOrder(p, at, BracesAt(chunks, at))
    ensures BracesAt(chunks, at) != [] ==> at <= BracesAt(chunks, at)[0].begin
    decreases |chunks|
  {
    hide ChunkText, BracesAt, ChunkFits, ChunksText, TermTexts, ChunksFit;
    if chunks == [] {
      NoChunks(at);
    } else {
      ChunksUnfold(chunks, at);
      var end := at + |ChunkText(chunks[0])|;
      var more := BracesAt(chunks[1..], end);
      BracesInOrder(p, end, chunks[1..]);
      if chunks[0].Fixed? {
        assert [] + more == more;
        InOrderSooner(p, at, end, more);
      } else {
        ChoiceHasText(chunks[0]);
        assert BracesAt(chunks, at)[1..] == more;
      }
    }
  }

  lemma InOrderSooner(p: Text, from: nat, at: nat, braces: seq<Brace>)
    requires InOrder(p, at, braces) && from <= at
    ensures InOrder(p, from, braces)
  {
  }

  lemma ChoiceHasText(c: Chunk)
    requires c.Choice? && ChunkFits(c)
    ensures |ChunkText(c)| >= 2
  {
    hide TermsText, TermFits;
  }

  /** The text of a choice is the text of the pattern picked. */
  lemma {:induction false} ArmIsPicked(p: Text, at: nat, chunks: seq<Chunk>, picks: seq<nat>)
    requires ChunksFit(chunks) && Picks(chunks, picks)
    requires Stands(p, at, ChunksText(chunks)) && at + |ChunksText(chunks)| == |p|
    requires InOrder(p, at, BracesAt(chunks, at)) && ValidChoice(picks, BracesAt(chunks, at))
    ensures AllFit(Picked(chunks, picks))
    ensures ArmText(p, at, BracesAt(chunks, at), picks) == ElementsText(Picked(chunks, picks))
    decreases |chunks|
  {
    hide ChunkText, BracesAt, ChunkFits, ChunksText, TermTexts, ChunksFit, ArmText, Stands, AllFit, ElementsText,
      InOrder, ValidChoice;
    PickedFits(chunks, picks);
    if chunks == [] {
      NoChunks(at);
      NoText();
      ArmOfNothing(p, at, picks);
    } else {
      ChunksUnfold(chunks, at);
      var text, rest := ChunkText(chunks[0]), chunks[1..];
      var end := at + |text|;
      var more := BracesAt(rest, end);
      StandsApart(p, at, text, ChunksText(rest));
      StandsThere(p, at, text);
      BracesInOrder(p, end, rest);
      if chunks[0].Fixed? {
        assert [] + more == more;
        ArmIsPicked(p, end, rest, picks);
        ArmTextFrom(p, at, end, more, picks);
        FixedText(chunks[0]);
        TextConcat(chunks[0].elements, Picked(rest, picks));
      } else {
        TermCount(chunks[0]);
        var b := Brace(at, end, TermTexts(chunks[0].terms));
        ChoiceApart(picks, b, more);
        ArmIsPicked(p, end, rest, picks[1..]);
        ArmOfBrace(p, at, b, more, picks);
        PickedFits(rest, picks[1..]);
        TextConcat(chunks[0].terms[picks[0]], Picked(rest, picks[1..]));
      }
    }
  }

  lemma FixedText(c: Chunk)
    requires c.Fixed? && ChunkFits(c)
    ensures AllFit(c.elements) && ChunkText(c) == ElementsText(c.elements)
  {
  }

  lemma ArmOfNothing(p: Text, at: nat, picks: seq<nat>)
    requires at == |p| && picks == []
    ensures InOrder(p, at, []) && ValidChoice(picks, []) && ArmText(p, at, [], picks) == []
  {
  }

  lemma ArmOfBrace(p: Text, at: nat, b: Brace, more: seq<Brace>, picks: seq<nat>)
    requires b.begin == at && InOrder(p, at, [b] + more) && InOrder(p, b.end, more)
    requires ValidChoice(picks, [b] + more) && picks != [] && picks[0] < |b.terms| && ValidChoice(picks[1..], more)
    ensures ArmText(p, at, [b] + more, picks) == b.terms[picks[0]] + ArmText(p, b.end, more, picks[1..])
  {
    var all := [b] + more;
    assert all[1..] == more && p[at..at] == [];
  }

  /** The whole text under a choice. */
  lemma ExpansionIsPicked(chunks: seq<Chunk>, picks: seq<nat>)
    requires ChunksFit(chunks) && Picks(chunks, picks)
    ensures var s, braces := ChunksText(chunks), BracesAt(chunks, 0);
            && WellBraced(s, 0, braces) && InOrder(s, HeadSize(s), braces) && ValidChoice(picks, braces)
            && AllFit(Picked(chunks, picks)) && Expansion(s, braces, picks) == ElementsText(Picked(chunks, picks))
  {
    hide WellBraced, HeadSize, BracesAt, ChunksText, ChunksFit, ArmText, AllFit, Picked, ElementsText, InOrder,
      ValidChoice, Quiet;
    var s, braces := ChunksText(chunks), BracesAt(chunks, 0);
    WholeStands(s);
    NothingIsQuiet(s, 0, false);
    ChunksAreBraced(s, 0, 0, chunks);
    PicksAreChoices(chunks, picks, 0);
    BracesInOrder(s, 0, chunks);
    ArmIsPicked(s, 0, chunks, picks);
    HeadIsBraced(s, braces);
    InOrderLater(s, 0, HeadSize(s), braces);
    ArmTextFrom(s, 0, HeadSize(s), braces, picks);
    assert s[0..HeadSize(s)] == s[..HeadSize(s)];
  }

  lemma WholeStands(s: Text)
    ensures Stands(s, 0, s)
  {
  }

  lemma NoBracesAt(chunks: seq<Chunk>, at: nat)
    requires ChunksFit(chunks)
    ensures NoBraces(chunks) <==> BracesAt(chunks, at) == []
    decreases |chunks|
  {
    hide ChunkText, BracesAt, ChunkFits, ChunksText, TermTexts, ChunksFit;
    if chunks == [] {
      NoChunks(at);
    } else {
      ChunksUnfold(chunks, at);
      NoBracesAt(chunks[1..], at + |ChunkText(chunks[0])|);
      assert forall i :: 1 <= i < |chunks| ==> chunks[i] == chunks[1..][i - 1];
    }
  }

  // ---------- the laws ----------

  /** Every way to pick gives a pattern. */
  ghost predicate AllWellFormed(chunks: seq<Chunk>) {
    forall picks :: Picks(chunks, picks) ==> WellFormed(Picked(chunks, picks))
  }

  ghost predicate SomePickFits(chunks: seq<Chunk>, path: Text) {
    exists picks :: Picks(chunks, picks) && FitsPath(Picked(chunks, picks), path)
  }

  lemma PickSpells(chunks: seq<Chunk>, picks: seq<nat>, path: Text)
    requires ChunksFit(chunks) && Picks(chunks, picks) && WellFormed(Picked(chunks, picks))
    ensures Spells(ChunksText(chunks), BracesAt(chunks, 0), picks)
    ensures SpellsFor(ChunksText(chunks), BracesAt(chunks, 0), picks, path) <==> FitsPath(Picked(chunks, picks), path)
  {
    hide ChunksText, BracesAt, ChunksFit, WellFormed, FitsPath, Expansion, HeadSize, ParsePattern, Accepts, Picked,
      ElementsText, WellBraced, InOrder, ValidChoice;
    ExpansionIsPicked(chunks, picks);
    WrittenAccepts(Picked(chunks, picks), path);
  }

  /** A pattern matches exactly the paths that it fits with some terms picked. */
  lemma PatternMatches(chunks: seq<Chunk>, n: nat, path: Text)
    requires ChunksFit(chunks) && AllWellFormed(chunks) && (n > 0 || NoBraces(chunks))
    ensures Matches(ChunksText(chunks), n, path) <==> SomePickFits(chunks, path)
  {
    hide ChunksText, BracesAt, ChunksFit, WellFormed, FitsPath, SpellsFor, SpecBraces, Picked, WellBraced, Picks,
      NoBraces, Quiet;
    var s, braces := ChunksText(chunks), BracesAt(chunks, 0);
    WholeStands(s);
    NothingIsQuiet(s, 0, false);
    ChunksAreBraced(s, 0, 0, chunks);
    NoBracesAt(chunks, 0);
    BracesFound(s, braces, n);
    if SomePickFits(chunks, path) {
      var picks :| Picks(chunks, picks) && FitsPath(Picked(chunks, picks), path);
      PickSpells(chunks, picks, path);
    }
    if Matches(s, n, path) {
      var choice :| SpellsFor(s, braces, choice, path);
      ChoiceIsValid(s, braces, choice, path);
      PicksAreChoices(chunks, choice, 0);
      PickSpells(chunks, choice, path);
    }
  }

  lemma ChoiceIsValid(s: Text, braces: seq<Brace>, choice: seq<nat>, path: Text)
    requires SpellsFor(s, braces, choice, path)
    ensures ValidChoice(choice, braces)
  {
    hide InOrder, Expansion, ParsePattern, Accepts, HeadSize;
  }

  // ---------- which patterns compile ----------

  lemma {:induction false} CountFront(b: Brace, more: seq<Brace>)
    ensures Count([b] + more) == |b.terms| * Count(more)
    decreases |more|
  {
    hide Count;
    var all := [b] + more;
    CountUnfolds(all);
    if more == [] {
      assert all[..0] == [] && all[0] == b;
      CountUnfolds([]);
    } else {
      var n := |more| - 1;
      assert all[..|all| - 1] == [b] + more[..n] && all[|all| - 1] == more[n];
      CountFront(b, more[..n]);
      CountUnfolds(more);
      Associates(|b.terms|, Count(more[..n]), |more[n].terms|);
    }
  }

  lemma CountUnfolds(braces: seq<Brace>)
    ensures Count(braces) ==
            if braces == [] then 1 else Count(braces[..|braces| - 1]) * |braces[|braces| - 1].terms|
  {
  }

  lemma Associates(a: nat, b: nat, c: nat)
    ensures (a * b) * c == a * (b * c)
  {
  }

  /** As many arms as ways to pick. */
  lemma {:induction false} CountIsWays(chunks: seq<Chunk>, at: nat)
    requires ChunksFit(chunks)
    ensures Count(BracesAt(chunks, at)) == Ways(chunks)
    decreases |chunks|
  {
    hide ChunkText, BracesAt, ChunkFits, ChunksText, TermTexts, ChunksFit, Count;
    if chunks == [] {
      NoChunks(at);
      CountUnfolds([]);
    } else {
      ChunksUnfold(chunks, at);
      var end := at + |ChunkText(chunks[0])|;
      var more := BracesAt(chunks[1..], end);
      CountIsWays(chunks[1..], end);
      if chunks[0].Fixed? {
        assert [] + more == more;
      } else {
        TermCount(chunks[0]);
        CountFront(Brace(at, end, TermTexts(chunks[0].terms)), more);
      }
    }
  }

  lemma OneByteUtf8(b: byte)
    requires b < 0x80
    ensures IsUtf8([b])
  {
  }

  lemma CharacterUtf8(cp: int)
    requires Scalar(cp)
    ensures IsUtf8(Utf8(cp))
  {
    hide Utf8, StartsCharacter, AtomLen;
    Utf8Reads(cp, []);
    Utf8Bytes(cp);
    assert Utf8(cp) + [] == Utf8(cp) && Utf8(cp)[|Utf8(cp)|..] == [];
    UnitUtf8(Utf8(cp));
  }

  lemma UnitUtf8(t: Text)
    requires t != [] && StartsCharacter(t) && t[AtomLen(t)..] == []
    ensures IsUtf8(t)
  {
    hide StartsCharacter, AtomLen;
    assert IsUtf8([]);
  }

  lemma LetterUtf8(l: Letter)
    requires Scalar(l.cp)
    ensures IsUtf8(LetterText(l))
  {
    hide IsUtf8, Utf8;
    CharacterUtf8(l.cp);
    OneByteUtf8(BACKSLASH);
    Utf8Concat([BACKSLASH], Utf8(l.cp));
    assert [] + Utf8(l.cp) == Utf8(l.cp);
  }

  lemma {:induction false} ItemsUtf8(items: seq<Item>)
    requires forall i :: 0 <= i < |items| ==> ItemEncodes(items[i])
    ensures IsUtf8(ItemsText(items))
  {
    hide IsUtf8, LetterText, Utf8;
    if items == [] {
      EmptyUtf8();
    } else {
      var item := items[0];
      assert ItemEncodes(item);
      LetterUtf8(Low(item));
      LetterUtf8(High(item));
      OneByteUtf8(0x2D);
      Utf8Concat(LetterText(Low(item)), [0x2D]);
      Utf8Concat(LetterText(Low(item)) + [0x2D], LetterText(High(item)));
      ItemsUtf8(items[1..]);
      Utf8Concat(ItemText(item), ItemsText(items[1..]));
    }
  }

  lemma EmptyUtf8()
    ensures IsUtf8([])
  {
  }

  lemma BracketUtf8(m: Mark, items: seq<Item>)
    requires BracketFits(m, items)
    ensures IsUtf8(BracketText(m, items))
  {
    hide IsUtf8, ItemsText, ItemsFit;
    FittingItemsEncode(items, true, false);
    ItemsUtf8(items);
    EmptyUtf8();
    OneByteUtf8(0x5B);
    OneByteUtf8(0x5D);
    OneByteUtf8(0x21);
    OneByteUtf8(0x5E);
    Utf8Concat([0x5B], MarkText(m));
    Utf8Concat([0x5B] + MarkText(m), ItemsText(items));
    Utf8Concat([0x5B] + MarkText(m) + ItemsText(items), [0x5D]);
  }

  lemma {:induction false} StarsUtf8(n: nat)
    ensures IsUtf8(StarsText(n))
  {
    hide IsUtf8;
    if n == 0 {
      EmptyUtf8();
      assert StarsText(0) == [];
    } else {
      StarsUtf8(n - 1);
      OneByteUtf8(0x2A);
      Utf8Concat([0x2A], StarsText(n - 1));
      assert StarsText(n) == [0x2A] + StarsText(n - 1);
    }
  }

  lemma ElementUtf8(e: Element)
    requires ElementFits(e)
    ensures IsUtf8(ElementText(e))
  {
    hide IsUtf8, LetterText, BracketText, BracketFits, AllProper;
    match e
    case Char(l) => LetterUtf8(l);
    case Question => OneByteUtf8(0x3F);
    case Slash => OneByteUtf8(0x2F);
    case OpenBrace => OneByteUtf8(0x7B);
    case Bracket(m, items) => BracketUtf8(m, items);
    case Stars(n) => StarsUtf8(n);
  }

  lemma {:induction false} ElementsUtf8(es: seq<Element>)
    requires AllFit(es)
    ensures IsUtf8(ElementsText(es))
  {
    hide IsUtf8, ElementText, ElementFits, ElementsText;
    if es == [] {
      NoText();
      EmptyUtf8();
    } else {
      TextUnfolds(es);
      ElementUtf8(es[0]);
      ElementsUtf8(es[1..]);
      Utf8Concat(ElementText(es[0]), ElementsText(es[1..]));
    }
  }

  lemma {:induction false} TermsUtf8Text(terms: seq<seq<Element>>)
    requires terms != [] && forall i :: 0 <= i < |terms| ==> AllFit(terms[i])
    ensures IsUtf8(TermsText(terms))
  {
    hide IsUtf8, ElementsText, AllFit;
    ElementsUtf8(terms[0]);
    if |terms| > 1 {
      OneByteUtf8(0x2C);
      TermsUtf8Text(terms[1..]);
      Utf8Concat(ElementsText(terms[0]), [0x2C]);
      Utf8Concat(ElementsText(terms[0]) + [0x2C], TermsText(terms[1..]));
    }
  }

  lemma {:induction false} ChunksUtf8(chunks: seq<Chunk>)
    requires ChunksFit(chunks)
    ensures IsUtf8(ChunksText(chunks))
  {
    hide IsUtf8, ElementsText, AllFit, TermsText, TermFits, ChunksText;
    if chunks == [] {
      NoChunks(0);
      EmptyUtf8();
    } else {
      ChunksUnfold(chunks, 0);
      var c := chunks[0];
      if c.Fixed? {
        ElementsUtf8(c.elements);
      } else {
        OneByteUtf8(0x7B);
        OneByteUtf8(0x7D);
        TermsUtf8Text(c.terms);
        Utf8Concat([0x7B], TermsText(c.terms));
        Utf8Concat([0x7B] + TermsText(c.terms), [0x7D]);
      }
      ChunksUtf8(chunks[1..]);
      Utf8Concat(ChunkText(c), ChunksText(chunks[1..]));
    }
  }

  /** A written pattern compiles exactly when there are not too many ways to pick. */
  lemma PatternCompiles(chunks: seq<Chunk>, n: nat)
    requires ChunksFit(chunks) && AllWellFormed(chunks) && (n > 0 || NoBraces(chunks))
    ensures Compiles(ChunksText(chunks), n) <==> NoBraces(chunks) || Ways(chunks) <= n
  {
    hide ChunksText, BracesAt, ChunksFit, WellFormed, Spells, SpecBraces, Picked, WellBraced, Picks, NoBraces, Quiet,
      IsUtf8, Count, Ways, ValidChoice;
    var s, braces := ChunksText(chunks), BracesAt(chunks, 0);
    ChunksUtf8(chunks);
    WholeStands(s);
    NothingIsQuiet(s, 0, false);
    ChunksAreBraced(s, 0, 0, chunks);
    NoBracesAt(chunks, 0);
    BracesFound(s, braces, n);
    CountIsWays(chunks, 0);
    forall choice | ValidChoice(choice, braces) ensures Spells(s, braces, choice) {
      PicksAreChoices(chunks, choice, 0);
      PickSpells(chunks, choice, []);
    }
  }

  /** A text of elements compiles exactly when no two separators meet and no more than two
      stars do. */
  lemma PlainPatternCompiles(es: seq<Element>, n: nat)
    requires AllFit(es) && Apart(es) && (n == 0 || Braceless(es))
    ensures Compiles(ElementsText(es), n) <==> NoTwoSlashes(es) && AtMostTwoStars(es)
  {
    hide AllFit, ElementsText, ParsePattern, HeadSize, Expansion, IsUtf8, SpecBraces, InOrder, ValidChoice, Count,
      NoTwoSlashes, AtMostTwoStars, Apart, Quiet, WellBraced;
    var s := ElementsText(es);
    ElementsUtf8(es);
    WellFormedOrNot(es);
    OnlyChoice(s);
    if n == 0 {
      NoneExpanded(s);
    } else {
      WholeStands(s);
      ElementsAreQuiet(s, 0, es, false);
      NothingButText(s);
      BracesFound(s, [], n);
    }
    assert Spells(s, [], []) <==> WellFormed(es);
  }

  lemma NoneExpanded(s: Text)
    ensures SpecBraces(s, 0) == Ok([])
  {
    hide HeadSize, Outside;
  }

  lemma NothingButText(s: Text)
    requires Quiet(s, 0, |s|, false)
    ensures WellBraced(s, 0, [])
  {
  }

  /** Text that ends in a lone backslash, escapes a separator or leaves a bracket open: cut off
      before it could be read. */
  predicate CutOff(t: Text) {
    || t == [0x5C]
    || (|t| >= 2 && t[0] == 0x5C && t[1] == 0x2F)
    || (|t| >= 1 && t[0] == 0x5B && forall i :: 1 <= i < |t| ==> t[i] != 0x5D)
  }

  lemma CutOffFails(t: Text)
    requires CutOff(t)
    ensures ParseSegment(t).Err? && t[0] != STAR
  {
    hide Members, StarRun;
    if t[0] == OPEN {
      NoneCloses(t, MembersFrom(t));
    }
  }

  lemma {:induction false} NoneCloses(t: Text, j: nat)
    requires j <= |t| && forall i :: j <= i < |t| ==> t[i] != CLOSE
    ensures ScanFrom(t, j).Err?
    decreases |t| - j
  {
    if j < |t| && !(t[j] == BACKSLASH && j + 1 == |t|) {
      NoneCloses(t, if t[j] == BACKSLASH then j + 2 else j + 1);
    }
  }

  lemma NoneFound(s: Text, n: nat)
    requires n == 0 || LBRACE !in s
    ensures SpecBraces(s, n) == Ok([])
  {
    hide HeadSize, Outside;
  }

  /** A pattern cut off is none. */
  lemma CutOffCompilesNot(es: seq<Element>, t: Text, n: nat)
    requires AllFit(es) && Apart(es) && CutOff(t) && (n == 0 || LBRACE !in ElementsText(es) + t)
    ensures !Compiles(ElementsText(es) + t, n)
  {
    hide AllFit, ElementsText, ParseParts, ParseSegment, HeadSize, Expansion, IsUtf8, SpecBraces, InOrder,
      ValidChoice, Count, Apart, CutOff;
    var s := ElementsText(es) + t;
    CutOffFails(t);
    BadTail(es, t);
    OnlyChoice(s);
    NoneFound(s, n);
    assert !Spells(s, [], []);
  }

  // ---------- brackets ----------

  lemma OneFixed(es: seq<Element>)
    requires WellFormed(es) && Braceless(es)
    ensures var chunks := [Fixed(es)];
            && ChunksFit(chunks) && NoBraces(chunks) && AllWellFormed(chunks)
            && ChunksText(chunks) == ElementsText(es) && Picks(chunks, []) && Picked(chunks, []) == es
            && forall picks :: Picks(chunks, picks) ==> picks == []
  {
    hide WellFormed, AllFit, ElementsText;
    FitsWell(es);
    var chunks := [Fixed(es)];
    ChunksUnfold(chunks, 0);
    FixedText(chunks[0]);
    assert chunks[1..] == [] && Picked([], []) == [] && es + [] == es;
    assert ElementsText(es) + [] == ElementsText(es);
    forall picks ensures Picks(chunks, picks) <==> picks == [] { assert Picks([], picks) <==> picks == []; }
  }

  lemma OnlyChoice(s: Text)
    ensures InOrder(s, HeadSize(s), []) && ValidChoice([], []) && Expansion(s, [], []) == s
    ensures forall choice :: ValidChoice(choice, []) ==> choice == []
  {
    hide HeadSize;
    assert s[..HeadSize(s)] + s[HeadSize(s)..] == s;
  }

  /** When braces are not expanded, the text is read as it is. */
  lemma NotExpanded(es: seq<Element>, path: Text)
    requires WellFormed(es)
    ensures AllFit(es) && (Matches(ElementsText(es), 0, path) <==> FitsPath(es, path))
  {
    hide WellFormed, AllFit, ElementsText, FitsPath, HeadSize, Expansion, ParsePattern, Accepts, InOrder, ValidChoice;
    WrittenAccepts(es, path);
    var s := ElementsText(es);
    OnlyChoice(s);
    assert SpecBraces(s, 0) == Ok([]);
    assert SpellsFor(s, [], [], path) <==> FitsPath(es, path);
  }

  /** A pattern without braces matches the paths it fits; one with a brace too, when braces
      are not expanded. */
  lemma PlainPatternMatches(es: seq<Element>, n: nat, path: Text)
    requires WellFormed(es) && (n == 0 || Braceless(es))
    ensures AllFit(es) && (Matches(ElementsText(es), n, path) <==> FitsPath(es, path))
  {
    hide WellFormed, AllFit, ElementsText, Matches, FitsPath, ChunksFit, ChunksText, Picks, Picked, AllWellFormed,
      NoBraces;
    FitsWell(es);
    if n == 0 {
      NotExpanded(es, path);
    } else {
      OneFixed(es);
      PatternMatches([Fixed(es)], n, path);
    }
  }

  /** A bracket matches one character: one that is listed, or with a mark one that is not,
      and never a separator. */
  lemma BracketMatches(m: Mark, items: seq<Item>, n: nat, path: Text)
    requires BracketFits(m, items) && AllProper(items)
    ensures Matches(BracketText(m, items), n, path) <==>
            SLASH !in path && |Atoms(path)| == 1 && (Listed(items, Atoms(path)[0]) <==> m.Plainly?)
  {
    hide Matches, BracketText, BracketFits, AllProper, Listed, Atoms, FitsPath;
    var e := Bracket(m, items);
    var es := [e];
    BracketAlone(e);
    PlainPatternMatches(es, n, path);
    OneElementPath(e, path);
  }

  lemma BracketAlone(e: Element)
    requires e.Bracket? && BracketFits(e.mark, e.items) && AllProper(e.items)
    ensures WellFormed([e]) && AllFit([e]) && ElementsText([e]) == BracketText(e.mark, e.items)
  {
    hide BracketText, BracketFits, AllProper;
    TextUnfolds([e]);
    assert [e][1..] == [];
    NoText();
    assert BracketText(e.mark, e.items) + [] == BracketText(e.mark, e.items);
  }

  lemma OneElementPath(e: Element, path: Text)
    requires e.Bracket?
    ensures FitsPath([e], path) <==>
            SLASH !in path && |Atoms(path)| == 1 && (Listed(e.items, Atoms(path)[0]) <==> e.mark.Plainly?)
  {
    hide Atoms, Listed, PathFits, Split, SegmentFits;
    OneElement(e);
    var segs := Split(path);
    OnePath(e, AllAtoms(segs));
    if SLASH !in path {
      SplitAt(path, []);
      assert AllAtoms(segs) == [Atoms(path)];
    } else {
      SplitsApart(path);
    }
  }

  lemma OneElement(e: Element)
    requires !e.Slash?
    ensures Segments([e]) == [[e]]
  {
    assert [e][1..] == [] && SegmentSize([]) == 0;
  }

  lemma OnePath(e: Element, cs: seq<seq<int>>)
    requires e.Bracket? && cs != []
    ensures PathFits([[e]], cs, false) <==>
            |cs| == 1 && |cs[0]| == 1 && (Listed(e.items, cs[0][0]) <==> e.mark.Plainly?)
  {
    hide Listed, SegmentFits, AllTwoStars;
    var es := [e];
    assert es[0] != TWO_STARS[0];
    OneElementFits(es, cs[0]);
    assert es[1..] == [];
    if cs[0] != [] { NothingLeft(cs[0][1..]); }
  }

  lemma NothingLeft(cs: seq<int>)
    ensures SegmentFits([], cs) <==> cs == []
  {
  }

  lemma SplitsApart(path: Text)
    requires SLASH in path
    ensures |Split(path)| > 1
  {
    assert path[..|path|] == path;
    var e := SegmentEnd(path);
  }

  /** The same for a path of one written character. */
  lemma BracketMatchesCharacter(m: Mark, items: seq<Item>, n: nat, cp: int)
    requires BracketFits(m, items) && AllProper(items) && Scalar(cp) && cp != 0x2F
    ensures Matches(BracketText(m, items), n, Utf8(cp)) <==> (Listed(items, cp) <==> m.Plainly?)
  {
    hide Matches, BracketText, BracketFits, AllProper, Listed, Utf8, AtomLen, AtomValue, StartsCharacter;
    var path := Utf8(cp);
    Utf8Reads(cp, []);
    assert path + [] == path;
    Utf8Bytes(cp);
    AtomsUnfold(path);
    assert path[|path|..] == [];
    NoAtoms();
    BracketMatches(m, items, n, path);
  }

  /** A bracket with a range that goes backwards is no pattern, and that is the reason given. */
  lemma BackwardRange(m: Mark, items: seq<Item>, n: nat, e: GlobError)
    requires BracketFits(m, items) && !AllProper(items)
    ensures !Compiles(BracketText(m, items), n) && (Wrong(BracketText(m, items), n, e) ==> e == InvalidRange)
  {
    hide BracketText, BracketFits, AllProper, IsUtf8, Quiet, ParseParts, HeadSize, Stands, ParseSegment, Outside;
    var s := BracketText(m, items);
    BracketUtf8(m, items);
    WholeStands(s);
    BracketIsQuiet(s, 0, m, items, false);
    NothingButText(s);
    BracesFound(s, [], n);
    BracketReads(m, items, []);
    assert s + [] == s;
    PartsFail(s, InvalidRange);
    OpenStarts(m, items);
    HeadStopsHere(s);
    NoChoice([]);
    assert s[..0] == [] && [] + s == s && s[0..] == s;
    OnlyChoice(s);
    assert !Spells(s, [], []);
  }

  lemma PartsFail(s: Text, e: GlobError)
    requires ParseSegment(s) == Err(e)
    ensures ParsePattern(s, true) == Err(e)
  {
  }
}
