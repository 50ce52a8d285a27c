/** What a pattern somebody wrote matches, told by what it is made of: characters, wildcards,
    brackets, separators and braces. The laws name none of the functions that read it. */
module GlobWritten {
  import opened GlobText
  import opened GlobSpec
  import opened GlobClass
  import opened GlobSyntax
  import opened GlobLetters

  // ---------- elements ----------

  datatype Element =
    | Char(letter: Letter)
    | Question
    | Stars(count: nat)
    | Bracket(mark: Mark, items: seq<Item>)
    | OpenBrace
    | Slash

  /** May the letter stand outside brackets? What means something else needs a backslash. */
  predicate CharFits(l: Letter) {
    && Scalar(l.cp) && l.cp != 0x2F
    && !Bare(l, 0x5C) && !Bare(l, 0x5B) && !Bare(l, 0x2A) && !Bare(l, 0x3F) && !Bare(l, 0x7B)
  }

  predicate ElementFits(e: Element) {
    match e
    case Char(l) => CharFits(l)
    case Stars(n) => n > 0
    case Bracket(m, items) => BracketFits(m, items) && AllProper(items)
    case _ => true
  }

  function StarsText(n: nat): (t: Text)
    ensures |t| == n && forall i :: 0 <= i < n ==> t[i] == STAR
  {
    seq(n, _ => 0x2A)
  }

  function ElementText(e: Element): Text
    requires ElementFits(e)
  {
    match e
    case Char(l) => LetterText(l)
    case Question => [0x3F]
    case Stars(n) => StarsText(n)
    case Bracket(m, items) => BracketText(m, items)
    case OpenBrace => [0x7B]
    case Slash => [0x2F]
  }

  predicate AllFit(es: seq<Element>) { forall i :: 0 <= i < |es| ==> ElementFits(es[i]) }

  function ElementsText(es: seq<Element>): Text
    requires AllFit(es)
  {
    if es == [] then [] else ElementText(es[0]) + ElementsText(es[1..])
  }

  /** Stars are counted together. */
  predicate Apart(es: seq<Element>) { forall i :: 0 <= i < |es| - 1 && es[i].Stars? ==> !es[i + 1].Stars? }

  predicate NoTwoSlashes(es: seq<Element>) { forall i :: 0 <= i < |es| - 1 && es[i].Slash? ==> !es[i + 1].Slash? }

  predicate AtMostTwoStars(es: seq<Element>) { forall i :: 0 <= i < |es| && es[i].Stars? ==> es[i].count <= 2 }

  /** A pattern: no two separators meet, and no more than two stars. */
  predicate WellFormed(es: seq<Element>) { AllFit(es) && Apart(es) && NoTwoSlashes(es) && AtMostTwoStars(es) }

  // ---------- what it means ----------

  /** Does the segment match the characters? */
  ghost predicate SegmentFits(es: seq<Element>, cs: seq<int>)
    decreases |es|
  {
    if es == [] then cs == []
    else
      match es[0]
      case Char(l) => cs != [] && cs[0] == l.cp && SegmentFits(es[1..], cs[1..])
      case Question => cs != [] && SegmentFits(es[1..], cs[1..])
      case Bracket(m, items) => cs != [] && Listed(items, cs[0]) == m.Plainly? && SegmentFits(es[1..], cs[1..])
      case Stars(_) => exists k :: 0 <= k <= |cs| && SegmentFits(es[1..], cs[k..])
      case OpenBrace => cs != [] && cs[0] == 0x7B && SegmentFits(es[1..], cs[1..])
      case Slash => false
  }

  /** How many elements come before the first separator. */
  function SegmentSize(es: seq<Element>): (k: nat)
    ensures k <= |es| && (k < |es| ==> es[k].Slash?) && forall i :: 0 <= i < k ==> !es[i].Slash?
  {
    if es == [] || es[0].Slash? then 0 else 1 + SegmentSize(es[1..])
  }

  /** What the separators part. */
  function Segments(es: seq<Element>): (r: seq<seq<Element>>)
    ensures r != []
  {
    var k := SegmentSize(es);
    if k == |es| then [es] else [es[..k]] + Segments(es[k + 1..])
  }

  const TWO_STARS: seq<Element> := [Stars(2)]

  predicate AllTwoStars(segs: seq<seq<Element>>) { forall i :: 0 <= i < |segs| ==> segs[i] == TWO_STARS }

  /** Do the segments match those of a path? Two stars alone stand for any number of them;
      what follows may be missing when it is only that; and a separator at the end behind
      them asks for one segment, any at all. */
  ghost predicate PathFits(segs: seq<seq<Element>>, path: seq<seq<int>>, afterStars: bool)
    requires segs != [] && path != []
    decreases |segs|
  {
    if segs[0] == TWO_STARS then |segs| == 1 || exists k :: 0 <= k < |path| && PathFits(segs[1..], path[k..], true)
    else
      && (SegmentFits(segs[0], path[0]) || (afterStars && segs == [[]]))
      && if |segs| == 1 then |path| == 1
         else if |path| > 1 then PathFits(segs[1..], path[1..], false)
         else AllTwoStars(segs[1..])
  }

  function AllAtoms(path: seq<Text>): (r: seq<seq<int>>)
    ensures |r| == |path|
  {
    seq(|path|, i requires 0 <= i < |path| => Atoms(path[i]))
  }

  /** The pattern matches the path. */
  ghost predicate FitsPath(es: seq<Element>, path: Text) { PathFits(Segments(es), AllAtoms(Split(path)), false) }

  // ---------- the tokens it is read as ----------

  function ElementTokens(e: Element): seq<Token>
    requires ElementFits(e)
  {
    match e
    case Char(l) => Bytes(Utf8(l.cp))
    case Question => [Any]
    case Stars(_) => [Star]
    case Bracket(m, items) => [Class(!m.Plainly?, Ranges(items))]
    case OpenBrace => Bytes([0x7B])
    case Slash => []
  }

  function TokensOf(es: seq<Element>): seq<Token>
    requires AllFit(es)
  {
    if es == [] then [] else ElementTokens(es[0]) + TokensOf(es[1..])
  }

  lemma CharIsLiteral(l: Letter)
    requires CharFits(l)
    ensures LiteralRaw(LetterText(l)) && SLASH !in LetterText(l) && Resolve(LetterText(l)) == Utf8(l.cp)
  {
    hide Utf8, LiteralRaw, Resolve, Bare, GoodUnit;
    var t := Utf8(l.cp);
    Utf8Bytes(l.cp);
    HighIsLiteral(t[1..]);
    assert t == [t[0]] + t[1..];
    LiteralUnit(LetterText(l));
    CharIsGood(l);
    if l.escaped {
      assert LetterText(l)[1] == t[0] && LetterText(l)[2..] == t[1..];
    } else {
      assert LetterText(l) == t;
    }
  }

  lemma CharIsGood(l: Letter)
    requires CharFits(l)
    ensures LetterText(l) != [] && GoodUnit(LetterText(l)) && (LetterText(l)[0] == BACKSLASH <==> l.escaped)
  {
    hide Utf8;
    Utf8Bytes(l.cp);
  }

  /** Bytes outside ASCII are all literal. */
  lemma {:induction false} HighIsLiteral(t: Text)
    requires forall i :: 0 <= i < |t| ==> t[i] >= 0x80
    ensures LiteralRaw(t) && Resolve(t) == t
  {
    if t != [] {
      HighIsLiteral(t[1..]);
      assert t == [t[0]] + t[1..];
    }
  }

  lemma ElementStarts(e: Element)
    requires ElementFits(e)
    ensures ElementText(e) != []
    ensures ElementText(e)[0] == STAR <==> e.Stars?
    ensures ElementText(e)[0] == SLASH <==> e.Slash?
  {
    hide LetterText, BracketText, BracketFits, AllProper;
    match e
    case Char(l) =>
      LetterStart(l);
      assert !Bare(l, STAR) && !Bare(l, SLASH);
    case Bracket(m, items) => OpenStarts(m, items);
    case _ =>
  }

  lemma OpenStarts(m: Mark, items: seq<Item>)
    requires BracketFits(m, items)
    ensures BracketText(m, items) != [] && BracketText(m, items)[0] == OPEN
  {
    hide ItemsText;
  }

  lemma TextStarts(es: seq<Element>)
    requires AllFit(es)
    ensures es == [] <==> ElementsText(es) == []
    ensures es != [] ==> (ElementsText(es)[0] == STAR <==> es[0].Stars?)
    ensures es != [] ==> (ElementsText(es)[0] == SLASH <==> es[0].Slash?)
  {
    hide ElementText, ElementFits;
    if es != [] {
      ElementStarts(es[0]);
      assert ElementsText(es)[0] == ElementText(es[0])[0];
    }
  }

  /** One element is read as its tokens. */
  lemma ElementReads(e: Element, more: Text)
    requires ElementFits(e) && !e.Slash? && (e.Stars? ==> more == [] || more[0] != STAR)
    ensures ParseSegment(ElementText(e) + more) ==
            if e.Stars? && e.count > 2 then Err(MultipleStar) else PrependTokens(ElementTokens(e), ParseSegment(more))
  {
    hide ParseSegment, LiteralRaw, Resolve, LetterText, BracketText, BracketFits, AllProper, Ranges, Bytes, Utf8;
    match e
    case Char(l) =>
      CharIsLiteral(l);
      SegmentBehindLiteral(LetterText(l), more);
    case Question => QuestionReads(more);
    case Stars(n) => StarsRead(n, more);
    case OpenBrace => OpenBraceReads(more);
    case Bracket(m, items) =>
      BracketReads(m, items, more);
      ThenIsPrepend(ElementTokens(e)[0], ParseSegment(more));
  }

  lemma ThenIsPrepend(t: Token, r: Result<Reading>)
    ensures Then(t, r) == PrependTokens([t], r)
  {
  }

  lemma QuestionReads(more: Text)
    ensures ParseSegment([0x3F] + more) == PrependTokens([Any], ParseSegment(more))
  {
    hide ScanBracket, Members, StarRun;
    assert ([0x3F] + more)[1..] == more;
    ThenIsPrepend(Any, ParseSegment(more));
  }

  lemma OpenBraceReads(more: Text)
    ensures ParseSegment([0x7B] + more) == PrependTokens(Bytes([0x7B]), ParseSegment(more))
  {
    hide ParseSegment;
    ParseLiteralStep([0x7B] + more);
    assert ([0x7B] + more)[1..] == more && Bytes([0x7B]) == [Literal([0x7B])];
    ThenIsPrepend(Literal([0x7B]), ParseSegment(more));
  }

  lemma StarsRead(n: nat, more: Text)
    requires n > 0 && (more == [] || more[0] != STAR)
    ensures ParseSegment(StarsText(n) + more) ==
            if n > 2 then Err(MultipleStar) else PrependTokens([Star], ParseSegment(more))
  {
    hide ScanBracket, Members, StarRun;
    var s := StarsText(n) + more;
    RunIs(s, n, more);
    assert s[n..] == more && s[0] == STAR;
    ThenIsPrepend(Star, ParseSegment(more));
  }

  lemma RunIs(s: Text, n: nat, more: Text)
    requires (more == [] || more[0] != STAR) && s == StarsText(n) + more
    ensures StarRun(s) == n
  {
    hide StarRun;
    var k := StarRun(s);
    assert forall i :: 0 <= i < n ==> s[i] == STAR;
    assert n < |s| ==> s[n] == more[0];
  }

  lemma WellFormedRest(es: seq<Element>)
    requires es != [] && WellFormed(es)
    ensures WellFormed(es[1..]) && ElementFits(es[0])
    ensures es[0].Stars? ==> es[0].count <= 2
    ensures es[0].Stars? && |es| > 1 ==> !es[1..][0].Stars?
    ensures es[0].Slash? && |es| > 1 ==> !es[1..][0].Slash?
  {
    hide ElementFits;
    assert forall i :: 0 <= i < |es[1..]| ==> es[1..][i] == es[i + 1];
  }

  lemma {:induction false} TextConcat(a: seq<Element>, b: seq<Element>)
    requires AllFit(a) && AllFit(b)
    ensures AllFit(a + b) && ElementsText(a + b) == ElementsText(a) + ElementsText(b)
  {
    hide ElementFits, ElementText, ElementsText;
    if a == [] {
      assert a + b == b;
      NoText();
    } else {
      assert (a + b)[1..] == a[1..] + b;
      TextUnfolds(a);
      TextConcat(a[1..], b);
      TextUnfolds(a + b);
      Regroup(ElementText(a[0]), ElementsText(a[1..]), ElementsText(b));
    }
  }

  /** Reading a segment stops at its separator, and gives the tokens of its elements. */
  lemma {:induction false} SegmentReads(a: seq<Element>, b: seq<Element>)
    requires WellFormed(a + b) && Solid(a) && AllFit(b) && (b == [] || b[0].Slash?)
    ensures AllFit(a + b) && ParseSegment(ElementsText(a + b)) == Ok(Reading(TokensOf(a), ElementsText(b)))
    decreases |a|
  {
    hide ParseSegment, ElementFits, ElementText, ElementTokens, WellFormed, AllFit, PrependTokens, ElementsText,
      TokensOf;
    if a == [] {
      assert a + b == b;
      TextStarts(b);
      NothingReads(ElementsText(b));
      NoText();
    } else {
      var rest := a[1..];
      assert (a + b)[1..] == rest + b && (a + b)[0] == a[0];
      WellFormedRest(a + b);
      TextUnfolds(a);
      SegmentReads(rest, b);
      FitsWell(a + b);
      TextUnfolds(a + b);
      TextStarts(rest + b);
      ElementReads(a[0], ElementsText(rest + b));
      PrependOk(ElementTokens(a[0]), TokensOf(rest), ElementsText(b));
    }
  }

  lemma FitsWell(es: seq<Element>)
    requires WellFormed(es)
    ensures AllFit(es)
  {
  }

  lemma NoText()
    ensures AllFit([]) && ElementsText([]) == [] && TokensOf([]) == []
    ensures forall s: Text :: [] + s == s
  {
  }

  lemma PrependOk(ts: seq<Token>, us: seq<Token>, rest: Text)
    ensures PrependTokens(ts, Ok(Reading(us, rest))) == Ok(Reading(ts + us, rest))
  {
  }

  lemma Regroup(a: Text, b: Text, c: Text)
    ensures a + (b + c) == a + b + c
  {
  }

  lemma TextUnfolds(es: seq<Element>)
    requires es != [] && AllFit(es)
    ensures AllFit(es[1..]) && ElementFits(es[0])
    ensures ElementsText(es) == ElementText(es[0]) + ElementsText(es[1..])
    ensures TokensOf(es) == ElementTokens(es[0]) + TokensOf(es[1..])
  {
    hide ElementText, ElementTokens, ElementFits;
  }

  lemma FitEverywhere(es: seq<Element>, k: nat)
    requires WellFormed(es) && k <= |es|
    ensures AllFit(es) && AllFit(es[..k]) && AllFit(es[k..])
  {
    hide ElementFits;
  }

  lemma NothingReads(s: Text)
    requires s == [] || s[0] == SLASH
    ensures ParseSegment(s) == Ok(Reading([], s))
  {
  }

  // ---------- the parts ----------

  function SegmentPart(seg: seq<Element>): Part
    requires Solid(seg)
  {
    if seg == TWO_STARS then Globstar else Part(TokensOf(seg))
  }

  /** Elements of one segment. */
  predicate Solid(seg: seq<Element>) { AllFit(seg) && forall i :: 0 <= i < |seg| ==> !seg[i].Slash? }

  predicate AllSolid(segs: seq<seq<Element>>) { forall i :: 0 <= i < |segs| ==> Solid(segs[i]) }

  function PlainParts(segs: seq<seq<Element>>): seq<Part>
    requires AllSolid(segs)
  {
    if segs == [] then [] else [SegmentPart(segs[0])] + PlainParts(segs[1..])
  }

  /** Only two stars alone are spelled so. */
  lemma SpelledTwoStars(seg: seq<Element>)
    requires WellFormed(seg)
    ensures AllFit(seg) && (IsGlobstar(ElementsText(seg)) <==> seg == TWO_STARS)
  {
    hide ElementFits;
    if seg == TWO_STARS {
      TextUnfolds(seg);
      assert seg[1..] == [] && ElementsText(seg) == StarsText(2) + [];
      assert StarsText(2) == [STAR, STAR];
    } else if seg != [] && IsGlobstar(ElementsText(seg)) {
      TextStarts(seg);
      WellFormedRest(seg);
      TextUnfolds(seg);
      TextStarts(seg[1..]);
      StarsAlone(seg[0], ElementsText(seg[1..]));
      assert false;
    }
  }

  lemma StarsAlone(e: Element, more: Text)
    requires ElementFits(e) && e.Stars? && ElementText(e) + more == [STAR, STAR] && (more == [] || more[0] != STAR)
    ensures e == Stars(2) && more == []
  {
    BehindStarts(ElementText(e), more);
    assert more == [] ==> ElementText(e) == [STAR, STAR];
  }

  lemma BehindStarts(t: Text, more: Text)
    ensures more != [] ==> (t + more)[|t|] == more[0]
  {
  }

  lemma WellFormedPieces(es: seq<Element>, k: nat)
    requires WellFormed(es) && k <= |es|
    ensures WellFormed(es[..k]) && WellFormed(es[k..])
  {
    hide ElementFits;
    assert forall i :: 0 <= i < |es[k..]| ==> es[k..][i] == es[k + i];
  }

  /** The whole text is read as its segments. */
  lemma {:induction false} PartsRead(es: seq<Element>)
    requires WellFormed(es)
    ensures AllFit(es) && AllSolid(Segments(es))
    ensures ParseParts(ElementsText(es), true) == Ok(PlainParts(Segments(es)))
    decreases |es|
  {
    hide ParseParts, ParseSegment, ElementFits, ElementText, TokensOf, WellFormed, AllFit, IsGlobstar, ElementsText,
      ConsPart, PlainParts, Segments;
    var k := SegmentSize(es);
    FitEverywhere(es, k);
    FirstSegmentReads(es, k);
    var rest := ElementsText(es[k..]);
    if k == |es| {
      OneSegment(es);
    } else {
      TailText(es, k);
      WellFormedPieces(es, k + 1);
      PartsRead(es[k + 1..]);
      SegmentsUnfold(es, k);
      ConsOk(SegmentPart(es[..k]), PlainParts(Segments(es[k + 1..])));
    }
  }

  lemma OneSegment(es: seq<Element>)
    requires AllFit(es) && SegmentSize(es) == |es|
    ensures es[|es|..] == [] && ElementsText(es[|es|..]) == []
    ensures es[..|es|] == es && Segments(es) == [es] && Solid(es) && PlainParts(Segments(es)) == [SegmentPart(es)]
  {
    hide AllFit, SegmentPart;
    assert es[..|es|] == es;
    assert [es][1..] == [];
  }

  lemma ConsOk(x: Part, p: seq<Part>)
    ensures ConsPart(x, Ok(p)) == Ok([x] + p)
  {
  }

  /** The first segment, then what its separator leads to. */
  lemma FirstSegmentReads(es: seq<Element>, k: nat)
    requires WellFormed(es) && k == SegmentSize(es) && AllFit(es) && Solid(es[..k]) && AllFit(es[k..])
    ensures var rest := ElementsText(es[k..]);
            ParseParts(ElementsText(es), true) ==
            if rest == [] then Ok([SegmentPart(es[..k])])
            else if |rest| > 1 && rest[1] == SLASH then Err(MultipleSlash)
            else ConsPart(SegmentPart(es[..k]), ParseParts(rest[1..], true))
  {
    hide ParseParts, ParseSegment, ElementFits, ElementText, TokensOf, WellFormed, AllFit, IsGlobstar, ConsPart,
      ElementsText;
    assert es == es[..k] + es[k..];
    SegmentReads(es[..k], es[k..]);
    TextConcat(es[..k], es[k..]);
    WellFormedPieces(es, k);
    SpelledTwoStars(es[..k]);
    var s, rest := ElementsText(es), ElementsText(es[k..]);
    assert s[..|s| - |rest|] == ElementsText(es[..k]);
    PartsStep(s, TokensOf(es[..k]), rest);
  }

  lemma TailText(es: seq<Element>, k: nat)
    requires WellFormed(es) && k < |es| && es[k].Slash? && AllFit(es[k..])
    ensures AllFit(es[k + 1..])
    ensures var rest := ElementsText(es[k..]);
            rest != [] && rest[1..] == ElementsText(es[k + 1..]) && !(|rest| > 1 && rest[1] == SLASH)
  {
    hide ElementFits, ElementText, WellFormed, AllFit, ElementsText;
    var tail := es[k..];
    WellFormedPieces(es, k);
    WellFormedRest(tail);
    TextUnfolds(tail);
    assert tail[1..] == es[k + 1..];
    SlashText();
    TextStarts(es[k + 1..]);
  }

  lemma SlashText()
    ensures ElementFits(Slash) && ElementText(Slash) == [SLASH]
  {
  }

  lemma {:induction false} SegmentsUnfold(es: seq<Element>, k: nat)
    requires k == SegmentSize(es) < |es| && Solid(es[..k]) && AllSolid(Segments(es[k + 1..]))
    ensures Segments(es) == [es[..k]] + Segments(es[k + 1..]) && AllSolid(Segments(es))
    ensures PlainParts(Segments(es)) == [SegmentPart(es[..k])] + PlainParts(Segments(es[k + 1..]))
  {
    hide Solid, SegmentPart, PlainParts, SegmentSize;
    OneMoreSegment(es[..k], Segments(es[k + 1..]));
  }

  lemma {:induction false} OneMoreSegment(seg: seq<Element>, segs: seq<seq<Element>>)
    requires Solid(seg) && AllSolid(segs)
    ensures AllSolid([seg] + segs) && PlainParts([seg] + segs) == [SegmentPart(seg)] + PlainParts(segs)
  {
    hide Solid, SegmentPart;
    assert ([seg] + segs)[1..] == segs;
  }

  lemma {:induction false} PartsStep(s: Text, tokens: seq<Token>, rest: Text)
    requires ParseSegment(s) == Ok(Reading(tokens, rest)) && |rest| <= |s|
    ensures ParseParts(s, true) ==
            var part := if IsGlobstar(s[..|s| - |rest|]) then Globstar else Part(tokens);
            if rest == [] then Ok([part])
            else if |rest| > 1 && rest[1] == SLASH then Err(MultipleSlash)
            else ConsPart(part, ParseParts(rest[1..], true))
  {
    hide ParseSegment, IsGlobstar;
  }

  /** The parts with what a separator at the end asks for. */
  function WrittenParts(segs: seq<seq<Element>>, afterStars: bool): (p: seq<Part>)
    requires AllSolid(segs)
    ensures |p| == |segs|
  {
    if segs == [] then []
    else if afterStars && segs == [[]] then [Part([Star])]
    else [SegmentPart(segs[0])] + WrittenParts(segs[1..], segs[0] == TWO_STARS)
  }

  lemma {:induction false} WrittenUnfold(segs: seq<seq<Element>>, afterStars: bool)
    requires AllSolid(segs) && segs != []
    ensures afterStars && segs == [[]] ==> WrittenParts(segs, afterStars) == [Part([Star])]
    ensures !(afterStars && segs == [[]]) ==>
              WrittenParts(segs, afterStars) ==
              [SegmentPart(segs[0])] + WrittenParts(segs[1..], segs[0] == TWO_STARS)
    ensures PlainParts(segs) == [SegmentPart(segs[0])] + PlainParts(segs[1..])
    ensures |segs| == 1 ==> PlainParts(segs) == [SegmentPart(segs[0])] && WrittenParts(segs[1..], false) == []
  {
    hide Solid, SegmentPart;
    if |segs| == 1 { assert segs[1..] == []; }
  }

  lemma {:induction false} FinishedParts(segs: seq<seq<Element>>)
    requires AllSolid(segs) && segs != []
    ensures |PlainParts(segs)| == |segs| && Finish(PlainParts(segs)) == WrittenParts(segs, false)
    decreases |segs|
  {
    hide Solid, TokensOf, Finish, PlainParts, WrittenParts, SegmentPart;
    var rest := segs[1..];
    WrittenUnfold(segs, false);
    if rest == [] {
      FinishOne(SegmentPart(segs[0]));
      NoParts(segs[0] == TWO_STARS);
    } else {
      FinishedParts(rest);
      WrittenUnfold(rest, segs[0] == TWO_STARS);
      WrittenUnfold(rest, false);
      if segs[0] == TWO_STARS && rest == [[]] {
        StarsAtEnd(segs);
      } else {
        if segs[0] == TWO_STARS && |rest| == 1 { LastPart(rest[0]); }
        StarsOnly(segs[0]);
        FinishRest(SegmentPart(segs[0]), PlainParts(rest));
      }
    }
  }

  lemma NoParts(afterStars: bool)
    ensures AllSolid([]) && WrittenParts([], afterStars) == []
  {
  }

  lemma StarsOnly(seg: seq<Element>)
    requires Solid(seg)
    ensures SegmentPart(seg).Globstar? <==> seg == TWO_STARS
  {
    hide TokensOf, Solid;
  }

  lemma StarsAtEnd(segs: seq<seq<Element>>)
    requires AllSolid(segs) && |segs| == 2 && segs[0] == TWO_STARS && segs[1..] == [[]]
    ensures |PlainParts(segs)| == 2 && Finish(PlainParts(segs)) == WrittenParts(segs, false)
  {
    hide Solid, TokensOf, Finish, PlainParts, WrittenParts;
    var rest := segs[1..];
    assert rest[0] == [];
    NoTokens();
    WrittenUnfold(segs, false);
    WrittenUnfold(rest, true);
    assert PlainParts(segs) == [Globstar, Part([])] && WrittenParts(segs, false) == [Globstar, Part([Star])];
    FinishStars();
  }

  lemma NoTokens()
    ensures Solid([]) && TokensOf([]) == []
  {
  }

  lemma FinishOne(p: Part)
    ensures Finish([p]) == [p]
  {
  }

  lemma FinishStars()
    ensures Finish([Globstar, Part([])]) == [Globstar, Part([Star])]
  {
  }

  /** Only an empty segment gives an empty part. */
  lemma LastPart(seg: seq<Element>)
    requires Solid(seg) && seg != []
    ensures SegmentPart(seg) != Part([])
  {
    hide Utf8, ElementFits;
    TextUnfolds(seg);
    TokensSome(seg[0]);
  }

  lemma TokensSome(e: Element)
    requires ElementFits(e) && !e.Slash?
    ensures ElementTokens(e) != []
  {
    hide Utf8, BracketFits, AllProper, Ranges;
    if e.Char? { Utf8Bytes(e.letter.cp); }
  }

  lemma FinishRest(x: Part, p: seq<Part>)
    requires p != [] && !(x.Globstar? && |p| == 1 && p[0] == Part([]))
    ensures Finish([x] + p) == [x] + Finish(p)
  {
    var n := |p|;
    assert ([x] + p)[n] == p[n - 1];
    if n >= 2 {
      assert ([x] + p)[n - 1] == p[n - 2];
      assert ([x] + p)[..n] == [x] + p[..n - 1];
    }
  }

  // ---------- reading keeps the meaning ----------

  lemma OneTokenFits(t: Token, ts: seq<Token>, s: Text)
    requires t.Any? || t.Class?
    ensures G([t] + ts, s) <==>
            s != [] && (t.Class? ==> InClass(t.negated, t.ranges, AtomValue(s))) && G(ts, s[AtomLen(s)..])
  {
    hide AtomLen, AtomValue, InClass;
    assert ([t] + ts)[1..] == ts;
  }

  lemma StarFits(ts: seq<Token>, s: Text)
    ensures G([Star] + ts, s) <==> G(ts, s) || (s != [] && G([Star] + ts, s[AtomLen(s)..]))
  {
    hide AtomLen, AtomValue, InClass;
    assert ([Star] + ts)[1..] == ts;
  }

  lemma StarsUnfold(es: seq<Element>, cs: seq<int>)
    requires es != [] && es[0].Stars?
    ensures SegmentFits(es, cs) <==> SegmentFits(es[1..], cs) || (cs != [] && SegmentFits(es, cs[1..]))
  {
    if SegmentFits(es[1..], cs) { assert cs[0..] == cs; }
    if cs != [] && SegmentFits(es, cs[1..]) {
      var k :| 0 <= k <= |cs[1..]| && SegmentFits(es[1..], cs[1..][k..]);
      assert cs[1..][k..] == cs[k + 1..];
    }
    if SegmentFits(es, cs) {
      var k :| 0 <= k <= |cs| && SegmentFits(es[1..], cs[k..]);
      if k == 0 { assert cs[0..] == cs; } else { assert cs[1..][k - 1..] == cs[k..]; }
    }
  }

  lemma OneElementFits(es: seq<Element>, cs: seq<int>)
    requires es != [] && !es[0].Stars?
    ensures SegmentFits(es, cs) <==> cs != [] && CharacterFits(es[0], cs[0]) && SegmentFits(es[1..], cs[1..])
  {
    hide Listed;
  }

  /** One element against one character. */
  predicate CharacterFits(e: Element, c: int) {
    match e
    case Char(l) => c == l.cp
    case Question => true
    case Bracket(m, items) => Listed(items, c) == m.Plainly?
    case OpenBrace => c == 0x7B
    case _ => false
  }

  /** The first element takes the character it should. */
  lemma ElementTokensFit(e: Element, ts: seq<Token>, s: Text)
    requires ElementFits(e) && !e.Stars? && !e.Slash?
    ensures G(ElementTokens(e) + ts, s) <==> s != [] && CharacterFits(e, AtomValue(s)) && G(ts, s[AtomLen(s)..])
  {
    hide G, AtomLen, AtomValue, Utf8, BracketFits, AllProper, Ranges, InRanges, Listed, Bytes;
    match e
    case Char(l) =>
      BytesMatch(Utf8(l.cp), ts, s);
      StartsWithUtf8(l.cp, s);
    case Question => OneTokenFits(Any, ts, s);
    case OpenBrace =>
      Utf8Bytes(0x7B);
      BytesMatch([0x7B], ts, s);
      StartsWithUtf8(0x7B, s);
    case Bracket(m, items) =>
      OneTokenFits(Class(!m.Plainly?, Ranges(items)), ts, s);
      if s != [] { RangesList(items, AtomValue(s)); }
  }

  /** A segment's tokens match a text as its elements match the text's characters. */
  lemma {:induction false} TokensFit(es: seq<Element>, s: Text)
    requires Solid(es)
    ensures G(TokensOf(es), s) <==> SegmentFits(es, Atoms(s))
    decreases |es|, |s|
  {
    hide G, AtomLen, AtomValue, ElementFits, ElementTokens, SegmentFits, Atoms, CharacterFits;
    if es == [] {
      NothingFits(s);
    } else {
      var rest := es[1..];
      TextUnfolds(es);
      if s != [] {
        AtomsUnfold(s);
        assert Atoms(s)[1..] == Atoms(s[AtomLen(s)..]);
      } else {
        NoAtoms();
      }
      if es[0].Stars? {
        StarTokens(es[0]);
        StarFits(TokensOf(rest), s);
        StarsUnfold(es, Atoms(s));
        TokensFit(rest, s);
        if s != [] { TokensFit(es, s[AtomLen(s)..]); }
      } else {
        ElementTokensFit(es[0], TokensOf(rest), s);
        OneElementFits(es, Atoms(s));
        if s != [] { TokensFit(rest, s[AtomLen(s)..]); }
      }
    }
  }

  lemma NoAtoms()
    ensures Atoms([]) == []
  {
  }

  lemma NothingFits(s: Text)
    ensures AllFit([]) && (G(TokensOf([]), s) <==> SegmentFits([], Atoms(s)))
  {
    if s != [] { AtomsUnfold(s); }
  }

  lemma StarTokens(e: Element)
    requires ElementFits(e) && e.Stars?
    ensures ElementTokens(e) == [Star]
  {
  }

  lemma {:induction false} GlobstarsWritten(segs: seq<seq<Element>>, afterStars: bool)
    requires AllSolid(segs)
    ensures AllGlobstars(WrittenParts(segs, afterStars)) <==> AllTwoStars(segs)
  {
    hide Solid, TokensOf;
    if segs != [] {
      if afterStars && segs == [[]] {
        assert |segs[0]| != |TWO_STARS| && WrittenParts(segs, afterStars)[0].Part?;
      } else {
        var p, rest := WrittenParts(segs, afterStars), segs[1..];
        GlobstarsWritten(rest, segs[0] == TWO_STARS);
        assert forall i :: 1 <= i < |p| ==> p[i] == p[1..][i - 1];
        assert forall i :: 1 <= i < |segs| ==> segs[i] == rest[i - 1];
        assert p[1..] == WrittenParts(rest, segs[0] == TWO_STARS);
        assert p[0].Globstar? <==> segs[0] == TWO_STARS;
        AllApart(p, segs);
      }
    }
  }

  lemma AllApart(p: seq<Part>, segs: seq<seq<Element>>)
    requires |p| == |segs| > 0
    ensures AllGlobstars(p) <==> p[0].Globstar? && AllGlobstars(p[1..])
    ensures AllTwoStars(segs) <==> segs[0] == TWO_STARS && AllTwoStars(segs[1..])
  {
    assert forall i :: 1 <= i < |p| ==> p[i] == p[1..][i - 1] && segs[i] == segs[1..][i - 1];
  }

  lemma AnyTextFits(s: Text)
    ensures G([Star], s)
    decreases |s|
  {
    assert [Star] + [] == [Star];
    if s == [] {
      assert [Star][1..] == [];
    } else {
      AnyTextFits(s[AtomLen(s)..]);
      StarFits([], s);
    }
  }

  /** The parts match the segments of a path as the written ones do their characters. */
  lemma {:induction false} PartsFit(segs: seq<seq<Element>>, path: seq<Text>, afterStars: bool)
    requires AllSolid(segs) && segs != [] && path != []
    ensures S(WrittenParts(segs, afterStars), path) <==> PathFits(segs, AllAtoms(path), afterStars)
    decreases |segs|
  {
    hide S, PathFits, SegmentFits, G, Solid, AllTwoStars, AllGlobstars, Atoms, TokensOf;
    var p, cs, rest := WrittenParts(segs, afterStars), AllAtoms(path), segs[1..];
    if segs[0] == TWO_STARS {
      StarsPart(segs, afterStars);
      if |segs| > 1 {
        forall k | 0 <= k < |path| ensures S(p[1..], path[k..]) <==> PathFits(rest, cs[k..], true) {
          PartsFit(rest, path[k..], true);
          AtomsFrom(path, k);
        }
      }
      SomeTail(p, path, segs, cs, afterStars);
    } else if afterStars && segs == [[]] {
      AnyTextFits(path[0]);
      LastAny(path, cs);
    } else {
      SegmentsPart(segs, afterStars);
      TokensFit(segs[0], path[0]);
      if rest != [] {
        GlobstarsWritten(rest, false);
        if |path| > 1 {
          PartsFit(rest, path[1..], false);
          AtomsFrom(path, 1);
        }
      }
      OneSegmentFits(p, path);
      OneWrittenFits(segs, cs, afterStars);
    }
  }

  lemma StarsPart(segs: seq<seq<Element>>, afterStars: bool)
    requires AllSolid(segs) && segs != [] && segs[0] == TWO_STARS
    ensures var p := WrittenParts(segs, afterStars); p[0] == Globstar && p[1..] == WrittenParts(segs[1..], true)
  {
    hide TokensOf, Solid;
  }

  lemma SegmentsPart(segs: seq<seq<Element>>, afterStars: bool)
    requires AllSolid(segs) && segs != [] && segs[0] != TWO_STARS && !(afterStars && segs == [[]])
    ensures Solid(segs[0]) && AllFit(segs[0])
    ensures var p := WrittenParts(segs, afterStars);
            p[0] == Part(TokensOf(segs[0])) && p[1..] == WrittenParts(segs[1..], false)
  {
    hide TokensOf, AllFit;
  }

  lemma AtomsFrom(path: seq<Text>, k: nat)
    requires k <= |path|
    ensures AllAtoms(path)[k..] == AllAtoms(path[k..])
  {
    hide Atoms;
  }

  lemma SomeTail(p: seq<Part>, path: seq<Text>, segs: seq<seq<Element>>, cs: seq<seq<int>>, afterStars: bool)
    requires |p| == |segs| > 0 && |path| == |cs| > 0 && p[0].Globstar? && segs[0] == TWO_STARS
    requires |segs| > 1 ==>
               forall k :: 0 <= k < |path| ==> (S(p[1..], path[k..]) <==> PathFits(segs[1..], cs[k..], true))
    ensures S(p, path) <==> PathFits(segs, cs, afterStars)
  {
    hide G, SegmentFits, AllGlobstars, AllTwoStars;
  }

  lemma LastAny(path: seq<Text>, cs: seq<seq<int>>)
    requires |path| == |cs| > 0 && G([Star], path[0])
    ensures S([Part([Star])], path) <==> PathFits([[]], cs, true)
  {
    hide G, SegmentFits;
  }

  lemma OneSegmentFits(p: seq<Part>, path: seq<Text>)
    requires p != [] && path != [] && p[0].Part?
    ensures S(p, path) <==>
            && G(p[0].tokens, path[0])
            && if |p| == 1 then |path| == 1 else if |path| > 1 then S(p[1..], path[1..]) else AllGlobstars(p[1..])
  {
    hide G, AllGlobstars;
  }

  lemma OneWrittenFits(segs: seq<seq<Element>>, cs: seq<seq<int>>, afterStars: bool)
    requires segs != [] && cs != [] && segs[0] != TWO_STARS && !(afterStars && segs == [[]])
    ensures PathFits(segs, cs, afterStars) <==>
            && SegmentFits(segs[0], cs[0])
            && if |segs| == 1 then |cs| == 1
               else if |cs| > 1 then PathFits(segs[1..], cs[1..], false) else AllTwoStars(segs[1..])
  {
    hide SegmentFits, AllTwoStars;
  }

  /** A written pattern is read, and accepts the paths it fits. */
  lemma WrittenAccepts(es: seq<Element>, path: Text)
    requires WellFormed(es)
    ensures AllFit(es) && ParsePattern(ElementsText(es), true).Ok?
    ensures Accepts(ParsePattern(ElementsText(es), true).value, path) <==> FitsPath(es, path)
  {
    hide ParseParts, WellFormed, AllFit, S, PathFits, AllSolid, WrittenParts, Finish, ElementsText, Segments, Split;
    PartsRead(es);
    FinishedParts(Segments(es));
    PartsFit(Segments(es), Split(path), false);
  }

  // ---------- what is no pattern ----------

  /** Nothing of one segment is read behind what is read before it, unless that fails. */
  lemma {:induction false} SegmentGoesOn(a: seq<Element>, more: Text)
    requires Solid(a) && Apart(a) && (a != [] && a[|a| - 1].Stars? ==> more == [] || more[0] != STAR)
    ensures var r := ParseSegment(ElementsText(a) + more);
            r.Err? || r == PrependTokens(TokensOf(a), ParseSegment(more))
    decreases |a|
  {
    hide ParseSegment, ElementFits, ElementText, ElementTokens, AllFit, ElementsText, TokensOf;
    if a == [] {
      NoText();
      assert [] + more == more;
      PrependNothing(ParseSegment(more));
    } else {
      var rest := a[1..];
      TextUnfolds(a);
      ApartRest(a);
      if rest == [] { assert a[|a| - 1] == a[0]; }
      SegmentGoesOn(rest, more);
      Regroup(ElementText(a[0]), ElementsText(rest), more);
      NextStarts(a, more);
      ElementReads(a[0], ElementsText(rest) + more);
      PrependTwice(ElementTokens(a[0]), TokensOf(rest), ParseSegment(more));
    }
  }

  lemma PrependNothing(r: Result<Reading>)
    ensures PrependTokens([], r) == r
  {
    if r.Ok? { assert [] + r.value.tokens == r.value.tokens; }
  }

  lemma PrependTwice(ts: seq<Token>, us: seq<Token>, r: Result<Reading>)
    ensures PrependTokens(ts, PrependTokens(us, r)) == PrependTokens(ts + us, r)
  {
    if r.Ok? { assert ts + (us + r.value.tokens) == ts + us + r.value.tokens; }
  }

  lemma ApartRest(a: seq<Element>)
    requires a != [] && Apart(a)
    ensures Apart(a[1..]) && (|a| > 1 && a[0].Stars? ==> !a[1..][0].Stars?)
    ensures |a| > 1 ==> a[1..][|a| - 2] == a[|a| - 1]
  {
  }

  lemma NextStarts(a: seq<Element>, more: Text)
    requires a != [] && AllFit(a) && AllFit(a[1..]) && Apart(a)
    requires a[|a| - 1].Stars? ==> more == [] || more[0] != STAR
    ensures var next := ElementsText(a[1..]) + more; a[0].Stars? ==> next == [] || next[0] != STAR
  {
    hide ElementFits, ElementsText;
    TextStarts(a[1..]);
    if a[1..] == [] { assert a[0] == a[|a| - 1]; }
  }

  predicate TwoSlashes(t: Text) { |t| >= 2 && t[0] == SLASH && t[1] == SLASH }

  /** A text that goes on with what cannot be read is no pattern. */
  lemma {:induction false} BadTail(a: seq<Element>, t: Text)
    requires AllFit(a) && Apart(a) && (ParseSegment(t).Err? || TwoSlashes(t))
    requires a != [] && a[|a| - 1].Stars? ==> t == [] || t[0] != STAR
    ensures ParseParts(ElementsText(a) + t, true).Err?
    decreases |a|
  {
    hide ParseSegment, ParseParts, ElementFits, AllFit, ElementsText, TokensOf, PrependTokens, Solid, Apart;
    var k := SegmentSize(a);
    PiecesFit(a, k);
    var s := ElementsText(a) + t;
    SegmentThenTail(a, k, t);
    if k == |a| {
      EndsBadly(s, TokensOf(a[..k]), t);
    } else {
      ApartTail(a, k + 1);
      BadTail(a[k + 1..], t);
      GoesOnBadly(s, TokensOf(a[..k]), ElementsText(a[k + 1..]) + t);
    }
  }

  /** The first segment is read, and then its separator or the tail. */
  lemma SegmentThenTail(a: seq<Element>, k: nat, t: Text)
    requires AllFit(a) && Apart(a) && k == SegmentSize(a) && Solid(a[..k]) && Apart(a[..k]) && AllFit(a[k..])
    requires a != [] && a[|a| - 1].Stars? ==> t == [] || t[0] != STAR
    ensures AllFit(a[..k]) && (k < |a| ==> AllFit(a[k + 1..]))
    ensures var r := ParseSegment(ElementsText(a) + t);
            || r.Err?
            || r == PrependTokens(TokensOf(a[..k]),
                                  ParseSegment(if k == |a| then t else [SLASH] + (ElementsText(a[k + 1..]) + t)))
  {
    hide ParseSegment, ElementFits, AllFit, ElementsText, TokensOf, PrependTokens, Apart;
    var seg, tail := a[..k], a[k..];
    assert a == seg + tail;
    TextConcat(seg, tail);
    Regroup(ElementsText(seg), ElementsText(tail), t);
    if k > 0 { assert seg[|seg| - 1] == a[k - 1]; }
    SlashNext(a, k, t);
    SegmentGoesOn(seg, ElementsText(tail) + t);
    TailIs(a, k, t);
  }

  lemma TailIs(a: seq<Element>, k: nat, t: Text)
    requires k <= |a| && AllFit(a[k..]) && (k < |a| ==> a[k].Slash?)
    ensures k < |a| ==> AllFit(a[k + 1..])
    ensures ElementsText(a[k..]) + t == if k == |a| then t else [SLASH] + (ElementsText(a[k + 1..]) + t)
  {
    hide ElementFits, ElementsText, ElementText;
    var tail := a[k..];
    if k == |a| {
      NoText();
      assert tail == [] && [] + t == t;
    } else {
      TextUnfolds(tail);
      SlashText();
      assert tail[1..] == a[k + 1..] && tail[0] == Slash;
      Regroup([SLASH], ElementsText(a[k + 1..]), t);
    }
  }

  lemma PiecesFit(a: seq<Element>, k: nat)
    requires AllFit(a) && Apart(a) && k == SegmentSize(a)
    ensures Solid(a[..k]) && Apart(a[..k]) && AllFit(a[k..])
  {
    hide ElementFits;
  }

  lemma ApartTail(a: seq<Element>, k: nat)
    requires AllFit(a) && Apart(a) && k <= |a|
    ensures AllFit(a[k..]) && Apart(a[k..]) && (k < |a| ==> a[k..][|a| - k - 1] == a[|a| - 1])
  {
    hide ElementFits;
    assert forall i :: 0 <= i < |a[k..]| ==> a[k..][i] == a[k + i];
  }

  /** Behind a segment comes its separator or the tail. */
  lemma SlashNext(a: seq<Element>, k: nat, t: Text)
    requires AllFit(a) && k == SegmentSize(a) && AllFit(a[k..])
    requires a != [] && a[|a| - 1].Stars? ==> t == [] || t[0] != STAR
    ensures var next := ElementsText(a[k..]) + t; k > 0 && a[k - 1].Stars? ==> next == [] || next[0] != STAR
  {
    hide ElementFits, ElementsText;
    TextStarts(a[k..]);
  }

  lemma {:induction false} EndsBadly(s: Text, tokens: seq<Token>, t: Text)
    requires ParseSegment(t).Err? || TwoSlashes(t)
    requires ParseSegment(s).Err? || ParseSegment(s) == PrependTokens(tokens, ParseSegment(t))
    ensures ParseParts(s, true).Err?
  {
    hide ParseSegment, IsGlobstar;
    if TwoSlashes(t) { NothingReads(t); }
  }

  lemma {:induction false} GoesOnBadly(s: Text, tokens: seq<Token>, more: Text)
    requires ParseParts(more, true).Err?
    requires ParseSegment(s).Err? || ParseSegment(s) == PrependTokens(tokens, ParseSegment([SLASH] + more))
    ensures ParseParts(s, true).Err?
  {
    hide ParseSegment, IsGlobstar;
    NothingReads([SLASH] + more);
    assert ([SLASH] + more)[1..] == more;
  }

  /** Elements whose stars are counted together are a pattern exactly when they are well
      formed. */
  lemma WellFormedOrNot(es: seq<Element>)
    requires AllFit(es) && Apart(es)
    ensures ParsePattern(ElementsText(es), true).Ok? <==> WellFormed(es)
  {
    hide ParseParts, ElementFits, AllFit, ElementsText, Apart, Segments;
    if WellFormed(es) {
      PartsRead(es);
    } else if !AtMostTwoStars(es) {
      var i :| 0 <= i < |es| && es[i].Stars? && es[i].count > 2;
      ManyStars(es, i);
    } else {
      var i :| 0 <= i < |es| - 1 && es[i].Slash? && es[i + 1].Slash?;
      SlashesMeet(es, i);
    }
  }

  lemma CutFits(es: seq<Element>, i: nat)
    requires AllFit(es) && Apart(es) && i < |es|
    ensures AllFit(es[..i]) && Apart(es[..i]) && AllFit(es[i..])
    ensures i > 0 ==> es[..i][i - 1] == es[i - 1]
    ensures es[i].Stars? ==> (i > 0 ==> !es[i - 1].Stars?) && (i + 1 < |es| ==> !es[i + 1..][0].Stars?)
  {
    hide ElementFits;
  }

  /** The text cut before element `i`, and that element's own text. */
  lemma CutBefore(es: seq<Element>, i: nat)
    requires AllFit(es) && Apart(es) && i < |es|
    ensures AllFit(es[..i]) && Apart(es[..i]) && AllFit(es[i..]) && AllFit(es[i + 1..])
    ensures i > 0 ==> es[..i][i - 1] == es[i - 1]
    ensures es[i].Stars? ==> (i > 0 ==> !es[i - 1].Stars?) && (i + 1 < |es| ==> !es[i + 1..][0].Stars?)
    ensures ElementFits(es[i]) && ElementsText(es[i..]) == ElementText(es[i]) + ElementsText(es[i + 1..])
    ensures ElementsText(es) == ElementsText(es[..i]) + ElementsText(es[i..])
  {
    hide ElementFits, ElementsText, ElementText, AllFit, Apart;
    var a, b := es[..i], es[i..];
    CutFits(es, i);
    assert es == a + b && b[0] == es[i] && b[1..] == es[i + 1..];
    TextConcat(a, b);
    TextUnfolds(b);
  }

  lemma ManyStars(es: seq<Element>, i: nat)
    requires AllFit(es) && Apart(es) && i < |es| && es[i].Stars? && es[i].count > 2
    ensures ParseParts(ElementsText(es), true).Err?
  {
    hide ParseParts, ParseSegment, ElementFits, ElementsText, ElementText, ElementTokens, AllFit, Apart;
    CutBefore(es, i);
    TextStarts(es[i + 1..]);
    ElementReads(es[i], ElementsText(es[i + 1..]));
    BadTail(es[..i], ElementsText(es[i..]));
  }

  lemma SlashesMeet(es: seq<Element>, i: nat)
    requires AllFit(es) && Apart(es) && i < |es| - 1 && es[i].Slash? && es[i + 1].Slash?
    ensures ParseParts(ElementsText(es), true).Err?
  {
    hide ParseParts, ParseSegment, ElementFits, ElementsText, ElementText, AllFit, Apart;
    CutBefore(es, i);
    SlashText();
    TextStarts(es[i + 1..]);
    TextStarts(es[i..]);
    assert TwoSlashes(ElementsText(es[i..]));
    BadTail(es[..i], ElementsText(es[i..]));
  }
}
