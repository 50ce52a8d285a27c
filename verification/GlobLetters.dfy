/** What is written in a pattern, character by character: an encoder for the characters, and
    bracket expressions as lists of what stands in them. */
module GlobLetters {
  import opened GlobText
  import opened GlobSpec
  import opened GlobClass
  import opened GlobSyntax

  // ---------- characters ----------

  predicate Scalar(cp: int) { 0 <= cp < 0xD800 || 0xE000 <= cp < 0x110000 }

  /** UTF-8, as section 3 of RFC 3629 writes it. */
  function Utf8(cp: int): Text
    requires Scalar(cp)
  {
    if cp < 0x80 then [cp]
    else if cp < 0x800 then [0xC0 + cp / 64, 0x80 + cp % 64]
    else if cp < 0x10000 then [0xE0 + cp / 4096, 0x80 + cp / 64 % 64, 0x80 + cp % 64]
    else [0xF0 + cp / 262144, 0x80 + cp / 4096 % 64, 0x80 + cp / 64 % 64, 0x80 + cp % 64]
  }

  /** An encoded character reads as itself, whatever follows it. */
  lemma Utf8Reads(cp: int, more: Text)
    requires Scalar(cp)
    ensures var s := Utf8(cp) + more;
            StartsCharacter(s) && AtomLen(s) == |Utf8(cp)| && AtomValue(s) == cp && s[|Utf8(cp)|..] == more
  {
    var t := Utf8(cp);
    if cp < 0x80 {
    } else if cp < 0x800 {
      assert Need(t[0]) == 2;
    } else if cp < 0x10000 {
      ThreeBytes(cp);
    } else {
      FourBytes(cp);
    }
    assert StartsCharacter(t);
    AtomOfPrefix(t, t + more);
  }

  lemma ThreeBytes(cp: int)
    requires Scalar(cp) && 0x800 <= cp < 0x10000
    ensures StartsCharacter(Utf8(cp)) && AtomLen(Utf8(cp)) == 3 && AtomValue(Utf8(cp)) == cp
  {
    var a, b := cp / 4096, cp / 64 % 64;
    assert cp / 64 == a * 64 + b;
    assert Need(0xE0 + a) == 3;
    assert a == 0 ==> b >= 32;
    assert a == 13 ==> b < 32;
  }

  lemma FourBytes(cp: int)
    requires Scalar(cp) && 0x10000 <= cp
    ensures StartsCharacter(Utf8(cp)) && AtomLen(Utf8(cp)) == 4 && AtomValue(Utf8(cp)) == cp
  {
    var a, b, c := cp / 262144, cp / 4096 % 64, cp / 64 % 64;
    assert cp / 4096 == a * 64 + b;
    assert cp / 64 == (a * 64 + b) * 64 + c;
    assert Need(0xF0 + a) == 4;
    assert a == 0 ==> b >= 16;
    assert a == 4 ==> b < 16;
  }

  /** Every byte of a character outside ASCII is. */
  lemma Utf8Bytes(cp: int)
    requires Scalar(cp)
    ensures Utf8(cp) != []
    ensures cp < 0x80 ==> Utf8(cp) == [cp]
    ensures cp >= 0x80 ==> forall i :: 0 <= i < |Utf8(cp)| ==> Utf8(cp)[i] >= 0x80
  {
  }

  /** Where a text goes on with the character. */
  lemma StartsWithUtf8(cp: int, s: Text)
    requires Scalar(cp)
    ensures Utf8(cp) <= s <==> s != [] && AtomValue(s) == cp
    ensures Utf8(cp) <= s ==> AtomLen(s) == |Utf8(cp)|
  {
    hide Utf8, AtomLen, AtomValue, StartsCharacter;
    var t := Utf8(cp);
    Utf8Bytes(cp);
    Utf8Reads(cp, []);
    assert t + [] == t && t[..|t|] == t;
    if t <= s {
      AtomOfPrefix(t, s);
    } else if s != [] && AtomValue(s) == cp {
      AtomInjective(t, s);
    }
  }

  /** A character as written, a backslash before it or not. */
  datatype Letter = Letter(cp: int, escaped: bool)

  function LetterText(l: Letter): (t: Text)
    requires Scalar(l.cp)
  {
    (if l.escaped then [BACKSLASH] else []) + Utf8(l.cp)
  }

  /** Written without a backslash. */
  predicate Bare(l: Letter, c: int) { !l.escaped && l.cp == c }

  // ---------- brackets ----------

  datatype Item = One(c: Letter) | Span(lo: Letter, hi: Letter)

  function Low(i: Item): Letter { if i.One? then i.c else i.lo }

  function High(i: Item): Letter { if i.One? then i.c else i.hi }

  /** May the letter stand in a bracket? A `]` needs a backslash, unless it comes first. */
  predicate MemberFits(l: Letter, first: bool) {
    Scalar(l.cp) && !Bare(l, 0x5C) && (first || !Bare(l, 0x5D))
  }

  /** May the items stand in a bracket? A dash behind a single character makes a range of
      it, unless it comes last; at the start and behind a range it is a character. */
  predicate ItemsFit(items: seq<Item>, first: bool, afterOne: bool) {
    items == [] ||
    (&& MemberFits(Low(items[0]), first)
     && (items[0].Span? ==> MemberFits(items[0].hi, false))
     && (afterOne && Bare(Low(items[0]), 0x2D) ==> items[0].One? && |items| == 1)
     && ItemsFit(items[1..], false, items[0].One?))
  }

  predicate Proper(i: Item) { Low(i).cp <= High(i).cp }

  predicate AllProper(items: seq<Item>) { forall i :: 0 <= i < |items| ==> Proper(items[i]) }

  /** Some item is the character, or goes from below it to above it. */
  predicate Listed(items: seq<Item>, cp: int) {
    exists i :: 0 <= i < |items| && Low(items[i]).cp <= cp <= High(items[i]).cp
  }

  predicate ItemEncodes(i: Item) { Scalar(Low(i).cp) && Scalar(High(i).cp) }

  function ItemText(i: Item): Text
    requires ItemEncodes(i)
  {
    if i.One? then LetterText(i.c) else LetterText(i.lo) + [0x2D] + LetterText(i.hi)
  }

  function ItemsText(items: seq<Item>): Text
    requires forall i :: 0 <= i < |items| ==> ItemEncodes(items[i])
  {
    if items == [] then [] else ItemText(items[0]) + ItemsText(items[1..])
  }

  lemma {:induction false} FittingItemsEncode(items: seq<Item>, first: bool, afterOne: bool)
    requires ItemsFit(items, first, afterOne)
    ensures forall i :: 0 <= i < |items| ==> ItemEncodes(items[i])
  {
    if items != [] {
      FittingItemsEncode(items[1..], false, items[0].One?);
      forall i | 0 <= i < |items| ensures ItemEncodes(items[i]) {
        if i > 0 { assert items[i] == items[1..][i - 1]; }
      }
    }
  }

  function Ranges(items: seq<Item>): seq<Range> {
    seq(|items|, i requires 0 <= i < |items| => (Low(items[i]).cp, High(items[i]).cp))
  }

  lemma RangesList(items: seq<Item>, v: int)
    ensures InRanges(Ranges(items), v) <==> Listed(items, v)
  {
    var rs := Ranges(items);
    if InRanges(rs, v) {
      var i :| 0 <= i < |rs| && rs[i].0 <= v <= rs[i].1;
      assert Low(items[i]).cp <= v <= High(items[i]).cp;
    }
    if Listed(items, v) {
      var i :| 0 <= i < |items| && Low(items[i]).cp <= v <= High(items[i]).cp;
      assert rs[i].0 <= v <= rs[i].1;
    }
  }

  // ---------- reading the members ----------

  lemma LetterReads(l: Letter, more: Text)
    requires Scalar(l.cp) && !Bare(l, 0x5C)
    ensures var s := LetterText(l) + more; s != [] && Member(s) == l.cp && MemberRest(s) == more
  {
    hide AtomLen, AtomValue, Utf8, StartsCharacter;
    var t := Utf8(l.cp);
    Utf8Bytes(l.cp);
    var s := LetterText(l) + more;
    if l.escaped {
      assert s == [BACKSLASH] + (t + more) && s[1..] == t + more;
    } else {
      assert s == t + more && s[0] == t[0];
    }
    assert MemberText(s) == t + more;
    Utf8Reads(l.cp, more);
  }

  lemma LetterStart(l: Letter)
    requires Scalar(l.cp)
    ensures LetterText(l) != []
    ensures forall b: byte :: b < 0x80 && b != BACKSLASH ==> (LetterText(l)[0] == b <==> Bare(l, b))
  {
    hide Utf8;
    Utf8Bytes(l.cp);
  }

  /** Does a dash follow that makes a range? */
  predicate DashFollows(rest: Text) { |rest| >= 2 && rest[0] == 0x2D }

  lemma MembersOfOne(c: int, rest: Text)
    requires !DashFollows(rest)
    ensures MembersAfter(c, rest) == Cons((c, c), Members(rest))
  {
  }

  lemma MembersOfSpan(c: int, l: Letter, more: Text)
    requires Scalar(l.cp) && !Bare(l, 0x5C)
    ensures MembersAfter(c, [0x2D] + LetterText(l) + more) ==
            if c > l.cp then Err(InvalidRange) else Cons((c, l.cp), Members(more))
  {
    hide Member, MemberRest, LetterText;
    var rest := [0x2D] + LetterText(l) + more;
    LetterStart(l);
    LetterReads(l, more);
    assert rest[1..] == LetterText(l) + more;
  }

  lemma MembersStart(s: Text)
    requires s != []
    ensures Members(s) == MembersAfter(Member(s), MemberRest(s))
  {
    hide Member, MemberRest;
  }

  lemma NoDashFollows(items: seq<Item>)
    requires ItemsFit(items, false, true)
    ensures (forall i :: 0 <= i < |items| ==> ItemEncodes(items[i])) && !DashFollows(ItemsText(items))
  {
    hide LetterText;
    FittingItemsEncode(items, false, true);
    if items != [] {
      LetterStart(Low(items[0]));
      var t := ItemsText(items);
      assert t[0] == LetterText(Low(items[0]))[0];
      if t[0] == 0x2D {
        assert items[1..] == [] && ItemsText(items) == ItemText(items[0]) + [];
        DashText(items[0].c);
      }
    }
  }

  lemma DashText(l: Letter)
    requires Bare(l, 0x2D)
    ensures LetterText(l) == [0x2D]
  {
  }

  /** What the first item adds to the members behind it. */
  lemma ItemReads(item: Item, first: bool, more: Text)
    requires MemberFits(Low(item), first) && (item.Span? ==> MemberFits(item.hi, false)) && ItemEncodes(item)
    requires item.One? ==> !DashFollows(more)
    ensures Members(ItemText(item) + more) ==
            if Proper(item) then Cons((Low(item).cp, High(item).cp), Members(more)) else Err(InvalidRange)
  {
    hide Members, MembersAfter, Member, MemberRest, LetterText, MemberFits, DashFollows;
    FitIs(Low(item), first);
    if item.One? {
      LetterReads(item.c, more);
      MembersStart(LetterText(item.c) + more);
      MembersOfOne(item.c.cp, more);
    } else {
      FitIs(item.hi, false);
      var tail := [0x2D] + LetterText(item.hi) + more;
      assert ItemText(item) + more == LetterText(item.lo) + tail;
      LetterReads(item.lo, tail);
      MembersStart(LetterText(item.lo) + tail);
      MembersOfSpan(item.lo.cp, item.hi, more);
    }
  }

  /** The members of a written bracket are its items, unless one goes backwards. */
  lemma {:induction false} ItemsRead(items: seq<Item>, first: bool, afterOne: bool)
    requires ItemsFit(items, first, afterOne)
    ensures forall i :: 0 <= i < |items| ==> ItemEncodes(items[i])
    ensures Members(ItemsText(items)) == if AllProper(items) then Ok(Ranges(items)) else Err(InvalidRange)
  {
    hide Members, ItemText, MemberFits, DashFollows, ItemEncodes, AllProper, Ranges, Proper, ItemsFit;
    FittingItemsEncode(items, first, afterOne);
    if items == [] {
      NoMembers();
    } else {
      FitsFirst(items, first, afterOne);
      var item, rest := items[0], items[1..];
      ItemsRead(rest, false, item.One?);
      if item.One? { NoDashFollows(rest); }
      ItemReads(item, first, ItemsText(rest));
      RangesSplit(items);
      ProperSplit(items);
    }
  }

  lemma NoMembers()
    ensures Members([]) == Ok([]) && AllProper([]) && Ranges([]) == []
  {
  }

  lemma FitIs(l: Letter, first: bool)
    requires MemberFits(l, first)
    ensures Scalar(l.cp) && !Bare(l, 0x5C)
  {
  }

  lemma RangesSplit(items: seq<Item>)
    requires items != []
    ensures Ranges(items) == [(Low(items[0]).cp, High(items[0]).cp)] + Ranges(items[1..])
  {
  }

  lemma ProperSplit(items: seq<Item>)
    requires items != []
    ensures AllProper(items) <==> Proper(items[0]) && AllProper(items[1..])
  {
    assert forall i :: 1 <= i < |items| ==> items[i] == items[1..][i - 1];
  }

  // ---------- finding the end of the bracket ----------

  /** `t` stands in `s` at `at`. */
  predicate Stands(s: Text, at: nat, t: Text) { at + |t| <= |s| && s[at..at + |t|] == t }

  lemma StandsApart(s: Text, at: nat, t: Text, u: Text)
    requires Stands(s, at, t + u)
    ensures Stands(s, at, t) && Stands(s, at + |t|, u)
  {
    var whole := s[at..at + |t + u|];
    assert whole[..|t|] == t && whole[|t|..] == u;
    assert whole[..|t|] == s[at..at + |t|] && whole[|t|..] == s[at + |t|..at + |t| + |u|];
  }

  lemma ByteStands(s: Text, at: nat, t: Text, i: nat)
    requires Stands(s, at, t) && i < |t|
    ensures s[at + i] == t[i]
  {
    assert s[at..at + |t|][i] == s[at + i];
  }

  lemma StandsBetween(a: Text, t: Text, more: Text)
    ensures Stands(a + t + more, |a|, t)
  {
  }

  /** The scan passes a letter that may stand in a bracket. */
  lemma LetterPasses(s: Text, at: nat, l: Letter)
    requires MemberFits(l, false) && Stands(s, at, LetterText(l))
    ensures ScanFrom(s, at) == ScanFrom(s, at + |LetterText(l)|)
  {
    hide ScanFrom, Utf8, Stands;
    var t := Utf8(l.cp);
    Utf8Bytes(l.cp);
    if l.escaped {
      StandsApart(s, at, [BACKSLASH], t);
      ByteStands(s, at, [BACKSLASH], 0);
      assert at + 1 + |t| <= |s| by { StandsInside(s, at + 1, t); }
      ScanStep(s, at);
      CharacterPasses(s, at + 1, l.cp, 1);
    } else {
      assert LetterText(l) == t;
      CharacterPasses(s, at, l.cp, 0);
    }
  }

  lemma StandsInside(s: Text, at: nat, t: Text)
    requires Stands(s, at, t)
    ensures at + |t| <= |s|
  {
  }

  /** The bytes of a character pass, from the first on or, when that is escaped, the second. */
  lemma CharacterPasses(s: Text, at: nat, cp: int, from: nat)
    requires Scalar(cp) && Stands(s, at, Utf8(cp)) && from <= 1
    requires from == 0 ==> cp != 0x5C && cp != 0x5D
    ensures Utf8(cp) != [] && at + |Utf8(cp)| <= |s| && ScanFrom(s, at + from) == ScanFrom(s, at + |Utf8(cp)|)
  {
    hide ScanFrom, Utf8, Stands;
    var t := Utf8(cp);
    Utf8Bytes(cp);
    StandsInside(s, at, t);
    forall k | at + from <= k < at + |t| ensures s[k] != CLOSE && s[k] != BACKSLASH {
      ByteStands(s, at, t, k - at);
    }
    OthersPass(s, at + from, at + |t|);
  }

  lemma ScanStep(s: Text, j: nat)
    requires j < |s| && s[j] != CLOSE && (s[j] == BACKSLASH ==> j + 1 < |s|)
    ensures ScanFrom(s, j) == ScanFrom(s, if s[j] == BACKSLASH then j + 2 else j + 1)
  {
  }

  lemma {:induction false} OthersPass(s: Text, i: nat, j: nat)
    requires i <= j <= |s| && forall k :: i <= k < j ==> s[k] != CLOSE && s[k] != BACKSLASH
    ensures ScanFrom(s, i) == ScanFrom(s, j)
    decreases j - i
  {
    hide ScanFrom;
    if i < j {
      ScanStep(s, i);
      OthersPass(s, i + 1, j);
    }
  }

  /** The first letter of a bracket passes too, be it a `]`. */
  lemma FirstPasses(s: Text, at: nat, l: Letter)
    requires MemberFits(l, true) && Stands(s, at, LetterText(l))
    ensures at < |s| && at + |LetterText(l)| <= |s|
    ensures ScanFrom(s, if s[at] == CLOSE then at + 1 else at) == ScanFrom(s, at + |LetterText(l)|)
  {
    hide ScanFrom, LetterText, Stands;
    LetterStart(l);
    StandsInside(s, at, LetterText(l));
    ByteStands(s, at, LetterText(l), 0);
    if Bare(l, 0x5D) {
      CloseText(l);
    } else {
      LetterPasses(s, at, l);
    }
  }

  lemma CloseText(l: Letter)
    requires Bare(l, 0x5D)
    ensures LetterText(l) == [CLOSE]
  {
  }

  /** Behind its first letter, an item passes. */
  lemma ItemPasses(s: Text, at: nat, item: Item)
    requires ItemEncodes(item) && (item.Span? ==> MemberFits(item.hi, false)) && Stands(s, at, ItemText(item))
    ensures Stands(s, at, LetterText(Low(item))) && at + |ItemText(item)| <= |s|
    ensures at + |LetterText(Low(item))| <= |s|
    ensures ScanFrom(s, at + |LetterText(Low(item))|) == ScanFrom(s, at + |ItemText(item)|)
  {
    hide ScanFrom, LetterText, MemberFits, Stands;
    StandsInside(s, at, ItemText(item));
    if item.Span? {
      var low, high := LetterText(item.lo), LetterText(item.hi);
      assert ItemText(item) == low + [0x2D] + high;
      StandsApart(s, at, low + [0x2D], high);
      StandsApart(s, at, low, [0x2D]);
      ByteStands(s, at + |low|, [0x2D], 0);
      StandsInside(s, at + |low|, [0x2D]);
      ScanStep(s, at + |low|);
      LetterPasses(s, at + |low| + 1, item.hi);
    }
  }

  lemma {:induction false} ItemsPass(s: Text, at: nat, items: seq<Item>, afterOne: bool)
    requires ItemsFit(items, false, afterOne)
    requires (forall i :: 0 <= i < |items| ==> ItemEncodes(items[i])) && Stands(s, at, ItemsText(items))
    ensures at + |ItemsText(items)| <= |s| && ScanFrom(s, at) == ScanFrom(s, at + |ItemsText(items)|)
    decreases |items|
  {
    hide ScanFrom, ItemText, MemberFits, Stands, LetterText;
    StandsInside(s, at, ItemsText(items));
    if items != [] {
      var first := ItemText(items[0]);
      StandsApart(s, at, first, ItemsText(items[1..]));
      ItemPasses(s, at, items[0]);
      LetterPasses(s, at, Low(items[0]));
      ItemsPass(s, at + |first|, items[1..], items[0].One?);
    }
  }

  /** How a bracket starts: plain, or negated by either mark. */
  datatype Mark = Plainly | Not | Caret

  function MarkText(m: Mark): Text {
    match m
    case Plainly => []
    case Not => [0x21]
    case Caret => [0x5E]
  }

  /** May the bracket be written so? Without a mark it cannot start with one. */
  predicate BracketFits(m: Mark, items: seq<Item>) {
    && items != [] && ItemsFit(items, true, false)
    && (m.Plainly? ==> !Bare(Low(items[0]), 0x21) && !Bare(Low(items[0]), 0x5E))
  }

  function BracketText(m: Mark, items: seq<Item>): Text
    requires BracketFits(m, items)
  {
    FittingItemsEncode(items, true, false);
    [0x5B] + MarkText(m) + ItemsText(items) + [0x5D]
  }

  lemma BracketStands(m: Mark, items: seq<Item>, more: Text)
    requires BracketFits(m, items)
    ensures forall i :: 0 <= i < |items| ==> ItemEncodes(items[i])
    ensures var s := BracketText(m, items) + more;
            var from := 1 + |MarkText(m)|;
            var end := from + |ItemsText(items)|;
            && |BracketText(m, items)| == end + 1 <= |s|
            && s[0] == OPEN && (|MarkText(m)| > 0 ==> s[1] == MarkText(m)[0])
            && Stands(s, from, ItemsText(items)) && s[from..end] == ItemsText(items)
            && s[end] == CLOSE && s[end + 1..] == more
  {
    hide ItemsText, MarkText, ItemsFit;
    FittingItemsEncode(items, true, false);
    var t := BracketText(m, items);
    var s := t + more;
    var a, body := [OPEN] + MarkText(m), ItemsText(items);
    assert s == a + body + ([CLOSE] + more);
    StandsBetween(a, body, [CLOSE] + more);
    assert s[|t|..] == more;
  }

  lemma BracketStarts(m: Mark, items: seq<Item>, more: Text)
    requires BracketFits(m, items)
    ensures var s := BracketText(m, items) + more; |s| > 1 && (Negation(s[1]) <==> !m.Plainly?)
  {
    hide LetterText, ItemsFit, BracketText, Stands;
    BracketStands(m, items, more);
    FitsFirst(items, true, false);
    LetterStart(Low(items[0]));
    var s := BracketText(m, items) + more;
    if m.Plainly? {
      assert ItemsText(items)[0] == LetterText(Low(items[0]))[0];
      ByteStands(s, 1, ItemsText(items), 0);
    }
  }

  lemma FitsFirst(items: seq<Item>, first: bool, afterOne: bool)
    requires items != [] && ItemsFit(items, first, afterOne)
    ensures MemberFits(Low(items[0]), first) && (items[0].Span? ==> MemberFits(items[0].hi, false))
    ensures ItemsFit(items[1..], false, items[0].One?) && Scalar(Low(items[0]).cp)
  {
  }

  /** The bracket ends where it was written to. */
  lemma BracketEnds(m: Mark, items: seq<Item>, more: Text)
    requires BracketFits(m, items)
    ensures var s := BracketText(m, items) + more;
            s != [] && ScanBracket(s) == Ok(|BracketText(m, items)| - 1)
  {
    hide ScanFrom, ItemText, MemberFits, ItemsFit, BracketText, LetterText, Stands, Negation;
    BracketStands(m, items, more);
    BracketStarts(m, items, more);
    FitsFirst(items, true, false);
    var s := BracketText(m, items) + more;
    var at := 1 + |MarkText(m)|;
    var first, rest := ItemText(items[0]), items[1..];
    StandsApart(s, at, first, ItemsText(rest));
    ItemPasses(s, at, items[0]);
    FirstPasses(s, at, Low(items[0]));
    ItemsPass(s, at + |first|, rest, items[0].One?);
    ScanCloses(s, |BracketText(m, items)| - 1);
  }

  lemma ScanCloses(s: Text, j: nat)
    requires j < |s| && s[j] == CLOSE
    ensures ScanFrom(s, j) == Ok(j)
  {
  }

  /** A written bracket is read as one token, with its items for members. */
  lemma BracketReads(m: Mark, items: seq<Item>, more: Text)
    requires BracketFits(m, items)
    ensures ParseSegment(BracketText(m, items) + more) ==
            if AllProper(items) then Then(Class(!m.Plainly?, Ranges(items)), ParseSegment(more)) else Err(InvalidRange)
  {
    hide ScanBracket, Members, ItemsFit, Then, BracketText, ParseSegment, Negation, AllProper, Ranges, Stands;
    var s, t := BracketText(m, items) + more, BracketText(m, items);
    BracketStands(m, items, more);
    BracketStarts(m, items, more);
    BracketEnds(m, items, more);
    ItemsRead(items, true, false);
    BracketUnfolds(s, |t| - 1);
  }

  lemma BracketUnfolds(s: Text, close: nat)
    requires s != [] && s[0] == OPEN && ScanBracket(s) == Ok(close)
    ensures ParseSegment(s) ==
            var members := Members(s[if Negation(s[1]) then 2 else 1..close]);
            if members.Err? then Err(members.error)
            else Then(Class(Negation(s[1]), members.value), ParseSegment(s[close + 1..]))
  {
    hide ScanBracket, Members, StarRun, Then;
  }
}
