/** What a header block somebody wrote reads as, by its lines. The laws speak of the texts
    alone and name no function that reads them. */
module FramingHeaders {
  import opened FramingSpec
  import opened Framing
  import opened FramingDrivers

  // ---------- the block, as texts ----------

  /** Nothing in `s` ends a line. */
  predicate OneLine(s: Bytes) { forall i :: 0 <= i < |s| - 1 ==> s[i] != '\r' || s[i + 1] != '\n' }

  /** The lines of a block: only the first may be empty, for an empty one ends the block. */
  predicate HeaderLines(lines: seq<Bytes>) {
    lines != [] && (forall i :: 0 <= i < |lines| ==> OneLine(lines[i])) && NoneEmpty(lines[1..])
  }

  predicate NoneEmpty(lines: seq<Bytes>) { forall i :: 0 <= i < |lines| ==> lines[i] != [] }

  function LinesText(lines: seq<Bytes>): Bytes {
    if lines == [] then "\r\n" else lines[0] + "\r\n" + LinesText(lines[1..])
  }

  predicate AllBlank(s: Bytes) { forall i :: 0 <= i < |s| ==> s[i] == ' ' || s[i] == '\t' }

  /** The name, each letter small or large. */
  predicate LengthName(s: Bytes) {
    |s| == 14 && forall i :: 0 <= i < 14 ==> s[i] == "content-length"[i] || s[i] == "CONTENT-LENGTH"[i]
  }

  /** The line is the name, blanks around it, and a colon before all else. */
  ghost predicate NamesLength(line: Bytes) { exists i, k :: NamesLengthAt(line, i, k) }

  predicate NamesLengthAt(line: Bytes, i: nat, k: nat) {
    && i + 14 <= k < |line| && line[k] == ':'
    && AllBlank(line[..i]) && LengthName(line[i..i + 14]) && AllBlank(line[i + 14..k])
  }

  /** Starts and ends with something that is no blank, or is empty. */
  predicate Tight(s: Bytes) {
    s != [] ==> s[0] != ' ' && s[0] != '\t' && s[|s| - 1] != ' ' && s[|s| - 1] != '\t'
  }

  predicate Figures(s: Bytes) { forall i :: 0 <= i < |s| ==> '0' <= s[i] <= '9' }

  /** Decimal digits, the most significant first. */
  predicate Numeral(s: Bytes) { s != [] && Figures(s) }

  function Figure(c: char): nat
    requires '0' <= c <= '9'
  {
    c as int - '0' as int
  }

  function NumeralValue(s: Bytes): nat
    requires Figures(s)
  {
    if s == [] then 0 else Figure(s[0]) * Pow10(|s| - 1) + NumeralValue(s[1..])
  }

  /** A line that names the length: its parts. */
  datatype LengthLine = LengthLine(before: Bytes, name: Bytes, after: Bytes, lead: Bytes, value: Bytes, trail: Bytes)

  predicate LengthLineFits(l: LengthLine) {
    && AllBlank(l.before) && LengthName(l.name) && AllBlank(l.after)
    && AllBlank(l.lead) && Tight(l.value) && AllBlank(l.trail)
  }

  function LengthLineText(l: LengthLine): Bytes {
    l.before + l.name + l.after + ":" + (l.lead + l.value + l.trail)
  }

  // ---------- trimming ----------

  lemma {:induction false} TrimStartOf(a: Bytes, s: Bytes)
    requires AllBlank(a) && (s == [] || !Blank(s[0]))
    ensures TrimStart(a + s) == s
  {
    if a == [] {
      assert a + s == s;
    } else {
      assert (a + s)[1..] == a[1..] + s;
      TrimStartOf(a[1..], s);
    }
  }

  lemma {:induction false} TrimEndOf(s: Bytes, b: Bytes)
    requires AllBlank(b) && (s == [] || !Blank(s[|s| - 1]))
    ensures TrimEnd(s + b) == s
  {
    if b == [] {
      assert s + b == s;
    } else {
      var t := s + b;
      assert t[..|t| - 1] == s + b[..|b| - 1] && t[|t| - 1] == b[|b| - 1];
      TrimEndOf(s, b[..|b| - 1]);
    }
  }

  lemma TrimOf(a: Bytes, s: Bytes, b: Bytes)
    requires AllBlank(a) && Tight(s) && AllBlank(b)
    ensures Trim(a + s + b) == s
  {
    hide TrimStart, TrimEnd;
    if s == [] {
      assert a + s + b == (a + b) + [];
      TrimStartOf(a + b, []);
      assert s + s == s;
      TrimEndOf(s, s);
    } else {
      assert a + s + b == a + (s + b);
      TrimStartOf(a, s + b);
      TrimEndOf(s, b);
    }
  }

  /** What trimming drops is blank. */
  lemma {:induction false} TrimStartDrops(s: Bytes) returns (i: nat)
    ensures i <= |s| && TrimStart(s) == s[i..] && AllBlank(s[..i])
  {
    if s != [] && Blank(s[0]) {
      var j := TrimStartDrops(s[1..]);
      i := j + 1;
      assert s[..i] == [s[0]] + s[1..][..j] && s[i..] == s[1..][j..];
    } else {
      i := 0;
    }
  }

  lemma {:induction false} TrimEndDrops(s: Bytes) returns (j: nat)
    ensures j <= |s| && TrimEnd(s) == s[..j] && AllBlank(s[j..])
  {
    if s != [] && Blank(s[|s| - 1]) {
      var t := s[..|s| - 1];
      j := TrimEndDrops(t);
      assert s == t + [s[|s| - 1]];
      assert s[..j] == t[..j];
      assert s[j..] == t[j..] + [s[|s| - 1]];
    } else {
      j := |s|;
    }
  }

  lemma TrimDrops(s: Bytes) returns (i: nat, j: nat)
    ensures i <= j <= |s| && Trim(s) == s[i..j] && AllBlank(s[..i]) && AllBlank(s[j..])
  {
    hide TrimStart, TrimEnd;
    i := TrimStartDrops(s);
    var n := TrimEndDrops(s[i..]);
    j := i + n;
    assert s[i..][..n] == s[i..j] && s[i..][n..] == s[j..];
  }

  // ---------- one line ----------

  lemma LetterInEitherCase(c: char, small: char, large: char)
    requires 'a' <= small <= 'z' && large == small - 'a' + 'A'
    ensures Lower(large) == Lower(small) && (Lower(c) == Lower(small) <==> c == small || c == large)
  {
  }

  lemma NameInAnyCase(s: Bytes)
    ensures EqualsIgnoringCase(s, "Content-Length") <==> LengthName(s)
  {
    var name, small, large := "Content-Length", "content-length", "CONTENT-LENGTH";
    if |s| == 14 {
      forall i | 0 <= i < 14 ensures Lower(s[i]) == Lower(name[i]) <==> s[i] == small[i] || s[i] == large[i] {
        NameAt(s[i], i);
      }
    }
  }

  lemma NameAt(c: char, i: nat)
    requires i < 14
    ensures Lower(c) == Lower("Content-Length"[i]) <==> c == "content-length"[i] || c == "CONTENT-LENGTH"[i]
  {
    var name, small, large := "Content-Length", "content-length", "CONTENT-LENGTH";
    assert name[i] == small[i] || name[i] == large[i];
    if i != 7 {
      assert 'a' <= small[i] <= 'z' && large[i] == small[i] - 'a' + 'A';
      LetterInEitherCase(c, small[i], large[i]);
    }
  }

  lemma SaysSoByName(line: Bytes)
    requires LineLength(line).Some?
    ensures NamesLength(line)
  {
    hide Trim, EqualsIgnoringCase, IndexOf, LengthName, ParseSize;
    var colon := IndexOf(line, ':');
    var head := line[..colon];
    var i, j := TrimDrops(head);
    NameInAnyCase(head[i..j]);
    LengthNameSize(head[i..j]);
    assert head[i..j] == line[i..i + 14] && head[..i] == line[..i] && head[j..] == line[i + 14..colon];
    assert NamesLengthAt(line, i, colon);
  }

  lemma OtherLine(line: Bytes)
    requires !NamesLength(line)
    ensures LineLength(line) == None
  {
    hide LineLength, NamesLength;
    if LineLength(line).Some? { SaysSoByName(line); }
  }

  lemma LengthNameSize(s: Bytes)
    requires LengthName(s)
    ensures |s| == 14 && Tight(s) && ':' !in s
  {
    assert ':' !in "content-length" && ':' !in "CONTENT-LENGTH";
  }

  lemma ColonOf(l: LengthLine)
    requires LengthLineFits(l)
    ensures var k := |l.before| + |l.name| + |l.after|;
            var line := LengthLineText(l);
            && IndexOf(line, ':') == k < |line| && line[..k] == l.before + l.name + l.after
            && line[k + 1..] == l.lead + l.value + l.trail
  {
    hide IndexOf, LengthName, Tight;
    var head, line := l.before + l.name + l.after, LengthLineText(l);
    LengthNameSize(l.name);
    assert line[..|head|] == head;
    IndexOfUnique(line, ':', |head|);
  }

  lemma {:induction false} NumeralMoves(s: Bytes, c: char)
    requires Figures(s + [c]) && Figures(s) && '0' <= c <= '9'
    ensures NumeralValue(s + [c]) == 10 * NumeralValue(s) + Figure(c)
  {
    hide Figure;
    var t := s + [c];
    if s == [] {
      assert t == [c] && t[1..] == [] && Pow10(0) == 1;
    } else {
      assert t[1..] == s[1..] + [c] && t[0] == s[0];
      FiguresRest(s);
      FiguresRest(t);
      NumeralMoves(s[1..], c);
      assert Pow10(|s|) == 10 * Pow10(|s| - 1);
      TenTimes(Figure(s[0]), Pow10(|s| - 1));
    }
  }

  lemma FiguresRest(s: Bytes)
    requires s != [] && Figures(s)
    ensures Figures(s[1..]) && Figures(s[..|s| - 1])
  {
  }

  lemma TenTimes(d: int, p: int)
    ensures d * (10 * p) == 10 * (d * p)
  {
  }

  lemma {:induction false} NumeralIsDecimal(s: Bytes)
    requires Figures(s)
    ensures NumeralValue(s) == Decimal(s)
  {
    hide NumeralValue;
    if s == [] {
      NoNumeral();
    } else {
      var t := s[..|s| - 1];
      NumeralIsDecimal(t);
      assert s == t + [s[|s| - 1]];
      NumeralMoves(t, s[|s| - 1]);
    }
  }

  lemma NoNumeral()
    ensures NumeralValue([]) == 0
  {
  }

  lemma ValueReads(value: Bytes)
    ensures ParseSize(value) ==
            if Numeral(value) && NumeralValue(value) <= 0xFFFF_FFFF_FFFF_FFFF then Some(NumeralValue(value)) else None
  {
    hide Decimal, NumeralValue;
    if Numeral(value) { NumeralIsDecimal(value); }
  }

  lemma LengthLineReads(l: LengthLine)
    requires LengthLineFits(l)
    ensures LineLength(LengthLineText(l)) ==
            Some(if Numeral(l.value) && NumeralValue(l.value) <= 0xFFFF_FFFF_FFFF_FFFF
                 then Known(NumeralValue(l.value)) else Unknown(InvalidLength(l.value)))
  {
    hide Trim, EqualsIgnoringCase, IndexOf, ParseSize, Numeral, NumeralValue, LengthName, Tight, AllBlank,
      LengthLineText;
    ColonOf(l);
    LengthNameSize(l.name);
    TrimOf(l.before, l.name, l.after);
    NameInAnyCase(l.name);
    TrimOf(l.lead, l.value, l.trail);
    ValueReads(l.value);
  }

  // ---------- where lines and the block end ----------

  lemma NoEndInside(line: Bytes, more: Bytes, i: nat)
    requires OneLine(line) && i < |line|
    ensures !LineEndAt(line + "\r\n" + more, i)
  {
    var t := line + "\r\n" + more;
    assert t[i] == line[i];
    if i + 1 < |line| {
      assert t[i + 1] == line[i + 1];
    } else {
      assert t[i + 1] == '\r';
    }
  }

  lemma FirstLineEnd(line: Bytes, more: Bytes)
    requires OneLine(line) && (more == [] || EndsLine(more))
    ensures var t := line + "\r\n" + more;
            && EndsLine(t) && LineEnd(t) == |line| && t[..|line|] == line && t[|line| + 2..] == more
  {
    hide OneLine, LineEndFrom;
    var t := line + "\r\n" + more;
    assert t[|line|] == '\r' && t[|line| + 1] == '\n';
    assert EndsLine(t);
    var e := LineEnd(t);
    if e < |line| { NoEndInside(line, more, e); }
    assert LineEndAt(t, |line|);
    assert t[|line| + 2..] == more;
  }

  lemma {:induction false} TextEndsLine(lines: seq<Bytes>)
    ensures EndsLine(LinesText(lines))
    ensures lines != [] ==> EndsBlank(LinesText(lines))
  {
    var t := LinesText(lines);
    if lines != [] {
      var more := LinesText(lines[1..]);
      TextEndsLine(lines[1..]);
      assert forall i :: 0 <= i < |more| ==> t[|t| - |more| + i] == more[i];
      if |lines| == 1 {
        assert more == "\r\n";
        assert t[|t| - 4..] == BLANK_LINE;
      } else {
        assert more[|more| - 4..] == t[|t| - 4..];
      }
    }
  }

  /** No two line ends meet before the end of the block. */
  lemma {:induction false} EndsApart(lines: seq<Bytes>, i: nat)
    requires HeaderLines(lines) && i + 4 < |LinesText(lines)|
    ensures !(LineEndAt(LinesText(lines), i) && LineEndAt(LinesText(lines), i + 2))
    decreases |lines|
  {
    hide OneLine, LineEndAt;
    var line, rest := lines[0], lines[1..];
    var more := LinesText(rest);
    var t := LinesText(lines);
    assert t == line + "\r\n" + more;
    if i < |line| {
      NoEndInside(line, more, i);
    } else if i == |line| {
      // The next line has something in it, so its end is not at its start.
      assert rest != [] by { OnlyEnd(rest); }
      assert more == rest[0] + "\r\n" + LinesText(rest[1..]) && rest[0] != [];
      NoEndInside(rest[0], LinesText(rest[1..]), 0);
      EndShifts(line + "\r\n", more, 0);
    } else if i == |line| + 1 {
      NoEndInMiddle(line, more);
    } else {
      var j := i - |line| - 2;
      EndShifts(line + "\r\n", more, j);
      EndShifts(line + "\r\n", more, j + 2);
      if rest == [] {
        OnlyEnd(rest);
      } else {
        EndsApart(rest, j);
      }
    }
  }

  lemma OnlyEnd(rest: seq<Bytes>)
    ensures rest == [] ==> LinesText(rest) == "\r\n"
  {
  }

  lemma EndShifts(a: Bytes, more: Bytes, j: nat)
    ensures LineEndAt(a + more, |a| + j) <==> LineEndAt(more, j)
  {
  }

  lemma NoEndInMiddle(line: Bytes, more: Bytes)
    ensures !LineEndAt(line + "\r\n" + more, |line| + 1)
  {
  }

  lemma BlockIsQuiet(lines: seq<Bytes>, k: nat)
    requires HeaderLines(lines) && k < |LinesText(lines)|
    ensures !EndsBlank(LinesText(lines)[..k])
  {
    hide LinesText;
    var t := LinesText(lines);
    var s := t[..k];
    if EndsBlank(s) {
      var b := s[k - 4..];
      assert b[0] == t[k - 4] && b[1] == t[k - 3] && b[2] == t[k - 2] && b[3] == t[k - 1];
      EndsApart(lines, k - 4);
      assert false;
    }
  }

  // ---------- what the block names ----------

  lemma ContentUnfolds(lines: seq<Bytes>)
    requires lines != [] && OneLine(lines[0])
    ensures EndsLine(LinesText(lines)) && EndsLine(LinesText(lines[1..]))
    ensures ContentLength(LinesText(lines)) ==
            if LineLength(lines[0]).Some? then LineLength(lines[0]).value else ContentLength(LinesText(lines[1..]))
  {
    hide LineLength, OneLine, LineEnd;
    TextEndsLine(lines);
    TextEndsLine(lines[1..]);
    FirstLineEnd(lines[0], LinesText(lines[1..]));
  }

  lemma NothingNamed()
    ensures EndsLine("\r\n") && ContentLength("\r\n") == Unknown(MissingLength)
  {
    hide LineLength, LineEnd;
    FirstLineEnd([], []);
    assert [] + "\r\n" + [] == "\r\n";
    OtherLine([]) by { assert !NamesLength([]); }
    assert "\r\n"[..0] == [];
  }

  /** Lines that name no length say nothing of it. */
  lemma {:induction false} OtherLines(before: seq<Bytes>, after: seq<Bytes>)
    requires forall i :: 0 <= i < |before| ==> OneLine(before[i]) && !NamesLength(before[i])
    ensures EndsLine(LinesText(before + after)) && EndsLine(LinesText(after))
    ensures ContentLength(LinesText(before + after)) == ContentLength(LinesText(after))
  {
    hide ContentLength, OneLine, NamesLength, LinesText, EndsLine;
    if before == [] {
      assert before + after == after;
      TextEndsLine(after);
    } else {
      assert (before + after)[1..] == before[1..] + after;
      ContentUnfolds(before + after);
      OtherLine(before[0]);
      OtherLines(before[1..], after);
    }
  }

  // ---------- the laws ----------

  /** A whole block, read from a boundary, is taken to its end, and what comes next is
      decided by the length it names. */
  lemma BlockFeeds(st: State, lines: seq<Bytes>, rest: Bytes)
    requires InStep(st) && HeaderLines(lines) && |LinesText(lines)| <= 8192
    ensures EndsBlank(LinesText(lines))
    ensures var (next, frame) := AfterHeader(st, LinesText(lines));
            Feed(st, LinesText(lines) + rest) ==
            if frame.Some? then Fed(next, |LinesText(lines)|, frame)
            else Later(|LinesText(lines)|, Feed(next, rest))
  {
    hide Feed, StepByte, AfterHeader, LinesText, EndsBlank, HeaderLines;
    var t := LinesText(lines);
    var w := t + rest;
    TextEndsLine(lines) by { LinesNotEmpty(lines); }
    LinesNotEmpty(lines);
    assert w[..|t|] == t && w[|t|..] == rest && [] + t == t;
    forall k | 1 <= k <= |t| - 1 ensures !EndsBlank(st.header + w[..k]) {
      assert st.header + w[..k] == t[..k];
      BlockIsQuiet(lines, k);
    }
    BlankHasSize(t);
    HeaderByte(st, w, |t|);
  }

  lemma LinesNotEmpty(lines: seq<Bytes>)
    requires HeaderLines(lines)
    ensures lines != []
  {
  }

  lemma BlankHasSize(s: Bytes)
    requires EndsBlank(s)
    ensures |s| >= 4
  {
  }

  /** Where the parser goes on after a header that names `n`, fed a payload of that size. */
  lemma PayloadFollows(st: State, header: Bytes, payload: Bytes, rest: Bytes)
    requires InStep(st) && EndsBlank(header) && EndsLine(header) && ContentLength(header) == Known(|payload|)
    ensures var (next, frame) := AfterHeader(st, header);
            var fed := if frame.Some? then Fed(next, 0, frame) else Feed(next, payload + rest);
            && fed.frame == Some(if |payload| <= st.maxPayload then Message(payload)
                                 else Oversized(|payload|, payload[..if |payload| < 4096 then |payload| else 4096]))
            && fed.consumed == |payload| && InStep(fed.state) && fed.state.maxPayload == st.maxPayload
  {
    hide Feed, StepByte, EndsBlank, EndsLine, ContentLength, AfterHeader, Kept;
    var n := |payload|;
    AfterHeaderIs(st, header, Known(n));
    var next := AfterHeader(st, header).0;
    if n > st.maxPayload {
      SkipFeed(next, payload + rest);
      assert (payload + rest)[..n] == payload;
      KeptFromStart(payload);
    } else if n > 0 {
      PayloadFeed(next, payload + rest);
      assert (payload + rest)[..n] == payload && [] + payload == payload;
    }
  }

  /** The first line that names the length decides, whatever comes before and after it: the
      payload of that size is the message, or is too large. */
  lemma NamedLengthReads(
      st: State, before: seq<Bytes>, l: LengthLine, after: seq<Bytes>, payload: Bytes, rest: Bytes)
    requires InStep(st) && LengthLineFits(l)
    requires HeaderLines(before + [LengthLineText(l)] + after)
    requires forall i :: 0 <= i < |before| ==> !NamesLength(before[i])
    requires |LinesText(before + [LengthLineText(l)] + after)| <= 8192
    requires Numeral(l.value) && NumeralValue(l.value) == |payload| <= 0xFFFF_FFFF_FFFF_FFFF
    ensures var block := LinesText(before + [LengthLineText(l)] + after);
            var fed := Feed(st, block + payload + rest);
            && fed.frame == Some(if |payload| <= st.maxPayload then Message(payload)
                                 else Oversized(|payload|, payload[..if |payload| < 4096 then |payload| else 4096]))
            && fed.consumed == |block| + |payload| && InStep(fed.state)
  {
    hide Feed, AfterHeader, ContentLength, EndsBlank, EndsLine, LinesText, HeaderLines, LengthLineFits,
      LengthLineText, NamesLength, Numeral, NumeralValue, InStep;
    var lines := before + [LengthLineText(l)] + after;
    var block := LinesText(lines);
    NamedLength(before, l, after);
    BlockFeeds(st, lines, payload + rest);
    PayloadFollows(st, block, payload, rest);
    assert block + payload + rest == block + (payload + rest);
  }

  /** What a block with a line that names the length is taken to say. */
  lemma NamedLength(before: seq<Bytes>, l: LengthLine, after: seq<Bytes>)
    requires LengthLineFits(l) && HeaderLines(before + [LengthLineText(l)] + after)
    requires forall i :: 0 <= i < |before| ==> !NamesLength(before[i])
    ensures var block := LinesText(before + [LengthLineText(l)] + after);
            && EndsLine(block)
            && ContentLength(block) ==
               if Numeral(l.value) && NumeralValue(l.value) <= 0xFFFF_FFFF_FFFF_FFFF
               then Known(NumeralValue(l.value)) else Unknown(InvalidLength(l.value))
  {
    hide ContentLength, EndsLine, LinesText, LengthLineFits, LengthLineText, NamesLength, Numeral, NumeralValue,
      OneLine;
    var text := LengthLineText(l);
    var tail := [text] + after;
    var lines := before + [text] + after;
    assert lines == before + tail;
    forall i | 0 <= i < |before| ensures OneLine(before[i]) { assert lines[i] == before[i]; }
    assert lines[|before|] == text;
    OtherLines(before, tail);
    ContentUnfolds(tail);
    LengthLineReads(l);
  }

  /** A length that is no number, or too large for a size, makes the block malformed. */
  lemma BadLengthReads(st: State, before: seq<Bytes>, l: LengthLine, after: seq<Bytes>, rest: Bytes)
    requires InStep(st) && LengthLineFits(l)
    requires HeaderLines(before + [LengthLineText(l)] + after)
    requires forall i :: 0 <= i < |before| ==> !NamesLength(before[i])
    requires |LinesText(before + [LengthLineText(l)] + after)| <= 8192
    requires !(Numeral(l.value) && NumeralValue(l.value) <= 0xFFFF_FFFF_FFFF_FFFF)
    ensures var block := LinesText(before + [LengthLineText(l)] + after);
            var fed := Feed(st, block + rest);
            fed.frame == Some(Malformed(InvalidLength(l.value))) && fed.consumed == |block|
  {
    hide Feed, AfterHeader, ContentLength, EndsBlank, EndsLine, LinesText, HeaderLines, LengthLineFits,
      LengthLineText, NamesLength, Numeral, NumeralValue, InStep;
    var lines := before + [LengthLineText(l)] + after;
    NamedLength(before, l, after);
    BlockFeeds(st, lines, rest);
    AfterHeaderIs(st, LinesText(lines), Unknown(InvalidLength(l.value)));
  }

  /** So does naming none at all. */
  lemma NoLengthReads(st: State, lines: seq<Bytes>, rest: Bytes)
    requires InStep(st) && HeaderLines(lines) && |LinesText(lines)| <= 8192
    requires forall i :: 0 <= i < |lines| ==> !NamesLength(lines[i])
    ensures var fed := Feed(st, LinesText(lines) + rest);
            fed.frame == Some(Malformed(MissingLength)) && fed.consumed == |LinesText(lines)|
  {
    hide Feed, AfterHeader, ContentLength, EndsBlank, EndsLine, NamesLength, InStep, OneLine;
    assert lines + [] == lines;
    OtherLines(lines, []);
    assert LinesText([]) == "\r\n";
    NothingNamed();
    BlockFeeds(st, lines, rest);
    AfterHeaderIs(st, LinesText(lines), Unknown(MissingLength));
  }

  predicate BlankLineAt(s: Bytes, i: nat) {
    i + 4 <= |s| && s[i] == '\r' && s[i + 1] == '\n' && s[i + 2] == '\r' && s[i + 3] == '\n'
  }

  /** A block that has not ended after 8192 bytes is too long with the next one. */
  lemma EndlessHeader(st: State, s: Bytes)
    requires InStep(st) && forall i: nat :: i + 4 <= 8192 ==> !BlankLineAt(s, i)
    ensures |s| <= 8192 ==> Feed(st, s).frame == None && Feed(st, s).consumed == |s|
    ensures |s| > 8192 ==> Feed(st, s).frame == Some(Malformed(HeaderTooLong)) && Feed(st, s).consumed == 8193
  {
    hide Feed, StepByte, EndsBlank, BlankLineAt;
    var n := if |s| <= 8192 then |s| else 8192;
    forall k | 1 <= k <= n ensures !EndsBlank(st.header + s[..k]) {
      assert st.header + s[..k] == s[..k];
      BlankEndsThere(s, k);
    }
    if |s| <= 8192 {
      HeaderWindow(st, s, s) by { assert s[..|s|] == s; }
    } else {
      HeaderByte(st, s, 8193);
    }
  }

  lemma BlankEndsThere(s: Bytes, k: nat)
    requires k <= |s| && (k >= 4 ==> !BlankLineAt(s, k - 4))
    ensures !EndsBlank(s[..k])
  {
    if k >= 4 {
      var b := s[..k][k - 4..];
      assert b[0] == s[k - 4] && b[1] == s[k - 3] && b[2] == s[k - 2] && b[3] == s[k - 1];
    }
  }

  /** After a malformed header every feed says the same and takes nothing. */
  lemma BrokenForGood(st: State, s: Bytes, reason: Reason, more: Bytes)
    requires Good(st) && Feed(st, s).frame == Some(Malformed(reason))
    ensures Feed(Feed(st, s).state, more) == Fed(Feed(st, s).state, 0, Some(Malformed(reason)))
  {
    hide StepByte;
    FeedBroken(Feed(st, s).state, more);
  }
}
