/** What texts somebody else wrote read as: words made of parts, each with the characters
    that spell it and the characters it stands for, and gaps between the words. The laws
    name no function that reads. */
module CmdWords {
  import opened CmdSpec
  import opened CmdSplit
  import opened CmdJoin

  /** The characters that part two words. */
  predicate Parts(r: Reading, c: char) {
    c == ' ' || c == '\t' || (r != Windows && (c == '\n' || c == '\r')) || (r == WindowsFile && c == '\0')
  }

  lemma PartsSeparate(r: Reading, c: char)
    ensures Separates(r, c) <==> Parts(r, c)
  {
  }

  predicate StartsWith(s: string, c: char) { s != [] && s[0] == c }

  // ---------- Windows words ----------

  datatype WindowsPart =
    | Plain(text: string)     // outside quotes, for itself
    | Escaped(text: string)   // in quotes, a quote behind a backslash
    | Doubled(text: string)   // in quotes, a quote twice
    | Slashes(count: nat)     // backslashes before an opening quote
    | Mark(slashes: nat)      // backslashes and a quote, outside quotes

  function TwiceTheQuotes(s: string): string {
    if s == [] then [] else (if s[0] == '"' then "\"\"" else [s[0]]) + TwiceTheQuotes(s[1..])
  }

  function WindowsPartText(p: WindowsPart): string {
    match p
    case Plain(s) => s
    case Escaped(s) => "\"" + WindowsBody(s) + "\""
    case Doubled(s) => "\"" + TwiceTheQuotes(s) + "\""
    case Slashes(n) => Backslashes(2 * n)
    case Mark(n) => Backslashes(2 * n + 1) + "\""
  }

  function WindowsPartValue(p: WindowsPart): string {
    match p
    case Plain(s) => s
    case Escaped(s) => s
    case Doubled(s) => s
    case Slashes(n) => Backslashes(n)
    case Mark(n) => Backslashes(n) + "\""
  }

  /** May `p` stand before `next`? */
  predicate WindowsPartFits(p: WindowsPart, next: string, r: Reading) {
    match p
    case Plain(s) =>
      && s != [] && '"' !in s && (forall i :: 0 <= i < |s| ==> !Parts(r, s[i]))
      && (s[|s| - 1] == '\\' ==> !StartsWith(next, '"') && !StartsWith(next, '\\'))
    case Escaped(_) => !StartsWith(next, '"')
    case Doubled(s) => '\\' !in s && !StartsWith(next, '"')
    case Slashes(n) => n > 0 && StartsWith(next, '"')
    case Mark(_) => true
  }

  function WindowsText(ps: seq<WindowsPart>): string {
    if ps == [] then [] else WindowsPartText(ps[0]) + WindowsText(ps[1..])
  }

  function WindowsValue(ps: seq<WindowsPart>): string {
    if ps == [] then [] else WindowsPartValue(ps[0]) + WindowsValue(ps[1..])
  }

  predicate WindowsFits(ps: seq<WindowsPart>, r: Reading) {
    ps == [] || (WindowsPartFits(ps[0], WindowsText(ps[1..]), r) && WindowsFits(ps[1..], r))
  }

  /** Quotes twice inside quotes: each pair is one quote, and the single one closes. */
  lemma {:induction false} DoubledReads(s: string, tail: string, r: Reading)
    requires '\\' !in s && !StartsWith(tail, '"')
    ensures UnquoteWindows(TwiceTheQuotes(s) + ("\"" + tail), r, false, true)
            == Put(s, UnquoteWindows(tail, r, false, false))
  {
    hide UnquoteWindows, Put, Separates;
    var end := "\"" + tail;
    if s == [] {
      assert TwiceTheQuotes(s) + end == end;
      CloseQuote(tail, r, false);
      PutNothing(UnquoteWindows(tail, r, false, false));
    } else {
      DoubledReads(s[1..], tail, r);
      var rest := TwiceTheQuotes(s[1..]) + end;
      PutPut([s[0]], s[1..], UnquoteWindows(tail, r, false, false));
      assert [s[0]] + s[1..] == s;
      if s[0] == '"' {
        assert TwiceTheQuotes(s) + end == "\"\"" + rest;
        PairReads(rest, r);
      } else {
        assert TwiceTheQuotes(s) + end == [s[0]] + rest;
        CharacterReads(s[0], rest, r, true);
      }
    }
  }

  lemma PairReads(rest: string, r: Reading)
    ensures UnquoteWindows("\"\"" + rest, r, false, true) == Put("\"", UnquoteWindows(rest, r, false, true))
  {
    hide Put;
    assert ("\"\"" + rest)[2..] == rest;
  }

  lemma PlainIsBareHere(s: string, next: string, r: Reading)
    requires WindowsPartFits(Plain(s), next, r)
    ensures Bare(r, s, next)
  {
    hide Separates, Parts;
    forall i | 0 <= i < |s| ensures !Separates(r, s[i]) { PartsSeparate(r, s[i]); }
  }

  lemma EscapedPartReads(s: string, next: string, r: Reading)
    requires !StartsWith(next, '"')
    ensures UnquoteWindows("\"" + WindowsBody(s) + "\"" + next, r, false, false)
            == Put(s, UnquoteWindows(next, r, false, false))
  {
    hide UnquoteWindows, Put, WindowsBody;
    assert "\"" + WindowsBody(s) + "\"" + next == "\"" + Closed(s, next);
    OpenQuote(Closed(s, next), r, false);
    WindowsBodyReads(s, next, r);
  }

  lemma DoubledPartReads(s: string, next: string, r: Reading)
    requires '\\' !in s && !StartsWith(next, '"')
    ensures UnquoteWindows("\"" + TwiceTheQuotes(s) + "\"" + next, r, false, false)
            == Put(s, UnquoteWindows(next, r, false, false))
  {
    hide UnquoteWindows, Put, TwiceTheQuotes;
    var inner := TwiceTheQuotes(s) + ("\"" + next);
    assert "\"" + TwiceTheQuotes(s) + "\"" + next == "\"" + inner;
    OpenQuote(inner, r, false);
    DoubledReads(s, next, r);
  }

  lemma MarkPartReads(n: nat, next: string, r: Reading)
    ensures UnquoteWindows(Backslashes(2 * n + 1) + "\"" + next, r, false, false)
            == Put(Backslashes(n) + "\"", UnquoteWindows(next, r, false, false))
  {
    hide UnquoteWindows, Put, Backslashes;
    assert Backslashes(2 * n + 1) + "\"" + next == Backslashes(2 * n + 1) + ("\"" + next);
    RunReads(2 * n + 1, "\"" + next, r, false);
    assert ("\"" + next)[1..] == next;
  }

  lemma WindowsPartReads(p: WindowsPart, next: string, r: Reading)
    requires WindowsPartFits(p, next, r)
    ensures UnquoteWindows(WindowsPartText(p) + next, r, false, false)
            == Put(WindowsPartValue(p), UnquoteWindows(next, r, false, false))
  {
    hide UnquoteWindows, Put, WindowsBody, TwiceTheQuotes, Parts, Bare, Backslashes;
    match p
    case Plain(s) =>
      PlainIsBareHere(s, next, r);
      BareReads(s, next, r);
    case Escaped(s) => EscapedPartReads(s, next, r);
    case Doubled(s) => DoubledPartReads(s, next, r);
    case Slashes(n) => RunReads(2 * n, next, r, false);
    case Mark(n) => MarkPartReads(n, next, r);
  }

  lemma FitsBeforeTail(p: WindowsPart, next: string, tail: string, r: Reading)
    requires WindowsPartFits(p, next, r) && Ends(r, tail)
    ensures WindowsPartFits(p, next + tail, r)
  {
    hide Parts;
    if next == [] { assert next + tail == tail; }
    assert !StartsWith(tail, '"') && !StartsWith(tail, '\\');
  }

  /** A Windows word stands for what its parts stand for. */
  lemma {:induction false} WindowsWordReads(ps: seq<WindowsPart>, tail: string, r: Reading)
    requires WindowsFits(ps, r) && Ends(r, tail)
    ensures UnquoteWindows(WindowsText(ps) + tail, r, false, false) == Piece(WindowsValue(ps), tail)
  {
    hide UnquoteWindows, WindowsPartText, WindowsPartValue, WindowsPartFits, Ends, Put;
    if ps == [] {
      assert WindowsText(ps) + tail == tail;
      EndReads(tail, r);
    } else {
      var next := WindowsText(ps[1..]);
      FitsBeforeTail(ps[0], next, tail, r);
      WindowsPartReads(ps[0], next + tail, r);
      WindowsWordReads(ps[1..], tail, r);
      assert WindowsText(ps) + tail == WindowsPartText(ps[0]) + (next + tail);
      PutBefore(WindowsPartValue(ps[0]), WindowsValue(ps[1..]), tail);
    }
  }

  lemma EndReads(tail: string, r: Reading)
    requires Ends(r, tail)
    ensures UnquoteWindows(tail, r, false, false) == Piece([], tail)
  {
  }

  lemma PutBefore(a: string, b: string, tail: string)
    ensures Put(a, Piece(b, tail)) == Piece(a + b, tail)
  {
  }

  lemma WindowsWordStarts(ps: seq<WindowsPart>, r: Reading)
    requires ps != [] && WindowsFits(ps, r)
    ensures WindowsText(ps) != [] && !Parts(r, WindowsText(ps)[0])
  {
    hide WindowsBody, TwiceTheQuotes, WindowsPartText, WindowsPartFits;
    PartStarts(ps[0], WindowsText(ps[1..]), r);
    assert WindowsText(ps)[0] == WindowsPartText(ps[0])[0];
  }

  lemma PartStarts(p: WindowsPart, next: string, r: Reading)
    requires WindowsPartFits(p, next, r)
    ensures WindowsPartText(p) != [] && !Parts(r, WindowsPartText(p)[0])
  {
    hide WindowsBody, TwiceTheQuotes;
  }

  lemma {:induction false} OpenBodyReads(s: string, r: Reading)
    requires '"' !in s && '\\' !in s
    ensures UnquoteWindows(s, r, false, true) == Piece(s, [])
  {
    hide UnquoteWindows, Separates;
    if s == [] {
      WindowsEnds(s, r, false, true, []);
      PutNothing(UnquoteWindows(s, r, false, true));
    } else {
      OpenBodyReads(s[1..], r);
      CharacterReads(s[0], s[1..], r, true);
      assert s == [s[0]] + s[1..];
    }
  }

  /** A quote that is never closed holds the rest of the line, blanks and all. */
  lemma WindowsCutShort(s: string, r: Reading)
    requires !IsPosix(r) && '"' !in s && '\\' !in s
    ensures Unquote("\"" + s, r, false) == Piece(s, [])
  {
    hide UnquoteWindows;
    OpenQuote(s, r, false);
    OpenBodyReads(s, r);
  }

  // ---------- Windows programs ----------

  /** A piece of a program: in quotes, or not. */
  datatype ProgramPart = ProgramPart(text: string, quoted: bool)

  predicate ProgramFits(ps: seq<ProgramPart>) {
    forall i :: 0 <= i < |ps| ==>
      '"' !in ps[i].text && (ps[i].quoted || (' ' !in ps[i].text && '\t' !in ps[i].text))
  }

  function ProgramText(ps: seq<ProgramPart>): string {
    if ps == [] then []
    else (if ps[0].quoted then "\"" + ps[0].text + "\"" else ps[0].text) + ProgramText(ps[1..])
  }

  function ProgramValue(ps: seq<ProgramPart>): string {
    if ps == [] then [] else ps[0].text + ProgramValue(ps[1..])
  }

  /** A program's quotes only group, and its backslashes are all its own. */
  lemma {:induction false} ProgramWordReads(ps: seq<ProgramPart>, tail: string)
    requires ProgramFits(ps) && Ends(Windows, tail)
    ensures UnquoteWindows(ProgramText(ps) + tail, Windows, true, false) == Piece(ProgramValue(ps), tail)
  {
    hide UnquoteWindows, Put;
    if ps == [] {
      assert ProgramText(ps) + tail == tail;
      WindowsEnds(tail, Windows, true, false, []);
      PutNothing(UnquoteWindows(tail, Windows, true, false));
    } else {
      var s, next := ps[0].text, ProgramText(ps[1..]) + tail;
      ProgramWordReads(ps[1..], tail);
      if ps[0].quoted {
        assert ProgramText(ps) + tail == "\"" + s + "\"" + next;
        QuotedProgramReads(s, next);
      } else {
        assert ProgramText(ps) + tail == s + next;
        ProgramReads(s, next, false);
      }
      PutBefore(s, ProgramValue(ps[1..]), tail);
    }
  }

  // ---------- POSIX words ----------

  datatype Letter = AsIs(c: char) | Behind(c: char)   // behind a backslash

  function LetterText(l: Letter): string { if l.AsIs? then [l.c] else ['\\', l.c] }

  datatype PosixPart =
    | Outside(letters: seq<Letter>)
    | Within(mark: char, letters: seq<Letter>)

  /** May `l` stand in the quote? A line's single quotes know no escape. */
  predicate LetterFits(l: Letter, quote: Quote, r: Reading) {
    var raw := quote == In('\'') && r.Posix?;
    match l
    case Behind(_) => !raw
    case AsIs(c) =>
      if quote.NoQuote? then !Parts(r, c) && c != '\\' && c != '\'' && c != '"'
      else c != quote.mark && (raw || c != '\\')
  }

  predicate PosixPartFits(p: PosixPart, r: Reading) {
    match p
    case Outside(ls) => ls != [] && forall i :: 0 <= i < |ls| ==> LetterFits(ls[i], NoQuote, r)
    case Within(mark, ls) =>
      (mark == '\'' || mark == '"') && forall i :: 0 <= i < |ls| ==> LetterFits(ls[i], In(mark), r)
  }

  function LettersText(ls: seq<Letter>): string {
    if ls == [] then [] else LetterText(ls[0]) + LettersText(ls[1..])
  }

  function LettersValue(ls: seq<Letter>): string {
    if ls == [] then [] else [ls[0].c] + LettersValue(ls[1..])
  }

  function PosixPartText(p: PosixPart): string {
    if p.Outside? then LettersText(p.letters) else [p.mark] + LettersText(p.letters) + [p.mark]
  }

  function PosixText(ps: seq<PosixPart>): string {
    if ps == [] then [] else PosixPartText(ps[0]) + PosixText(ps[1..])
  }

  function PosixValue(ps: seq<PosixPart>): string {
    if ps == [] then [] else LettersValue(ps[0].letters) + PosixValue(ps[1..])
  }

  predicate PosixFits(ps: seq<PosixPart>, r: Reading) {
    forall i :: 0 <= i < |ps| ==> PosixPartFits(ps[i], r)
  }

  lemma LetterReads(l: Letter, quote: Quote, next: string, r: Reading)
    requires LetterFits(l, quote, r)
    ensures UnquotePosix(LetterText(l) + next, r, quote) == Put([l.c], UnquotePosix(next, r, quote))
  {
    hide UnquotePosix, Put;
    var s := LetterText(l) + next;
    PartsSeparate(r, s[0]);
    assert s[0..] == s;
    PosixStep(s, r, 0, quote);
    if l.AsIs? {
      assert s[0] == l.c && s[1..] == next;
    } else {
      assert s[0] == '\\' && s[1] == l.c && s[2..] == next;
    }
  }

  lemma {:induction false} LettersRead(ls: seq<Letter>, quote: Quote, next: string, r: Reading)
    requires forall i :: 0 <= i < |ls| ==> LetterFits(ls[i], quote, r)
    ensures UnquotePosix(LettersText(ls) + next, r, quote) == Put(LettersValue(ls), UnquotePosix(next, r, quote))
  {
    hide UnquotePosix, Put, LetterFits;
    if ls == [] {
      assert LettersText(ls) + next == next;
      PutNothing(UnquotePosix(next, r, quote));
    } else {
      var rest := LettersText(ls[1..]) + next;
      assert LettersText(ls) + next == LetterText(ls[0]) + rest;
      LetterReads(ls[0], quote, rest, r);
      LettersRead(ls[1..], quote, next, r);
      PutPut([ls[0].c], LettersValue(ls[1..]), UnquotePosix(next, r, quote));
    }
  }

  lemma MarkReads(mark: char, quote: Quote, next: string, r: Reading)
    requires (mark == '\'' || mark == '"') && (quote.NoQuote? || quote == In(mark))
    ensures UnquotePosix([mark] + next, r, quote)
            == UnquotePosix(next, r, if quote.NoQuote? then In(mark) else NoQuote)
  {
    hide UnquotePosix, Put;
    var s := [mark] + next;
    assert s[0..] == s && s[1..] == next;
    PosixStep(s, r, 0, quote);
  }

  lemma PosixPartReads(p: PosixPart, next: string, r: Reading)
    requires PosixPartFits(p, r)
    ensures UnquotePosix(PosixPartText(p) + next, r, NoQuote)
            == Put(LettersValue(p.letters), UnquotePosix(next, r, NoQuote))
  {
    hide UnquotePosix, Put, LettersText, LettersValue, LetterFits;
    match p
    case Outside(ls) => LettersRead(ls, NoQuote, next, r);
    case Within(mark, ls) =>
      var inner := LettersText(ls) + ([mark] + next);
      assert PosixPartText(p) + next == [mark] + inner;
      MarkReads(mark, NoQuote, inner, r);
      LettersRead(ls, In(mark), [mark] + next, r);
      MarkReads(mark, In(mark), next, r);
  }

  /** A POSIX word stands for the letters of its parts. */
  lemma {:induction false} PosixWordReads(ps: seq<PosixPart>, tail: string, r: Reading)
    requires PosixFits(ps, r)
    ensures UnquotePosix(PosixText(ps) + tail, r, NoQuote) == Put(PosixValue(ps), UnquotePosix(tail, r, NoQuote))
  {
    hide UnquotePosix, PosixPartText, LettersValue, PosixPartFits, Put;
    if ps == [] {
      assert PosixText(ps) + tail == tail;
      PutNothing(UnquotePosix(tail, r, NoQuote));
    } else {
      var next := PosixText(ps[1..]) + tail;
      PosixPartReads(ps[0], next, r);
      PosixWordReads(ps[1..], tail, r);
      assert PosixText(ps) + tail == PosixPartText(ps[0]) + next;
      PutPut(LettersValue(ps[0].letters), PosixValue(ps[1..]), UnquotePosix(tail, r, NoQuote));
    }
  }

  /** A text that ends in a quote still open, or in a backslash with nothing to escape. */
  lemma PosixCutShort(ps: seq<PosixPart>, quote: Quote, ls: seq<Letter>, backslash: bool, r: Reading)
    requires IsPosix(r) && PosixFits(ps, r) && (quote.In? ==> quote.mark == '\'' || quote.mark == '"')
    requires forall i :: 0 <= i < |ls| ==> LetterFits(ls[i], quote, r)
    ensures var end := if backslash then "\\" else [];
            Unquote(PosixText(ps) + (if quote.In? then [quote.mark] else []) + LettersText(ls) + end, r, false)
            == Piece(PosixValue(ps) + LettersValue(ls) + end, [])
  {
    hide UnquotePosix, PosixFits, LettersText, LettersValue, PosixText, PosixValue, LetterFits, Put;
    var end := if backslash then "\\" else [];
    var open := if quote.In? then [quote.mark] else [];
    var inner := LettersText(ls) + end;
    assert PosixText(ps) + open + LettersText(ls) + end == PosixText(ps) + (open + inner);
    PosixWordReads(ps, open + inner, r);
    if quote.In? {
      MarkReads(quote.mark, NoQuote, inner, r);
    } else {
      assert open + inner == inner;
    }
    LettersRead(ls, quote, end, r);
    LastReads(backslash, quote, r);
    PutBefore(LettersValue(ls), end, []);
    PutBefore(PosixValue(ps), LettersValue(ls) + end, []);
    assert PosixValue(ps) + (LettersValue(ls) + end) == PosixValue(ps) + LettersValue(ls) + end;
  }

  lemma LastReads(backslash: bool, quote: Quote, r: Reading)
    requires IsPosix(r) && (quote.In? ==> quote.mark != '\\')
    ensures var end := if backslash then "\\" else []; UnquotePosix(end, r, quote) == Piece(end, [])
  {
    assert UnquotePosix([], r, quote) == Piece([], []);
    if backslash { assert "\\"[1..] == [] && UnquotePosix("\\", r, quote) == Put("\\", Piece([], [])); }
  }

  lemma PosixWordStarts(ps: seq<PosixPart>, r: Reading)
    requires ps != [] && PosixFits(ps, r)
    ensures PosixText(ps) != [] && !Parts(r, PosixText(ps)[0])
  {
    assert PosixPartFits(ps[0], r);
    var first := PosixPartText(ps[0]);
    if ps[0].Outside? {
      assert LetterFits(ps[0].letters[0], NoQuote, r);
      assert first[0] == LetterText(ps[0].letters[0])[0];
    }
    assert PosixText(ps)[0] == first[0];
  }

  // ---------- whole lines ----------

  datatype Word = WindowsWord(windows: seq<WindowsPart>) | PosixWord(posix: seq<PosixPart>)

  predicate WordFits(w: Word, r: Reading) {
    match w
    case WindowsWord(ps) => !IsPosix(r) && ps != [] && WindowsFits(ps, r)
    case PosixWord(ps) => IsPosix(r) && ps != [] && PosixFits(ps, r)
  }

  function WordText(w: Word): string { if w.WindowsWord? then WindowsText(w.windows) else PosixText(w.posix) }

  function WordValue(w: Word): string { if w.WindowsWord? then WindowsValue(w.windows) else PosixValue(w.posix) }

  lemma WordReads(w: Word, tail: string, r: Reading)
    requires WordFits(w, r) && Ends(r, tail)
    ensures Unquote(WordText(w) + tail, r, false) == Piece(WordValue(w), tail)
    ensures WordText(w) != [] && !Separates(r, WordText(w)[0])
  {
    hide UnquoteWindows, UnquotePosix, WindowsText, PosixText, WindowsValue, PosixValue, Parts, Separates,
      PosixFits, WindowsFits;
    match w {
      case WindowsWord(ps) =>
        WindowsWordReads(ps, tail, r);
        WindowsWordStarts(ps, r);
      case PosixWord(ps) =>
        PosixWordReads(ps, tail, r);
        PosixWordStarts(ps, r);
        PosixEnds(tail, r, NoQuote, PosixValue(ps));
    }
    PartsSeparate(r, WordText(w)[0]);
  }

  predicate Gap(s: string, r: Reading) { forall i :: 0 <= i < |s| ==> Parts(r, s[i]) }

  /** A line: each word with the gap after it. */
  type Line = seq<(Word, string)>

  /** Every word fits, and a gap follows each but the last, which may end the line. */
  predicate LineFits(line: Line, r: Reading) {
    forall i :: 0 <= i < |line| ==>
      WordFits(line[i].0, r) && Gap(line[i].1, r) && (i < |line| - 1 ==> line[i].1 != [])
  }

  function LineText(line: Line): string {
    if line == [] then [] else WordText(line[0].0) + line[0].1 + LineText(line[1..])
  }

  function LineValues(line: Line): seq<string> {
    if line == [] then [] else [WordValue(line[0].0)] + LineValues(line[1..])
  }

  lemma {:induction false} GapIsSkipped(gap: string, s: string, r: Reading)
    requires Gap(gap, r) && (s == [] || !Separates(r, s[0]))
    ensures SkipSeparators(gap + s, r) == s
  {
    hide Separates, Parts;
    if gap == [] {
      assert gap + s == s;
      SkipNone(s, r);
    } else {
      PartsSeparate(r, gap[0]);
      assert (gap + s)[1..] == gap[1..] + s;
      GapIsSkipped(gap[1..], s, r);
    }
  }

  lemma GapEnds(gap: string, s: string, r: Reading)
    requires Gap(gap, r) && (gap == [] ==> s == [])
    ensures Ends(r, gap + s)
  {
    hide Separates, Parts;
    if gap != [] { PartsSeparate(r, gap[0]); }
  }

  lemma LineTextStarts(line: Line, r: Reading)
    requires LineFits(line, r)
    ensures line == [] <==> LineText(line) == []
    ensures line != [] ==> !Separates(r, LineText(line)[0])
  {
    hide WordFits, WordText, Separates, Gap;
    if line != [] {
      WordReads(line[0].0, [], r);
      assert LineText(line)[0] == WordText(line[0].0)[0];
    }
  }

  /** Splitting any line of words, a gap before them too, gives what the words stand for. */
  lemma {:induction false} LineReads(gap: string, line: Line, r: Reading)
    requires Gap(gap, r) && LineFits(line, r)
    ensures SplitAll(gap + LineText(line), r, false) == LineValues(line)
    decreases |line|
  {
    hide Unquote, SplitAll, WordFits, WordText, WordValue, Separates, Gap, SkipSeparators;
    var t := LineText(line);
    LineTextStarts(line, r);
    GapIsSkipped(gap, t, r);
    SplitStep(gap + t, r, false, t);
    if line != [] {
      var word, after, rest := line[0].0, line[0].1, line[1..];
      LineTextStarts(rest, r);
      GapEnds(after, LineText(rest), r);
      WordReads(word, after + LineText(rest), r);
      assert t == WordText(word) + (after + LineText(rest));
      LineReads(after, rest, r);
    }
  }

  /** A Windows line starts with the program, which is empty when a blank comes first. */
  lemma CommandLineReads(program: seq<ProgramPart>, gap: string, line: Line)
    requires ProgramFits(program) && Gap(gap, Windows) && LineFits(line, Windows)
    requires (gap == [] ==> line == []) && ProgramText(program) + gap != []
    ensures SplitAll(ProgramText(program) + gap + LineText(line), Windows, true)
            == [ProgramValue(program)] + LineValues(line)
  {
    hide UnquoteWindows, SplitAll, LineFits, ProgramFits, Gap, LineText, LineValues, ProgramText, ProgramValue;
    var tail := gap + LineText(line);
    var whole := ProgramText(program) + gap + LineText(line);
    assert whole == ProgramText(program) + tail;
    LineTextStarts(line, Windows);
    GapEnds(gap, LineText(line), Windows);
    ProgramWordReads(program, tail);
    SplitStep(whole, Windows, true, whole);
    LineReads(gap, line, Windows);
  }
}
