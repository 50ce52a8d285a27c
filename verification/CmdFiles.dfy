/** What response files stand for, by the texts they hold. */
module CmdFiles {
  import opened CmdSpec
  import opened CmdSplit
  import opened CmdJoin
  import opened CmdWords
  import opened CmdExpand

  /** Expanding a list expands each of its arguments on its own. */
  lemma {:induction false} ExpandConcat(a: seq<string>, b: seq<string>, depth: nat, q: Quoting, load: Load)
    ensures Expand(a + b, depth, q, load) == Expand(a, depth, q, load) + Expand(b, depth, q, load)
    decreases |a|
  {
    hide Expand, First, Moves, FirstMoves;
    if a == [] {
      assert a + b == b;
      ExpandNothing(depth, q, load);
    } else {
      ExpandIs(a, depth, q, load);
      ExpandIs(a + b, depth, q, load);
      assert (a + b)[1..] == a[1..] + b;
      ExpandConcat(a[1..], b, depth, q, load);
    }
  }

  lemma ExpandNothing(depth: nat, q: Quoting, load: Load)
    ensures Expand([], depth, q, load) == []
  {
  }

  lemma ExpandOne(argument: string, depth: nat, q: Quoting, load: Load)
    ensures Expand([argument], depth, q, load) == First(argument, depth, q, load)
  {
    hide Expand, First;
    ExpandIs([argument], depth, q, load);
    assert [argument][1..] == [];
    ExpandNothing(depth, q, load);
  }

  /** What stays as written: an argument that names no file, one whose file cannot be read,
      and every one met inside eight files. */
  lemma StaysAsWritten(argument: string, depth: nat, q: Quoting, load: Load)
    requires !StartsWith(argument, '@') || load(argument[1..]).Unread? || depth >= 8
    ensures Expand([argument], depth, q, load) == [argument]
  {
    hide Expand, SplitAll;
    ExpandOne(argument, depth, q, load);
  }

  lemma {:induction false} NoneIsAFile(arguments: seq<string>, depth: nat, q: Quoting, load: Load)
    requires forall i :: 0 <= i < |arguments| ==> !StartsWith(arguments[i], '@')
    ensures Expand(arguments, depth, q, load) == arguments
  {
    hide Expand, Include;
    if arguments == [] {
      ExpandNothing(depth, q, load);
    } else {
      StaysAsWritten(arguments[0], depth, q, load);
      NoneIsAFile(arguments[1..], depth, q, load);
      assert arguments == [arguments[0]] + arguments[1..];
      ExpandConcat([arguments[0]], arguments[1..], depth, q, load);
    }
  }

  /** A file of words stands for what they stand for, met one file deeper. */
  lemma FileReads(name: string, gap: string, line: Line, depth: nat, q: Quoting, load: Load)
    requires depth < 8 && load(name) == Text(gap + LineText(line))
    requires q == WindowsQuoting ==> Gap(gap, WindowsFile) && LineFits(line, WindowsFile)
    requires q == PosixQuoting ==> Gap(gap, PosixFile) && LineFits(line, PosixFile)
    ensures Expand(["@" + name], depth, q, load) == Expand(LineValues(line), depth + 1, q, load)
  {
    hide Expand, SplitAll, LineFits, Gap, LineText, LineValues;
    var argument := "@" + name;
    assert argument[1..] == name;
    ExpandOne(argument, depth, q, load);
    IncludeIs(argument, depth, q, load);
    LineReads(gap, line, if q == WindowsQuoting then WindowsFile else PosixFile);
  }

  // ---------- files written argument by argument ----------

  /** An argument as join() writes it after the program. */
  function WriteArgument(s: string, q: Quoting): string {
    if q == PosixQuoting then PosixArgument(s) else WindowsArgument(s)
  }

  /** The arguments, each with the line end or other blanks after it. */
  function FileText(arguments: seq<string>, ends: seq<string>, q: Quoting): string
    requires |arguments| == |ends|
  {
    if arguments == [] then []
    else WriteArgument(arguments[0], q) + ends[0] + FileText(arguments[1..], ends[1..], q)
  }

  /** What may follow an argument in a file. */
  predicate BlankEnd(s: string, q: Quoting) {
    && s != []
    && forall i :: 0 <= i < |s| ==>
      s[i] == '\n' || s[i] == '\r' || s[i] == ' ' || s[i] == '\t' || (q == WindowsQuoting && s[i] == '\0')
  }

  /** What a Windows file can hold bare: no carriage return and no NUL, which end it there. */
  predicate SafeInFile(s: string, q: Quoting) {
    q == WindowsQuoting && PlainWindows(s) ==> '\r' !in s && '\0' !in s
  }

  function PosixLetter(c: char): PosixPart {
    if c == '\n' then Within('\'', [AsIs(c)])
    else if PlainPosix(c) then Outside([AsIs(c)])
    else Outside([Behind(c)])
  }

  function PosixLetters(s: string): seq<PosixPart> {
    if s == [] then [] else [PosixLetter(s[0])] + PosixLetters(s[1..])
  }

  function WordOf(s: string, q: Quoting): Word {
    if q == PosixQuoting then PosixWord(if s == [] then [Within('\'', [])] else PosixLetters(s))
    else WindowsWord(if PlainWindows(s) then [Plain(s)] else [Escaped(s)])
  }

  lemma PosixLetterIs(c: char)
    ensures PosixPartText(PosixLetter(c)) == PosixCharacter(c)
    ensures LettersValue(PosixLetter(c).letters) == [c]
    ensures PosixPartFits(PosixLetter(c), PosixFile)
  {
    var ls := PosixLetter(c).letters;
    assert ls[1..] == [] && LettersText([]) == [];
    assert LettersText(ls) == LetterText(ls[0]);
  }

  lemma {:induction false} PosixLettersAre(s: string)
    ensures PosixText(PosixLetters(s)) == PosixBody(s) && PosixValue(PosixLetters(s)) == s
    ensures PosixFits(PosixLetters(s), PosixFile)
  {
    hide PosixLetter, PosixCharacter, PosixPartText, PosixPartFits, LettersValue;
    if s != [] {
      PosixLetterIs(s[0]);
      PosixLettersAre(s[1..]);
      assert s == [s[0]] + s[1..];
    }
  }

  lemma PosixWordIs(s: string)
    ensures var w := WordOf(s, PosixQuoting);
            WordText(w) == PosixArgument(s) && WordValue(w) == s && WordFits(w, PosixFile)
  {
    hide PosixFits, PosixBody;
    if s == [] {
      var ps := [Within('\'', [])];
      assert PosixText(ps) == "''" && PosixValue(ps) == [];
      assert PosixFits(ps, PosixFile) by { NoLetters(); }
    } else {
      PosixLettersAre(s);
    }
  }

  lemma NoLetters()
    ensures PosixFits([Within('\'', [])], PosixFile)
  {
  }

  lemma WindowsWordIs(s: string)
    requires SafeInFile(s, WindowsQuoting)
    ensures var w := WordOf(s, WindowsQuoting);
            WordText(w) == WindowsArgument(s) && WordValue(w) == s && WordFits(w, WindowsFile)
  {
    hide WindowsBody;
    var ps := WordOf(s, WindowsQuoting).windows;
    assert ps[1..] == [] && WindowsText([]) == [] && WindowsValue([]) == [];
    assert WindowsText(ps) == WindowsPartText(ps[0]) + [];
    assert WindowsValue(ps) == WindowsPartValue(ps[0]) + [];
    if PlainWindows(s) {
      forall i | 0 <= i < |s| ensures !Parts(WindowsFile, s[i]) && s[i] != '"' {
        assert s[i] !in QUOTED_IN_WINDOWS;
      }
    }
    assert WindowsPartFits(ps[0], WindowsText(ps[1..]), WindowsFile) && WindowsFits(ps[1..], WindowsFile);
  }

  function LineOf(arguments: seq<string>, ends: seq<string>, q: Quoting): Line
    requires |arguments| == |ends|
  {
    if arguments == [] then [] else [(WordOf(arguments[0], q), ends[0])] + LineOf(arguments[1..], ends[1..], q)
  }

  lemma {:induction false} LineOfFits(arguments: seq<string>, ends: seq<string>, q: Quoting, r: Reading)
    requires |arguments| == |ends| && r == (if q == WindowsQuoting then WindowsFile else PosixFile)
    requires forall i :: 0 <= i < |arguments| ==> SafeInFile(arguments[i], q) && BlankEnd(ends[i], q)
    ensures var line := LineOf(arguments, ends, q);
            LineFits(line, r) && LineText(line) == FileText(arguments, ends, q) && LineValues(line) == arguments
  {
    hide WordOf, WordText, WordValue, WordFits, SafeInFile, PosixArgument, WindowsArgument, Gap, BlankEnd;
    if arguments != [] {
      if q == PosixQuoting { PosixWordIs(arguments[0]); } else { WindowsWordIs(arguments[0]); }
      BlankIsGap(ends[0], q);
      LineOfFits(arguments[1..], ends[1..], q, r);
      assert arguments == [arguments[0]] + arguments[1..];
    }
  }

  lemma BlankIsGap(s: string, q: Quoting)
    requires BlankEnd(s, q)
    ensures s != [] && Gap(s, if q == WindowsQuoting then WindowsFile else PosixFile)
  {
  }

  /** A file somebody wrote: any list of arguments, each as join() writes it and with a line
      end after it, comes back when the file is named, for either quoting. */
  lemma WrittenFileReads(name: string, arguments: seq<string>, ends: seq<string>, q: Quoting, load: Load)
    requires |arguments| == |ends|
    requires forall i :: 0 <= i < |arguments| ==>
      !StartsWith(arguments[i], '@') && SafeInFile(arguments[i], q) && BlankEnd(ends[i], q)
    requires load(name) == Text(FileText(arguments, ends, q))
    ensures Expand(["@" + name], 0, q, load) == arguments
  {
    hide Expand, SafeInFile, BlankEnd, LineFits, LineText, LineValues, FileText, StartsWith;
    var r := if q == WindowsQuoting then WindowsFile else PosixFile;
    var line := LineOf(arguments, ends, q);
    LineOfFits(arguments, ends, q, r);
    assert [] + LineText(line) == LineText(line);
    FileReads(name, [], line, 0, q, load);
    NoneIsAFile(arguments, 1, q, load);
  }

  /** Between single quotes a backslash escapes in a POSIX file, and is a character on a
      POSIX line. */
  lemma EscapeBetweenSingleQuotes(c: char, name: string, load: Load)
    requires c != '\'' && c != '@' && load(name) == Text(['\'', '\\', c, '\''])
    ensures Expand(["@" + name], 0, PosixQuoting, load) == [[c]]
    ensures SplitAll(['\'', '\\', c, '\''], Posix, false) == [['\\', c]]
  {
    hide Expand, SplitAll, LineFits, LineText, LineValues, StartsWith;
    var text := ['\'', '\\', c, '\''];
    var file, line := [Behind(c)], [AsIs('\\'), AsIs(c)];
    assert line[1..] == [AsIs(c)] && file[1..] == line[1..][1..] == [];
    assert LettersText(line[1..]) == [c] + LettersText([]) && LettersValue(line[1..]) == [c] + LettersValue([]);
    OneQuoted(file, text, [c], PosixFile);
    OneQuoted(line, text, ['\\', c], Posix);
    assert [] + text == text;
    FileReads(name, [], [(PosixWord([Within('\'', file)]), "")], 0, PosixQuoting, load);
    NoneIsAFile([[c]], 1, PosixQuoting, load) by { assert !StartsWith([c], '@') by { NotAt(c); } }
    LineReads([], [(PosixWord([Within('\'', line)]), "")], Posix);
  }

  lemma NotAt(c: char)
    requires c != '@'
    ensures !StartsWith([c], '@')
  {
  }

  lemma OneQuoted(ls: seq<Letter>, text: string, value: string, r: Reading)
    requires IsPosix(r) && forall i :: 0 <= i < |ls| ==> LetterFits(ls[i], In('\''), r)
    requires text == ['\''] + LettersText(ls) + ['\''] && value == LettersValue(ls)
    ensures var line := [(PosixWord([Within('\'', ls)]), "")];
            LineFits(line, r) && LineText(line) == text && LineValues(line) == [value]
  {
    hide LettersText, LettersValue, LetterFits;
    var p := Within('\'', ls);
    assert PosixPartText(p) == text;
    var w := PosixWord([p]);
    OnePart(p, r);
    OneWord(w, r);
  }

  lemma OnePart(p: PosixPart, r: Reading)
    requires IsPosix(r) && PosixPartFits(p, r)
    ensures var w := PosixWord([p]);
            WordFits(w, r) && WordText(w) == PosixPartText(p) && WordValue(w) == LettersValue(p.letters)
  {
    hide PosixPartFits, PosixPartText, LettersValue;
    var ps := [p];
    assert ps[1..] == [] && PosixText([]) == [] && PosixValue([]) == [];
    assert PosixText(ps) == PosixPartText(p) + [] && PosixValue(ps) == LettersValue(p.letters) + [];
  }

  lemma OneWord(w: Word, r: Reading)
    requires WordFits(w, r)
    ensures var line := [(w, "")];
            LineFits(line, r) && LineText(line) == WordText(w) && LineValues(line) == [WordValue(w)]
  {
    hide WordFits, WordText, WordValue;
    var line := [(w, "")];
    assert line[1..] == [] && LineText([]) == [] && LineValues([]) == [];
    assert LineText(line) == WordText(w) + "" + [];
  }

  // ---------- the depth ----------

  function As(n: nat): string { seq(n, _ => 'a') }

  /** Every file names the one whose name is longer by a letter. */
  ghost predicate NamesTheLonger(load: Load) { forall n :: load(n) == Text("@" + n + "a") }

  lemma FileOfLonger(n: nat, q: Quoting)
    ensures var line := [(if q == WindowsQuoting then WindowsWord([Plain("@" + As(n) + "a")])
                          else PosixWord(PosixLetters("@" + As(n) + "a")), "")];
            && LineText(line) == "@" + As(n) + "a" && LineValues(line) == ["@" + As(n + 1)]
            && LineFits(line, if q == WindowsQuoting then WindowsFile else PosixFile)
  {
    hide SafeInFile, WordText, WordValue, WordFits;
    var s := "@" + As(n) + "a";
    assert s == "@" + As(n + 1);
    var w := WordOf(s, q);
    if q == WindowsQuoting {
      assert PlainWindows(s);
      assert SafeInFile(s, q) by { NoReturn(n); }
      WindowsWordIs(s);
    } else {
      PosixWordIs(s);
      PlainBody(s);
    }
    OneWord(w, if q == WindowsQuoting then WindowsFile else PosixFile);
  }

  lemma NoReturn(n: nat)
    ensures SafeInFile("@" + As(n) + "a", WindowsQuoting)
  {
  }

  lemma {:induction false} PlainBody(s: string)
    requires forall i :: 0 <= i < |s| ==> s[i] == '@' || s[i] == 'a'
    ensures PosixBody(s) == s
  {
    if s != [] {
      PlainBody(s[1..]);
      assert s == [s[0]] + s[1..];
    }
  }

  lemma {:induction false} GoesDown(n: nat, depth: nat, q: Quoting, load: Load)
    requires NamesTheLonger(load) && depth <= 8
    ensures Expand(["@" + As(n)], depth, q, load) == ["@" + As(n + 8 - depth)]
    decreases 8 - depth
  {
    hide Expand, LineFits, LineText, LineValues, As;
    if depth == 8 {
      StaysAsWritten("@" + As(n), depth, q, load);
    } else {
      FileOfLonger(n, q);
      var line := [(if q == WindowsQuoting then WindowsWord([Plain("@" + As(n) + "a")])
                    else PosixWord(PosixLetters("@" + As(n) + "a")), "")];
      assert [] + LineText(line) == LineText(line);
      NoGap(if q == WindowsQuoting then WindowsFile else PosixFile);
      FileReads(As(n), [], line, depth, q, load);
      GoesDown(n + 1, depth + 1, q, load);
    }
  }

  lemma NoGap(r: Reading)
    ensures Gap([], r)
  {
  }

  /** Files are read eight deep, and no deeper. */
  lemma EightDeep(q: Quoting, load: Load)
    requires NamesTheLonger(load)
    ensures Expand(["@"], 0, q, load) == ["@aaaaaaaa"]
  {
    hide Expand;
    GoesDown(0, 0, q, load);
    assert "@" + As(0) == "@" && "@" + As(8) == "@aaaaaaaa";
  }
}
