/** Writing a command line, and the proof that splitting it gives the arguments back. */
module CmdJoin {
  import opened CmdSpec
  import opened CmdSplit

  datatype Quoting = WindowsQuoting | PosixQuoting

  // ---------- what is written ----------

  predicate Holds(s: string, cs: set<char>) { exists i :: 0 <= i < |s| && s[i] in cs }

  function WindowsProgram(program: string): string {
    if program == [] || Holds(program, {' ', '\t'}) then "\"" + program + "\"" else program
  }

  /** `n` backslashes as written before `c`. */
  function Run(n: nat, c: char): string { if c == '"' then Backslashes(2 * n + 1) else Backslashes(n) }

  /** The inside of a quoted Windows argument: backslashes before a quote double and one
      more escapes it, those at the end double, others stay. */
  function WindowsBody(s: string): string
    decreases |s|
  {
    if s == [] then []
    else
      var n := LeadRun(s);
      if n == |s| then Backslashes(2 * n)
      else Run(n, s[n]) + [s[n]] + WindowsBody(s[n + 1..])
  }

  const QUOTED_IN_WINDOWS := {' ', '\t', '\n', 11 as char, '"'}

  predicate PlainWindows(s: string) { s != [] && !Holds(s, QUOTED_IN_WINDOWS) }

  function WindowsArgument(s: string): string {
    if PlainWindows(s) then s else "\"" + WindowsBody(s) + "\""
  }

  predicate PlainPosix(c: char) {
    c >= 0x80 as char || 'a' <= c <= 'z' || 'A' <= c <= 'Z' || '0' <= c <= '9' || c in "@%+=:,./_-"
  }

  function PosixCharacter(c: char): string {
    if c == '\n' then "'\n'" else if PlainPosix(c) then [c] else ['\\', c]
  }

  function PosixBody(s: string): string {
    if s == [] then [] else PosixCharacter(s[0]) + PosixBody(s[1..])
  }

  function PosixArgument(s: string): string { if s == [] then "''" else PosixBody(s) }

  function Written(s: string, first: bool, q: Quoting): string {
    if q.PosixQuoting? then PosixArgument(s) else if first then WindowsProgram(s) else WindowsArgument(s)
  }

  /** The arguments written, a space before each but the first of the line. */
  function JoinFrom(arguments: seq<string>, first: bool, q: Quoting): string {
    if arguments == [] then []
    else (if first then [] else " ") + Written(arguments[0], first, q) + JoinFrom(arguments[1..], false, q)
  }

  // ---------- the loops that write it ----------

  method PutBackslashes(out: string, count: nat) returns (r: string)
    ensures r == out + Backslashes(count)
  {
    r := out;
    for i := 0 to count
      invariant r == out + Backslashes(i)
    {
      assert Backslashes(i + 1) == Backslashes(i) + "\\";
      r := r + "\\";
    }
  }

  lemma BodyOfRun(k: nat, c: char, s: string)
    requires c != '\\'
    ensures WindowsBody(Backslashes(k) + [c] + s) ==
            Backslashes(if c == '"' then 2 * k + 1 else k) + [c] + WindowsBody(s)
  {
    var t := Backslashes(k) + [c] + s;
    RunThen(k, [c] + s);
    assert t == Backslashes(k) + ([c] + s);
    assert t[k] == c && t[k + 1..] == s;
  }

  lemma {:induction false} RunThen(k: nat, s: string)
    requires s == [] || s[0] != '\\'
    ensures LeadRun(Backslashes(k) + s) == k
  {
    var t := Backslashes(k) + s;
    if k == 0 {
      assert t == s;
    } else {
      assert t[1..] == Backslashes(k - 1) + s;
      RunThen(k - 1, s);
    }
  }

  lemma BodyOfEnd(k: nat)
    ensures WindowsBody(Backslashes(k)) == Backslashes(2 * k)
  {
    assert Backslashes(k) + [] == Backslashes(k);
    RunThen(k, []);
  }

  method AppendWindows(out: string, argument: string) returns (r: string)
    ensures r == out + WindowsArgument(argument)
  {
    hide WindowsBody, Backslashes;
    if PlainWindows(argument) {
      return out + argument;
    }
    r := out + "\"";
    var backslashes: nat := 0;
    ghost var whole := r + WindowsBody(argument);
    NoRun(argument);
    assert argument[0..] == argument;
    for i := 0 to |argument|
      invariant whole == r + WindowsBody(Backslashes(backslashes) + argument[i..])
    {
      var c := argument[i];
      assert argument[i..] == [c] + argument[i + 1..];
      if c == '\\' {
        LongerRun(backslashes, argument[i + 1..]);
        backslashes := backslashes + 1;
      } else {
        WriteRun(r, backslashes, c, argument[i + 1..]);
        r := PutBackslashes(r, if c == '"' then backslashes * 2 + 1 else backslashes);
        backslashes := 0;
        r := r + [c];
        NoRun(argument[i + 1..]);
      }
    }
    WriteLast(r, backslashes, argument[|argument|..]);
    r := PutBackslashes(r, backslashes * 2);
    r := r + "\"";
    assert r == whole + "\"";
    assert out + "\"" + WindowsBody(argument) + "\"" == out + ("\"" + WindowsBody(argument) + "\"");
  }

  lemma NoRun(s: string)
    ensures Backslashes(0) + s == s
  {
  }

  lemma LongerRun(k: nat, s: string)
    ensures Backslashes(k) + (['\\'] + s) == Backslashes(k + 1) + s
  {
  }

  lemma WriteRun(r: string, k: nat, c: char, s: string)
    requires c != '\\'
    ensures r + WindowsBody(Backslashes(k) + ([c] + s)) ==
            r + Backslashes(if c == '"' then k * 2 + 1 else k) + [c] + WindowsBody(s)
  {
    hide WindowsBody, Backslashes;
    assert Backslashes(k) + ([c] + s) == Backslashes(k) + [c] + s;
    BodyOfRun(k, c, s);
    var written := Backslashes(if c == '"' then k * 2 + 1 else k);
    assert r + (written + [c] + WindowsBody(s)) == r + written + [c] + WindowsBody(s);
  }

  lemma WriteLast(r: string, k: nat, none: string)
    requires none == []
    ensures r + WindowsBody(Backslashes(k) + none) == r + Backslashes(k * 2)
  {
    assert Backslashes(k) + none == Backslashes(k);
    BodyOfEnd(k);
  }

  method AppendPosix(out: string, argument: string) returns (r: string)
    ensures r == out + PosixArgument(argument)
  {
    if argument == [] {
      return out + "''";
    }
    hide PosixBody;
    r := out;
    assert argument[0..] == argument;
    for i := 0 to |argument|
      invariant out + PosixBody(argument) == r + PosixBody(argument[i..])
    {
      var c := argument[i];
      PosixMore(r, argument[i..]);
      assert argument[i..][1..] == argument[i + 1..];
      if c == '\n' {
        r := r + "'\n'";
        continue;
      }
      ghost var before := r;
      if !PlainPosix(c) {
        r := r + "\\";
      }
      r := r + [c];
      assert r == before + PosixCharacter(c);
    }
    PosixNone();
  }

  lemma PosixMore(r: string, s: string)
    requires s != []
    ensures r + PosixBody(s) == r + PosixCharacter(s[0]) + PosixBody(s[1..])
  {
    hide PosixCharacter;
  }

  lemma PosixNone()
    ensures PosixBody([]) == []
  {
  }

  lemma JoinMore(out: string, arguments: seq<string>, first: bool, q: Quoting)
    requires arguments != []
    ensures out + JoinFrom(arguments, first, q) ==
            out + (if first then [] else " ") + Written(arguments[0], first, q) + JoinFrom(arguments[1..], false, q)
  {
    hide Written;
  }

  lemma JoinNone(q: Quoting)
    ensures JoinFrom([], true, q) == JoinFrom([], false, q) == []
  {
  }

  method Join(arguments: seq<string>, q: Quoting) returns (out: string)
    ensures out == JoinFrom(arguments, true, q)
  {
    hide WindowsProgram, WindowsArgument, PosixArgument, JoinFrom;
    out := [];
    assert arguments[0..] == arguments;
    for i := 0 to |arguments|
      invariant JoinFrom(arguments, true, q) == out + JoinFrom(arguments[i..], i == 0, q)
    {
      JoinMore(out, arguments[i..], i == 0, q);
      assert arguments[i..][1..] == arguments[i + 1..];
      if i != 0 {
        out := out + " ";
      }
      if q == PosixQuoting {
        out := AppendPosix(out, arguments[i]);
      } else if i == 0 {
        out := out + WindowsProgram(arguments[i]);
      } else {
        out := AppendWindows(out, arguments[i]);
      }
    }
    assert arguments[|arguments|..] == [] && out + [] == out;
    JoinNone(q);
  }

  // ---------- POSIX round trip ----------

  /** An argument may end before `tail`. */
  predicate Ends(r: Reading, tail: string) { tail == [] || Separates(r, tail[0]) }

  lemma PosixCharacterReads(c: char, tail: string, r: Reading)
    requires IsPosix(r)
    ensures UnquotePosix(PosixCharacter(c) + tail, r, NoQuote) == Put([c], UnquotePosix(tail, r, NoQuote))
  {
    hide Put, UnquotePosix;
    var s := PosixCharacter(c) + tail;
    assert s[0..] == s;
    PosixStep(s, r, 0, NoQuote);
    if c == '\n' {
      assert s[0] == '\'' && s[1] == '\n' && s[2] == '\'' && s[3..] == tail;
      PosixStep(s, r, 1, In('\''));
      PosixStep(s, r, 2, In('\''));
    } else if PlainPosix(c) {
      assert s[0] == c && s[1..] == tail;
    } else {
      assert s[0] == '\\' && s[1] == c && s[2..] == tail;
    }
  }

  lemma {:induction false} PosixBodyReads(s: string, tail: string, r: Reading)
    requires IsPosix(r) && Ends(r, tail)
    ensures UnquotePosix(PosixBody(s) + tail, r, NoQuote) == Piece(s, tail)
  {
    hide PosixCharacter, UnquotePosix;
    if s == [] {
      assert PosixBody(s) + tail == tail;
      PosixEnds(tail, r, NoQuote, []);
      PutNothing(UnquotePosix(tail, r, NoQuote));
    } else {
      assert PosixBody(s) + tail == PosixCharacter(s[0]) + (PosixBody(s[1..]) + tail);
      PosixCharacterReads(s[0], PosixBody(s[1..]) + tail, r);
      PosixBodyReads(s[1..], tail, r);
      assert [s[0]] + s[1..] == s;
    }
  }

  lemma PosixBodyStarts(s: string, r: Reading)
    requires s != [] && IsPosix(r)
    ensures PosixBody(s) != [] && !Separates(r, PosixBody(s)[0])
  {
    assert PosixBody(s)[0] == PosixCharacter(s[0])[0];
  }

  lemma PosixArgumentReads(s: string, tail: string, r: Reading)
    requires IsPosix(r) && Ends(r, tail)
    ensures Unquote(PosixArgument(s) + tail, r, false) == Piece(s, tail)
    ensures PosixArgument(s) != [] && !Separates(r, PosixArgument(s)[0])
  {
    hide UnquotePosix;
    if s == [] {
      var t := PosixArgument(s) + tail;
      assert t[0..] == t && t[0] == '\'' && t[1] == '\'' && t[2..] == tail;
      PosixStep(t, r, 0, NoQuote);
      PosixStep(t, r, 1, In('\''));
      PosixEnds(tail, r, NoQuote, []);
      PutNothing(UnquotePosix(tail, r, NoQuote));
    } else {
      PosixBodyReads(s, tail, r);
      PosixBodyStarts(s, r);
    }
  }

  // ---------- Windows round trip ----------

  lemma {:induction false} ProgramReads(s: string, tail: string, quoted: bool)
    requires '"' !in s && (quoted || Solid(Windows, s))
    ensures UnquoteWindows(s + tail, Windows, true, quoted) == Put(s, UnquoteWindows(tail, Windows, true, quoted))
  {
    hide Put;
    if s == [] {
      assert s + tail == tail;
      PutNothing(UnquoteWindows(tail, Windows, true, quoted));
    } else {
      assert (s + tail)[1..] == s[1..] + tail && (s + tail)[0] == s[0];
      ProgramReads(s[1..], tail, quoted);
      PutPut([s[0]], s[1..], UnquoteWindows(tail, Windows, true, quoted));
      assert [s[0]] + s[1..] == s;
    }
  }

  lemma QuotedProgramReads(s: string, tail: string)
    requires '"' !in s
    ensures UnquoteWindows("\"" + s + "\"" + tail, Windows, true, false)
            == Put(s, UnquoteWindows(tail, Windows, true, false))
  {
    hide UnquoteWindows, Put;
    var inner := s + ("\"" + tail);
    assert "\"" + s + "\"" + tail == "\"" + inner;
    OpenQuote(inner, Windows, true);
    ProgramReads(s, "\"" + tail, true);
    CloseQuote(tail, Windows, true);
  }

  lemma WindowsProgramReads(s: string, tail: string)
    requires '"' !in s && Ends(Windows, tail)
    ensures Unquote(WindowsProgram(s) + tail, Windows, true) == Piece(s, tail)
    ensures WindowsProgram(s) != []
  {
    hide UnquoteWindows, Put;
    if s == [] || Holds(s, {' ', '\t'}) {
      QuotedProgramReads(s, tail);
    } else {
      ProgramReads(s, tail, false);
    }
    WindowsEnds(tail, Windows, true, false, s);
  }

  lemma OpenQuote(inner: string, r: Reading, program: bool)
    ensures UnquoteWindows("\"" + inner, r, program, false) == UnquoteWindows(inner, r, program, true)
  {
    assert ("\"" + inner)[1..] == inner;
  }

  lemma CloseQuote(tail: string, r: Reading, program: bool)
    requires program || tail == [] || tail[0] != '"'
    ensures UnquoteWindows("\"" + tail, r, program, true) == UnquoteWindows(tail, r, program, false)
  {
    assert ("\"" + tail)[1..] == tail;
    if tail != [] { assert ("\"" + tail)[1] == tail[0]; }
  }

  /** A run of backslashes, by what comes after it. */
  lemma RunReads(n: nat, s: string, r: Reading, quoted: bool)
    requires n > 0 && (s == [] || s[0] != '\\')
    ensures s == [] || s[0] != '"' ==>
              UnquoteWindows(Backslashes(n) + s, r, false, quoted) ==
              Put(Backslashes(n), UnquoteWindows(s, r, false, quoted))
    ensures s != [] && s[0] == '"' && n % 2 == 0 ==>
              UnquoteWindows(Backslashes(n) + s, r, false, quoted) ==
              Put(Backslashes(n / 2), UnquoteWindows(s, r, false, quoted))
    ensures s != [] && s[0] == '"' && n % 2 == 1 ==>
              UnquoteWindows(Backslashes(n) + s, r, false, quoted) ==
              Put(Backslashes(n / 2) + "\"", UnquoteWindows(s[1..], r, false, quoted))
  {
    hide Put;
    var t := Backslashes(n) + s;
    RunThen(n, s);
    assert t[0] == '\\' && t[n..] == s;
    if s != [] { assert t[n] == s[0] && t[n + 1..] == s[1..]; }
  }

  lemma CharacterReads(c: char, s: string, r: Reading, quoted: bool)
    requires c != '\\' && c != '"' && (quoted || !Separates(r, c))
    ensures UnquoteWindows([c] + s, r, false, quoted) == Put([c], UnquoteWindows(s, r, false, quoted))
  {
    hide Put;
    assert ([c] + s)[1..] == s;
  }

  /** What the quotes hold, the closing one and the line after it. */
  function Closed(s: string, tail: string): string { WindowsBody(s) + ("\"" + tail) }

  lemma BodyUnfolds(s: string, n: nat)
    requires n == LeadRun(s) < |s|
    ensures WindowsBody(s) == Run(n, s[n]) + [s[n]] + WindowsBody(s[n + 1..])
  {
    hide LeadRun, Backslashes, Run;
  }

  lemma ClosedUnfolds(s: string, n: nat, tail: string)
    requires n == LeadRun(s) < |s|
    ensures Closed(s, tail) == Run(n, s[n]) + ([s[n]] + Closed(s[n + 1..], tail))
  {
    hide WindowsBody, LeadRun, Backslashes, Run;
    BodyUnfolds(s, n);
    Regroup(Run(n, s[n]), [s[n]], WindowsBody(s[n + 1..]), "\"" + tail);
  }

  lemma ClosedRun(s: string, n: nat, tail: string)
    requires n == LeadRun(s) == |s|
    ensures Closed(s, tail) == Backslashes(2 * n) + ("\"" + tail)
  {
    hide Backslashes, LeadRun;
    if n == 0 {
      NoRun([]);
      assert Backslashes(0) == [];
    }
  }

  lemma Regroup(a: string, b: string, c: string, d: string)
    ensures (a + b + c) + d == a + (b + (c + d))
  {
  }

  /** Inside the quotes, what was written reads as the argument, and the closing one ends them. */
  lemma {:induction false} WindowsBodyReads(s: string, tail: string, r: Reading)
    requires tail == [] || tail[0] != '"'
    ensures UnquoteWindows(Closed(s, tail), r, false, true) == Put(s, UnquoteWindows(tail, r, false, false))
    decreases |s|
  {
    hide UnquoteWindows, LeadRun, Put, Backslashes, Closed, Run;
    CloseQuote(tail, r, false);
    var end := UnquoteWindows(tail, r, false, false);
    if s == [] {
      ClosedEmpty(tail);
      PutNothing(end);
    } else {
      var n := LeadRun(s);
      if n == |s| {
        ClosedRun(s, n, tail);
        assert s[..n] == s;
        RunReads(2 * n, "\"" + tail, r, true);
      } else {
        ClosedUnfolds(s, n, tail);
        WindowsBodyReads(s[n + 1..], tail, r);
        WindowsUnit(n, s[n], Closed(s[n + 1..], tail), s[n + 1..], end, r);
        assert s == s[..n] + [s[n]] + s[n + 1..];
      }
    }
  }

  lemma ClosedEmpty(tail: string)
    ensures Closed([], tail) == "\"" + tail
  {
  }

  lemma WindowsUnit(n: nat, c: char, rest: string, s: string, end: Piece, r: Reading)
    requires c != '\\' && UnquoteWindows(rest, r, false, true) == Put(s, end)
    ensures UnquoteWindows(Run(n, c) + ([c] + rest), r, false, true) == Put(Backslashes(n) + [c] + s, end)
  {
    hide UnquoteWindows, Put;
    PutPut(Backslashes(n) + [c], s, end);
    if c == '"' {
      RunReads(2 * n + 1, "\"" + rest, r, true);
      assert ("\"" + rest)[1..] == rest;
    } else {
      CharacterReads(c, rest, r, true);
      if n == 0 {
        assert Backslashes(0) + ([c] + rest) == [c] + rest && Backslashes(0) + [c] == [c];
      } else {
        RunReads(n, [c] + rest, r, true);
        PutPut(Backslashes(n), [c], Put(s, end));
      }
    }
  }

  /** Nothing in it separates. */
  predicate Solid(r: Reading, s: string) { forall i :: 0 <= i < |s| ==> !Separates(r, s[i]) }

  /** Where a text outside quotes stands for itself: no backslash of it meets a quote. */
  predicate Bare(r: Reading, s: string, tail: string) {
    && '"' !in s && Solid(r, s)
    && (s != [] && s[|s| - 1] == '\\' ==> tail == [] || (tail[0] != '"' && tail[0] != '\\'))
  }

  /** Outside quotes such a text reads as it is, whatever comes after. */
  lemma {:induction false} BareReads(s: string, tail: string, r: Reading)
    requires Bare(r, s, tail)
    ensures UnquoteWindows(s + tail, r, false, false) == Put(s, UnquoteWindows(tail, r, false, false))
    decreases |s|
  {
    hide UnquoteWindows, LeadRun, Put, Backslashes, Bare;
    if s == [] {
      assert s + tail == tail;
      PutNothing(UnquoteWindows(tail, r, false, false));
    } else {
      var n := BareStart(s);
      BareRest(s, n, tail, r);
      BareReads(s[n..], tail, r);
      BareStartReads(s, n, tail, r);
      PutPut(s[..n], s[n..], UnquoteWindows(tail, r, false, false));
      assert s == s[..n] + s[n..];
    }
  }

  /** The run of backslashes it starts with, or else its first character. */
  function BareStart(s: string): (n: nat)
    requires s != []
    ensures 0 < n <= |s|
  {
    if s[0] == '\\' then LeadRun(s) else 1
  }

  lemma BareRest(s: string, n: nat, tail: string, r: Reading)
    requires Bare(r, s, tail) && n <= |s|
    ensures Bare(r, s[n..], tail)
  {
    hide Separates;
    var rest := s[n..];
    forall i | 0 <= i < |rest| ensures !Separates(r, rest[i]) && rest[i] != '"' { assert rest[i] == s[n + i]; }
  }

  lemma BareStartReads(s: string, n: nat, tail: string, r: Reading)
    requires s != [] && n == BareStart(s) && Bare(r, s, tail)
    ensures UnquoteWindows(s + tail, r, false, false)
            == Put(s[..n], UnquoteWindows(s[n..] + tail, r, false, false))
  {
    hide UnquoteWindows, Put, Separates;
    var rest := s[n..] + tail;
    assert s + tail == s[..n] + rest;
    if s[0] == '\\' {
      if n < |s| {
        assert rest[0] == s[n];
      } else {
        assert rest == tail && s[|s| - 1] == '\\';
      }
      RunReads(n, rest, r, false);
    } else {
      assert s[..n] == [s[0]];
      CharacterReads(s[0], rest, r, false);
    }
  }

  lemma PlainIsBare(s: string, tail: string, r: Reading)
    requires PlainWindows(s) && Solid(r, s) && Ends(r, tail)
    ensures Bare(r, s, tail)
  {
    assert forall i :: 0 <= i < |s| ==> s[i] !in QUOTED_IN_WINDOWS;
  }

  lemma WindowsArgumentReads(s: string, tail: string, r: Reading)
    requires !IsPosix(r) && Ends(r, tail) && (PlainWindows(s) ==> Solid(r, s))
    ensures Unquote(WindowsArgument(s) + tail, r, false) == Piece(s, tail)
    ensures WindowsArgument(s) != [] && !Separates(r, WindowsArgument(s)[0])
  {
    hide UnquoteWindows, WindowsBody;
    if PlainWindows(s) {
      PlainIsBare(s, tail, r);
      BareReads(s, tail, r);
    } else {
      assert WindowsArgument(s) + tail == "\"" + Closed(s, tail);
      OpenQuote(Closed(s, tail), r, false);
      WindowsBodyReads(s, tail, r);
    }
    WindowsEnds(tail, r, false, false, s);
  }

  // ---------- whole lines ----------

  predicate ProgramHoldsNoQuote(arguments: seq<string>) {
    arguments != [] ==> '"' !in arguments[0]
  }

  lemma PlainIsSolid(s: string)
    requires PlainWindows(s)
    ensures Solid(Windows, s)
  {
    forall i | 0 <= i < |s| ensures !Separates(Windows, s[i]) { assert s[i] !in QUOTED_IN_WINDOWS; }
  }

  lemma WrittenReads(s: string, first: bool, q: Quoting, tail: string)
    requires Ends(if q.PosixQuoting? then Posix else Windows, tail) && (q.WindowsQuoting? && first ==> '"' !in s)
    ensures var r := if q.PosixQuoting? then Posix else Windows;
            var program := q.WindowsQuoting? && first;
            && Unquote(Written(s, first, q) + tail, r, program) == Piece(s, tail)
            && Written(s, first, q) != [] && (program || !Separates(r, Written(s, first, q)[0]))
  {
    hide Unquote, PosixArgument, WindowsProgram, WindowsArgument, Separates;
    if q.PosixQuoting? {
      PosixArgumentReads(s, tail, Posix);
    } else if first {
      WindowsProgramReads(s, tail);
    } else {
      if PlainWindows(s) { PlainIsSolid(s); }
      WindowsArgumentReads(s, tail, Windows);
    }
  }

  lemma {:induction false} JoinReads(arguments: seq<string>, first: bool, q: Quoting)
    requires q.WindowsQuoting? && first ==> ProgramHoldsNoQuote(arguments)
    ensures SplitAll(JoinFrom(arguments, first, q), if q.PosixQuoting? then Posix else Windows,
                     q.WindowsQuoting? && first) == arguments
    decreases |arguments|
  {
    hide Unquote, Written, SplitAll;
    var r := if q.PosixQuoting? then Posix else Windows;
    var program := q.WindowsQuoting? && first;
    var line := JoinFrom(arguments, first, q);
    if arguments == [] {
      SplitStep(line, r, program, []);
    } else {
      var written, tail := Written(arguments[0], first, q), JoinFrom(arguments[1..], false, q);
      WrittenReads(arguments[0], first, q, tail);
      var t := written + tail;
      assert line == (if first then [] else " ") + t;
      StartOfWritten(line, t, r, program, first);
      SplitStep(line, r, program, t);
      JoinReads(arguments[1..], false, q);
      assert arguments == [arguments[0]] + arguments[1..];
    }
  }

  lemma StartOfWritten(line: string, t: string, r: Reading, program: bool, first: bool)
    requires t != [] && (program || !Separates(r, t[0])) && (program ==> first)
    requires line == (if first then [] else " ") + t
    ensures ArgumentStart(line, r, program) == t
  {
    if !program { SkipNone(t, r); }
    if first {
      assert line == t;
    } else {
      assert line[0] == ' ' && line[1..] == t;
    }
  }

  /** Splitting what join() wrote gives back the same arguments: on POSIX any list, on
      Windows any list whose program holds no quote. */
  lemma JoinRoundTrip(arguments: seq<string>, q: Quoting)
    requires q.WindowsQuoting? ==> ProgramHoldsNoQuote(arguments)
    ensures SplitAll(JoinFrom(arguments, true, q), if q.PosixQuoting? then Posix else Windows, q.WindowsQuoting?)
            == arguments
  {
    JoinReads(arguments, true, q);
  }

  /** No reading of a program gives a quote. */
  lemma {:induction false} ProgramReadsNoQuote(s: string, r: Reading, quoted: bool)
    ensures '"' !in UnquoteWindows(s, r, true, quoted).argument
    decreases |s|
  {
    hide Separates;
    if s == [] || (!quoted && Separates(r, s[0])) {
    } else if s[0] == '"' {
      ProgramReadsNoQuote(s[1..], r, !quoted);
    } else {
      ProgramReadsNoQuote(s[1..], r, quoted);
    }
  }

  /** Which lists come back: on Windows, exactly those whose program holds no quote. */
  lemma JoinRoundTripExactly(arguments: seq<string>, q: Quoting)
    ensures SplitAll(JoinFrom(arguments, true, q), if q.PosixQuoting? then Posix else Windows, q.WindowsQuoting?)
            == arguments
            <==> (q.WindowsQuoting? ==> ProgramHoldsNoQuote(arguments))
  {
    hide JoinFrom, SplitAll, UnquoteWindows;
    if q.WindowsQuoting? && !ProgramHoldsNoQuote(arguments) {
      var line := JoinFrom(arguments, true, q);
      SplitStep(line, Windows, true, line);
      ProgramReadsNoQuote(line, Windows, false);
    } else {
      JoinRoundTrip(arguments, q);
    }
  }

  /** The arguments with one space between them. */
  function Spaced(arguments: seq<string>): string {
    if arguments == [] then []
    else if |arguments| == 1 then arguments[0]
    else arguments[0] + " " + Spaced(arguments[1..])
  }

  /** A character that neither style has to quote. */
  predicate Unremarkable(c: char) {
    || 'a' <= c <= 'z' || 'A' <= c <= 'Z' || '0' <= c <= '9' || c >= 128 as char
    || c == '@' || c == '%' || c == '+' || c == '=' || c == ':' || c == ','
    || c == '.' || c == '/' || c == '_' || c == '-'
  }

  predicate AllUnremarkable(s: string) { s != [] && forall i :: 0 <= i < |s| ==> Unremarkable(s[i]) }

  lemma UnremarkableIsPlain(c: char)
    ensures Unremarkable(c) ==> PlainPosix(c) && c != '\n' && c !in QUOTED_IN_WINDOWS
    ensures PlainPosix(c) ==> Unremarkable(c)
  {
    MarksAre(c);
  }

  lemma MarksAre(c: char)
    ensures c in "@%+=:,./_-" <==>
            || c == '@' || c == '%' || c == '+' || c == '=' || c == ':' || c == ','
            || c == '.' || c == '/' || c == '_' || c == '-'
  {
    var marks := "@%+=:,./_-";
    assert marks[0] == '@' && marks[1] == '%' && marks[2] == '+' && marks[3] == '=' && marks[4] == ':';
    assert marks[5] == ',' && marks[6] == '.' && marks[7] == '/' && marks[8] == '_' && marks[9] == '-';
  }

  /** On POSIX each character that is remarkable is escaped, a newline by quotes, and no other. */
  lemma EscapedExactly(c: char)
    ensures PosixArgument([c]) == if c == '\n' then "'\n'" else if Unremarkable(c) then [c] else ['\\', c]
  {
    hide Unremarkable, PlainPosix;
    UnremarkableIsPlain(c);
    assert [c][1..] == [] && PosixBody([]) == [];
    assert PosixBody([c]) == PosixCharacter(c) + [];
  }

  /** What goes between quotes on Windows: of arguments, the empty one and those with a blank,
      tab, line feed, vertical tab or quote inside; of programs, the first three kinds. */
  lemma QuotedExactly(s: string)
    ensures WindowsArgument(s) == s <==>
            && s != []
            && forall i :: 0 <= i < |s| ==>
              s[i] != ' ' && s[i] != '\t' && s[i] != '\n' && s[i] != 11 as char && s[i] != '"'
    ensures WindowsProgram(s) == s <==> s != [] && forall i :: 0 <= i < |s| ==> s[i] != ' ' && s[i] != '\t'
  {
    hide WindowsBody;
    BodyIsNoShorter(s);
  }

  lemma {:induction false} BodyIsNoShorter(s: string)
    ensures |WindowsBody(s)| >= |s|
    decreases |s|
  {
    var n := LeadRun(s);
    if n < |s| { BodyIsNoShorter(s[n + 1..]); }
  }

  lemma {:induction false} PosixBodyPlain(s: string)
    requires s == [] || AllUnremarkable(s)
    ensures PosixBody(s) == s
  {
    hide Unremarkable, PlainPosix;
    if s != [] {
      UnremarkableIsPlain(s[0]);
      assert PosixCharacter(s[0]) == [s[0]];
      PosixBodyPlain(s[1..]);
      assert s == [s[0]] + s[1..];
    }
  }

  lemma UnremarkableWritten(s: string, first: bool, q: Quoting)
    requires AllUnremarkable(s)
    ensures Written(s, first, q) == s
  {
    hide Unremarkable, PosixCharacter, PosixBody, WindowsBody;
    PosixBodyPlain(s);
    forall i | 0 <= i < |s| ensures s[i] !in QUOTED_IN_WINDOWS { UnremarkableIsPlain(s[i]); }
  }

  /** Nothing is quoted that need not be. */
  lemma {:induction false} UnremarkableLine(arguments: seq<string>, first: bool, q: Quoting)
    requires forall i :: 0 <= i < |arguments| ==> AllUnremarkable(arguments[i])
    ensures JoinFrom(arguments, first, q) == (if first || arguments == [] then [] else " ") + Spaced(arguments)
  {
    hide Written, AllUnremarkable;
    if arguments != [] {
      UnremarkableWritten(arguments[0], first, q);
      UnremarkableLine(arguments[1..], false, q);
    }
  }

  /** The methods themselves: written by one, read by the other. */
  method JoinThenSplit(arguments: seq<string>, q: Quoting) returns (again: seq<string>)
    requires q.WindowsQuoting? ==> ProgramHoldsNoQuote(arguments)
    ensures again == arguments
  {
    var line := Join(arguments, q);
    JoinRoundTrip(arguments, q);
    again := Split(line, if q.PosixQuoting? then Posix else Windows);
  }
}
