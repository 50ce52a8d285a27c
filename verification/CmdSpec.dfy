/** How a command line reads: each argument unquoted character by character, by the C
    runtime's rules or a POSIX shell's. */
module CmdSpec {

  /** A command line or a response file, of either style. */
  datatype Reading = Windows | WindowsFile | Posix | PosixFile

  predicate IsPosix(r: Reading) { r.Posix? || r.PosixFile? }

  predicate Separates(r: Reading, c: char) {
    match r
    case Windows => c == ' ' || c == '\t'
    case WindowsFile => c == ' ' || c == '\t' || c == '\r' || c == '\n' || c == '\0'
    case _ => c == ' ' || c == '\t' || c == '\r' || c == '\n'
  }

  /** An argument, and the line after it. */
  datatype Piece = Piece(argument: string, rest: string)

  function Put(s: string, p: Piece): Piece { Piece(s + p.argument, p.rest) }

  // ---------- Windows ----------

  function Backslashes(n: nat): (s: string)
    ensures |s| == n && forall i :: 0 <= i < n ==> s[i] == '\\'
  {
    seq(n, _ => '\\')
  }

  /** How many backslashes `s` starts with. */
  function LeadRun(s: string): (n: nat)
    ensures n <= |s| && s[..n] == Backslashes(n) && (n < |s| ==> s[n] != '\\')
  {
    if s == [] || s[0] != '\\' then 0
    else
      var n := 1 + LeadRun(s[1..]);
      assert s[..n] == [s[0]] + s[1..][..n - 1];
      n
  }

  /** One Windows argument, by how argv is made. A run of backslashes stands for itself,
      but next to a quote for half of it, and an odd run takes the quote along as a
      character. Inside quotes a doubled quote is one quote. A `program` has no escapes: all
      its quotes only open and close. */
  function UnquoteWindows(s: string, r: Reading, program: bool, quoted: bool): (p: Piece)
    ensures |p.rest| <= |s|
    decreases |s|
  {
    if s == [] || (!quoted && Separates(r, s[0])) then Piece([], s)
    else if s[0] == '\\' && !program then
      var n := LeadRun(s);
      if n < |s| && s[n] == '"' then
        if n % 2 == 0 then Put(Backslashes(n / 2), UnquoteWindows(s[n..], r, program, quoted))
        else Put(Backslashes(n / 2) + "\"", UnquoteWindows(s[n + 1..], r, program, quoted))
      else Put(Backslashes(n), UnquoteWindows(s[n..], r, program, quoted))
    else if s[0] != '"' then Put([s[0]], UnquoteWindows(s[1..], r, program, quoted))
    else if quoted && !program && |s| > 1 && s[1] == '"' then
      Put("\"", UnquoteWindows(s[2..], r, program, quoted))
    else UnquoteWindows(s[1..], r, program, !quoted)
  }

  // ---------- POSIX ----------

  datatype Quote = NoQuote | In(mark: char)

  /** One POSIX argument. Between single quotes nothing is special, except that a response
      file has escapes there as well; everywhere else a backslash quotes one character. */
  function UnquotePosix(s: string, r: Reading, quote: Quote): (p: Piece)
    ensures |p.rest| <= |s|
    decreases |s|
  {
    if s == [] || (quote.NoQuote? && Separates(r, s[0])) then Piece([], s)
    else
      var c := s[0];
      if quote == In('\'') && r.Posix? then
        if c == '\'' then UnquotePosix(s[1..], r, NoQuote) else Put([c], UnquotePosix(s[1..], r, quote))
      else if c == '\\' && |s| > 1 then Put([s[1]], UnquotePosix(s[2..], r, quote))
      else if quote == In(c) then UnquotePosix(s[1..], r, NoQuote)
      else if quote.NoQuote? && (c == '\'' || c == '"') then UnquotePosix(s[1..], r, In(c))
      else Put([c], UnquotePosix(s[1..], r, quote))
  }

  function Unquote(s: string, r: Reading, program: bool): (p: Piece)
    ensures |p.rest| <= |s|
  {
    if IsPosix(r) then UnquotePosix(s, r, NoQuote) else UnquoteWindows(s, r, program, false)
  }

  // ---------- whole lines ----------

  /** Past the separators at the start. */
  function SkipSeparators(s: string, r: Reading): (t: string)
    ensures |t| <= |s| && (t != [] ==> !Separates(r, t[0]))
  {
    if s != [] && Separates(r, s[0]) then SkipSeparators(s[1..], r) else s
  }

  /** Where the next argument starts: a program at once, another past separators. */
  function ArgumentStart(s: string, r: Reading, program: bool): (t: string)
    ensures |t| <= |s|
  {
    if program then s else SkipSeparators(s, r)
  }

  lemma UnquoteAdvances(s: string, r: Reading)
    requires s != [] && !Separates(r, s[0])
    ensures |Unquote(s, r, false).rest| < |s|
  {
    hide Separates;
  }

  /** All arguments of a line. */
  function SplitAll(s: string, r: Reading, program: bool): seq<string>
    decreases |s|, program
  {
    var t := ArgumentStart(s, r, program);
    if t == [] then []
    else
      var p := Unquote(t, r, program);
      if !program then UnquoteAdvances(t, r); [p.argument] + SplitAll(p.rest, r, false)
      else [p.argument] + SplitAll(p.rest, r, false)
  }
}
