/** The iterator over a command line. It copies an argument only from where unquoting
    changes something, and is proved to give what unquoting everything gives. */
module CmdSplit {
  import opened CmdSpec

  // ---------- unquoting loops ----------

  /** One run of backslashes unquoted: what the argument becomes, and how far that reads. */
  method ReadBackslashes(line: string, start: nat, argument: string) returns (last: nat, longer: string)
    requires start < |line| && line[start] == '\\'
    ensures var n := LeadRun(line[start..]);
            if start + n < |line| && line[start + n] == '"' then
              if n % 2 == 0 then last + 1 == start + n && longer == argument + Backslashes(n / 2)
              else last == start + n && longer == argument + Backslashes(n / 2) + "\""
            else last + 1 == start + n && longer == argument + Backslashes(n)
    ensures start <= last < |line|
  {
    hide Backslashes, LeadRun;
    var at := start;
    while at < |line| && line[at] == '\\'
      invariant start <= at <= |line|
      invariant LeadRun(line[start..]) == at - start + LeadRun(line[at..])
    {
      LongerRun(line, at);
      at := at + 1;
    }
    RunIsOver(line, at);
    var count := at - start;
    if at == |line| || line[at] != '"' {
      return at - 1, argument + Backslashes(count);
    }
    longer := argument + Backslashes(count / 2);
    if count % 2 == 0 {
      return at - 1, longer;
    }
    return at, longer + "\"";
  }

  lemma LongerRun(line: string, at: nat)
    requires at < |line| && line[at] == '\\'
    ensures LeadRun(line[at..]) == 1 + LeadRun(line[at + 1..])
  {
    assert line[at..][1..] == line[at + 1..];
  }

  lemma RunIsOver(line: string, at: nat)
    requires at <= |line| && (at == |line| || line[at] != '\\')
    ensures LeadRun(line[at..]) == 0
  {
  }

  /** What has been unquoted, and what is left of the argument, make the whole. */
  ghost predicate WindowsSoFar(line: string, r: Reading, program: bool, whole: Piece, done: string, at: nat,
                               quoted: bool) {
    at <= |line| && whole == Put(done, UnquoteWindows(line[at..], r, program, quoted))
  }

  lemma PutPut(a: string, b: string, p: Piece)
    ensures Put(a, Put(b, p)) == Put(a + b, p)
  {
    assert a + (b + p.argument) == a + b + p.argument;
  }

  /** One character, or one run of backslashes. */
  lemma {:induction false} WindowsStep(line: string, r: Reading, program: bool, at: nat, quoted: bool)
    requires at < |line| && (quoted || !Separates(r, line[at]))
    ensures var s := line[at..];
            var here := UnquoteWindows(s, r, program, quoted);
            if line[at] == '\\' && !program then
              var n := LeadRun(s);
              && n >= 1 && at + n <= |line|
              && here ==
                 if at + n < |line| && line[at + n] == '"' then
                   if n % 2 == 0 then Put(Backslashes(n / 2), UnquoteWindows(line[at + n..], r, program, quoted))
                   else Put(Backslashes(n / 2) + "\"", UnquoteWindows(line[at + n + 1..], r, program, quoted))
                 else Put(Backslashes(n), UnquoteWindows(line[at + n..], r, program, quoted))
            else if line[at] != '"' then here == Put([line[at]], UnquoteWindows(line[at + 1..], r, program, quoted))
            else if quoted && !program && at + 1 < |line| && line[at + 1] == '"' then
              here == Put("\"", UnquoteWindows(line[at + 2..], r, program, quoted))
            else here == UnquoteWindows(line[at + 1..], r, program, !quoted)
  {
    hide Put, Separates, UnquoteWindows, LeadRun, Backslashes;
    var s := line[at..];
    var n := LeadRun(s);
    WindowsUnfolds(s, r, program, quoted);
    Tails(line, at, n);
    if at + 1 < |line| { Tails(line, at, 1); }
    assert s[1..] == line[at + 1..];
  }

  /** The specification of the reading, unfolded once. */
  lemma {:induction false} WindowsUnfolds(s: string, r: Reading, program: bool, quoted: bool)
    requires s != [] && (quoted || !Separates(r, s[0]))
    ensures var here, n := UnquoteWindows(s, r, program, quoted), LeadRun(s);
            if s[0] == '\\' && !program then
              here ==
              if n < |s| && s[n] == '"' then
                if n % 2 == 0 then Put(Backslashes(n / 2), UnquoteWindows(s[n..], r, program, quoted))
                else Put(Backslashes(n / 2) + "\"", UnquoteWindows(s[n + 1..], r, program, quoted))
              else Put(Backslashes(n), UnquoteWindows(s[n..], r, program, quoted))
            else if s[0] != '"' then here == Put([s[0]], UnquoteWindows(s[1..], r, program, quoted))
            else if quoted && !program && |s| > 1 && s[1] == '"' then
              here == Put("\"", UnquoteWindows(s[2..], r, program, quoted))
            else here == UnquoteWindows(s[1..], r, program, !quoted)
  {
    hide Put, Separates, LeadRun, Backslashes;
  }

  lemma Tails(line: string, at: nat, n: nat)
    requires at + n <= |line|
    ensures line[at..][n..] == line[at + n..]
    ensures at + n < |line| ==> line[at..][n] == line[at + n] && line[at..][n + 1..] == line[at + n + 1..]
  {
  }

  method UnquoteWindowsFrom(line: string, from: nat, r: Reading, program: bool, before: string)
    returns (at: nat, unquoted: string)
    requires from <= |line|
    ensures at <= |line|
    ensures Piece(unquoted, line[at..]) == Put(before, UnquoteWindows(line[from..], r, program, false))
  {
    hide UnquoteWindows, Put, Separates, LeadRun;
    var quoted := false;
    at, unquoted := from, before;
    ghost var whole := Put(before, UnquoteWindows(line[from..], r, program, false));
    while at < |line| && (quoted || !Separates(r, line[at]))
      invariant at <= |line|
      invariant WindowsSoFar(line, r, program, whole, unquoted, at, quoted)
      decreases |line| - at
    {
      var c := line[at];
      WindowsStep(line, r, program, at, quoted);
      ghost var done := unquoted;
      if c == '\\' && !program {
        var last, longer := ReadBackslashes(line, at, unquoted);
        BackslashesPut(line, r, program, at, quoted, done, longer, last + 1);
        at, unquoted := last, longer;
      } else if c != '"' {
        PutPut(done, [c], UnquoteWindows(line[at + 1..], r, program, quoted));
        unquoted := unquoted + [c];
      } else if quoted && !program && at + 1 < |line| && line[at + 1] == '"' {
        PutPut(done, "\"", UnquoteWindows(line[at + 2..], r, program, quoted));
        unquoted := unquoted + "\"";
        at := at + 1;
      } else {
        quoted := !quoted;
      }
      at := at + 1;
    }
    WindowsEnds(line[at..], r, program, quoted, unquoted);
  }

  lemma BackslashesPut(line: string, r: Reading, program: bool, at: nat, quoted: bool, done: string, longer: string,
                       next: nat)
    requires at < |line| && (quoted || !Separates(r, line[at])) && line[at] == '\\' && !program && next <= |line|
    requires var n := LeadRun(line[at..]);
             if at + n < |line| && line[at + n] == '"' then
               if n % 2 == 0 then next == at + n && longer == done + Backslashes(n / 2)
               else next == at + n + 1 && longer == done + Backslashes(n / 2) + "\""
             else next == at + n && longer == done + Backslashes(n)
    ensures Put(done, UnquoteWindows(line[at..], r, program, quoted)) ==
            Put(longer, UnquoteWindows(line[next..], r, program, quoted))
  {
    hide UnquoteWindows, Put, Separates, LeadRun, Backslashes;
    WindowsStep(line, r, program, at, quoted);
    var n, tail := LeadRun(line[at..]), UnquoteWindows(line[next..], r, program, quoted);
    PutPut(done, Backslashes(n / 2), tail);
    PutPut(done, Backslashes(n / 2) + "\"", tail);
    PutPut(done, Backslashes(n), tail);
    assert done + (Backslashes(n / 2) + "\"") == done + Backslashes(n / 2) + "\"";
  }

  lemma WindowsEnds(s: string, r: Reading, program: bool, quoted: bool, done: string)
    requires s == [] || (!quoted && Separates(r, s[0]))
    ensures Put(done, UnquoteWindows(s, r, program, quoted)) == Piece(done, s)
  {
    assert done + [] == done;
  }

  lemma PosixStep(line: string, r: Reading, at: nat, quote: Quote)
    requires at < |line| && (!quote.NoQuote? || !Separates(r, line[at]))
    ensures var c := line[at];
            var here := UnquotePosix(line[at..], r, quote);
            if quote == In('\'') && r.Posix? then
              if c == '\'' then here == UnquotePosix(line[at + 1..], r, NoQuote)
              else here == Put([c], UnquotePosix(line[at + 1..], r, quote))
            else if c == '\\' && at + 1 < |line| then
              here == Put([line[at + 1]], UnquotePosix(line[at + 2..], r, quote))
            else if quote == In(c) then here == UnquotePosix(line[at + 1..], r, NoQuote)
            else if quote.NoQuote? && (c == '\'' || c == '"') then here == UnquotePosix(line[at + 1..], r, In(c))
            else here == Put([c], UnquotePosix(line[at + 1..], r, quote))
  {
    hide Put, Separates;
    var s := line[at..];
    assert s[1..] == line[at + 1..];
    if at + 1 < |line| { assert s[2..] == line[at + 2..] && s[1] == line[at + 1]; }
  }

  method UnquotePosixFrom(line: string, from: nat, r: Reading, before: string) returns (at: nat, unquoted: string)
    requires from <= |line|
    ensures at <= |line|
    ensures Piece(unquoted, line[at..]) == Put(before, UnquotePosix(line[from..], r, NoQuote))
  {
    hide UnquotePosix, Put, Separates;
    var quote := NoQuote;
    at, unquoted := from, before;
    while at < |line| && (!quote.NoQuote? || !Separates(r, line[at]))
      invariant at <= |line|
      invariant Put(before, UnquotePosix(line[from..], r, NoQuote)) == Put(unquoted, UnquotePosix(line[at..], r, quote))
      decreases |line| - at
    {
      var c := line[at];
      PosixStep(line, r, at, quote);
      ghost var done := unquoted;
      if quote == In('\'') && r.Posix? {
        if c == '\'' {
          quote := NoQuote;
        } else {
          PutPut(done, [c], UnquotePosix(line[at + 1..], r, quote));
          unquoted := unquoted + [c];
        }
      } else if c == '\\' && at + 1 < |line| {
        at := at + 1;
        PutPut(done, [line[at]], UnquotePosix(line[at + 1..], r, quote));
        unquoted := unquoted + [line[at]];
      } else if quote == In(c) {
        quote := NoQuote;
      } else if quote.NoQuote? && (c == '\'' || c == '"') {
        quote := In(c);
      } else {
        PutPut(done, [c], UnquotePosix(line[at + 1..], r, quote));
        unquoted := unquoted + [c];
      }
      at := at + 1;
    }
    PosixEnds(line[at..], r, quote, unquoted);
  }

  lemma PosixEnds(s: string, r: Reading, quote: Quote, done: string)
    requires s == [] || (quote.NoQuote? && Separates(r, s[0]))
    ensures Put(done, UnquotePosix(s, r, quote)) == Piece(done, s)
  {
    assert done + [] == done;
  }

  // ---------- the borrowed part ----------

  /** Where the plain start of an argument ends: at a separator, the end of the line, or
      the first character to unquote. Windows backslashes are plain unless a quote comes
      after them. */
  method PlainEnd(line: string, start: nat, r: Reading, program: bool) returns (at: nat)
    requires start <= |line|
    requires program ==> r.Windows?
    ensures start <= at <= |line|
    ensures Unquote(line[start..], r, program) == Put(line[start..at], Unquote(line[at..], r, program))
  {
    hide Unquote, Separates, Put, LeadRun;
    at := start;
    PutNothing(Unquote(line[start..], r, program));
    assert line[start..start] == [];
    while at < |line| && !Separates(r, line[at])
      invariant start <= at <= |line|
      invariant Unquote(line[start..], r, program) == Put(line[start..at], Unquote(line[at..], r, program))
      decreases |line| - at
    {
      var c := line[at];
      if c == '"' || (IsPosix(r) && (c == '\'' || c == '\\')) {
        break;
      }
      ghost var was := at;
      if c == '\\' && !program {
        var end := at + LeadRun(line[at..]);
        LeadRunInside(line, at);
        if end < |line| && line[end] == '"' {
          break;
        }
        PlainRun(line, at, r, end);
        at := end;
      } else {
        PlainCharacter(line, at, r, program);
        at := at + 1;
      }
      assert line[start..at] == line[start..was] + line[was..at];
      PutPut(line[start..was], line[was..at], Unquote(line[at..], r, program));
    }
  }

  lemma PutNothing(p: Piece)
    ensures Put([], p) == p
  {
    assert [] + p.argument == p.argument;
  }

  lemma LeadRunInside(line: string, at: nat)
    requires at < |line| && line[at] == '\\'
    ensures 1 <= LeadRun(line[at..]) <= |line| - at
  {
  }

  lemma PlainRun(line: string, at: nat, r: Reading, end: nat)
    requires at < |line| && line[at] == '\\' && !Separates(r, line[at]) && !IsPosix(r)
    requires end == at + LeadRun(line[at..]) && end <= |line| && !(end < |line| && line[end] == '"')
    ensures Unquote(line[at..], r, false) == Put(line[at..end], Unquote(line[end..], r, false))
  {
    hide UnquoteWindows, Put, Separates;
    WindowsStep(line, r, false, at, false);
    assert line[at..end] == line[at..][..end - at];
  }

  lemma PlainCharacter(line: string, at: nat, r: Reading, program: bool)
    requires at < |line| && !Separates(r, line[at]) && line[at] != '"'
    requires IsPosix(r) ==> line[at] != '\'' && line[at] != '\\'
    requires !IsPosix(r) && !program ==> line[at] != '\\'
    ensures Unquote(line[at..], r, program) == Put(line[at..at + 1], Unquote(line[at + 1..], r, program))
  {
    hide UnquoteWindows, UnquotePosix, Put, Separates;
    assert line[at..at + 1] == [line[at]];
    if IsPosix(r) {
      PosixStep(line, r, at, NoQuote);
    } else {
      WindowsStep(line, r, program, at, false);
    }
  }

  method SkipFrom(line: string, r: Reading) returns (at: nat)
    ensures at <= |line| && SkipSeparators(line, r) == line[at..]
  {
    hide SkipSeparators, Separates;
    at := 0;
    assert line[0..] == line;
    while at < |line| && Separates(r, line[at])
      invariant at <= |line|
      invariant SkipSeparators(line, r) == SkipSeparators(line[at..], r)
    {
      SkipOne(line, at, r);
      at := at + 1;
    }
    SkipNone(line[at..], r);
  }

  // ---------- the iterator ----------

  /** The arguments of a line, one at a time. */
  class SplitIterator {
    const reading: Reading
    var rest: string
    var argument: string
    var unquoted: string
    var program: bool
    var borrowed: bool
    var done: bool

    /** The argument at hand and those after it. */
    ghost function Remaining(): seq<string>
      reads this
    {
      if done then [] else [Current()] + SplitAll(rest, reading, program)
    }

    function Current(): string
      reads this
    {
      if borrowed then argument else unquoted
    }

    ghost predicate Ready()
      reads this
    {
      program ==> reading.Windows?
    }

    constructor (line: string, r: Reading)
      ensures Ready() && reading == r && Remaining() == SplitAll(line, r, r.Windows?)
    {
      reading := r;
      rest, program := line, r.Windows?;
      argument, unquoted, borrowed, done := [], [], true, false;
      new;
      Advance();
    }

    /** Moves to the next argument, or past the last. */
    method Advance()
      requires Ready() && !done
      modifies this
      ensures Ready()
      ensures Remaining() == old(SplitAll(rest, reading, program))
      ensures done ==> rest == old(rest)
    {
      hide Unquote, UnquoteWindows, UnquotePosix, Separates, SkipSeparators;
      var at: nat := 0;
      var line := rest;
      assert line[0..] == line;
      // Only a program may begin with a separator, which makes it empty.
      if !program {
        at := SkipFrom(line, reading);
      }
      SplitStep(line, reading, program, line[at..]);
      if at == |line| {
        done := true;
        return;
      }
      var start := at;
      at := PlainEnd(line, start, reading, program);
      borrowed := at == |line| || Separates(reading, line[at]);
      if borrowed {
        BorrowedIsWhole(line[at..], reading, program, line[start..at]);
        argument := line[start..at];
      } else {
        if IsPosix(reading) {
          UnquoteIs(line[at..], reading, program);
          at, unquoted := UnquotePosixFrom(line, at, reading, line[start..at]);
        } else {
          UnquoteIs(line[at..], reading, program);
          at, unquoted := UnquoteWindowsFrom(line, at, reading, program, line[start..at]);
        }
      }
      program := false;
      rest := line[at..];
    }

    /** Drains the iterator. */
    method Collect() returns (all: seq<string>)
      requires Ready()
      modifies this
      ensures all == old(Remaining()) && done
    {
      hide SplitAll;
      all := [];
      ghost var total := Remaining();
      assert [] + total == total;
      while !done
        invariant Ready() && total == all + Remaining()
        decreases |Remaining()|
      {
        ghost var later := SplitAll(rest, reading, program);
        ConcatShifts(all, Current(), later);
        all := all + [Current()];
        Advance();
      }
    }
  }

  lemma ConcatShifts(a: seq<string>, x: string, b: seq<string>)
    ensures a + ([x] + b) == a + [x] + b
  {
  }

  lemma SkipOne(line: string, at: nat, r: Reading)
    requires at < |line| && Separates(r, line[at])
    ensures SkipSeparators(line[at..], r) == SkipSeparators(line[at + 1..], r)
  {
    assert line[at..][1..] == line[at + 1..];
  }

  lemma SkipNone(s: string, r: Reading)
    requires s == [] || !Separates(r, s[0])
    ensures SkipSeparators(s, r) == s
  {
  }

  lemma SplitStep(line: string, r: Reading, program: bool, t: string)
    requires t == ArgumentStart(line, r, program)
    ensures SplitAll(line, r, program) ==
            if t == [] then [] else [Unquote(t, r, program).argument] + SplitAll(Unquote(t, r, program).rest, r, false)
  {
    hide Unquote, SkipSeparators;
  }

  lemma BorrowedIsWhole(s: string, r: Reading, program: bool, done: string)
    requires s == [] || Separates(r, s[0])
    ensures Put(done, Unquote(s, r, program)) == Piece(done, s)
  {
    hide Separates, UnquoteWindows, UnquotePosix;
    if IsPosix(r) { PosixEnds(s, r, NoQuote, done); } else { WindowsEnds(s, r, program, false, done); }
  }

  lemma UnquoteIs(s: string, r: Reading, program: bool)
    ensures Unquote(s, r, program) ==
            if IsPosix(r) then UnquotePosix(s, r, NoQuote) else UnquoteWindows(s, r, program, false)
  {
    hide UnquoteWindows, UnquotePosix;
  }

  /** Splitting a whole line: the iterator's arguments are those of full unquoting. */
  method Split(line: string, r: Reading) returns (arguments: seq<string>)
    ensures arguments == SplitAll(line, r, r.Windows?)
  {
    var it := new SplitIterator(line, r);
    arguments := it.Collect();
  }
}
