/** From the text of a pattern to its compiled form, and the proof that the compiled form
    accepts exactly the paths the text asks for. */
module GlobCompile {
  import opened GlobText
  import opened GlobSpec
  import opened GlobTokens
  import opened GlobExecute
  import opened GlobPlans
  import opened GlobPattern
  import opened GlobClass
  import opened GlobSyntax
  import opened GlobBraces

  // ---------- compiled tokens and the tokens as spelled ----------

  function SpellOne(t: Token): seq<Token> {
    match t
    case Literal(text) => Bytes(text)
    case _ => [t]
  }

  function Spell(ts: seq<Token>): seq<Token> {
    if ts == [] then [] else SpellOne(ts[0]) + Spell(ts[1..])
  }

  ghost predicate SimilarToken(a: Token, b: Token) {
    a == b || (a.Class? && b.Class? && a.negated == b.negated && forall v :: SameSet(a.ranges, b.ranges, v))
  }

  ghost predicate Similar(a: seq<Token>, b: seq<Token>) {
    |a| == |b| && forall i :: 0 <= i < |a| ==> SimilarToken(a[i], b[i])
  }

  lemma {:induction false} SpellMatches(ts: seq<Token>, s: Text)
    ensures G(Spell(ts), s) <==> G(ts, s)
    decreases |ts|, |s|
  {
    hide AtomLen, AtomValue, InClass;
    if ts != [] {
      var rest := ts[1..];
      match ts[0] {
        case Literal(t) =>
          BytesMatch(t, Spell(rest), s);
          if t <= s { SpellMatches(rest, s[|t|..]); }
        case Star =>
          assert Spell(ts)[1..] == Spell(rest);
          SpellMatches(rest, s);
          if s != [] { SpellMatches(ts, s[AtomLen(s)..]); }
        case _ =>
          assert Spell(ts)[1..] == Spell(rest);
          if s != [] { SpellMatches(rest, s[AtomLen(s)..]); }
      }
    }
  }

  lemma {:induction false} SimilarMatches(a: seq<Token>, b: seq<Token>, s: Text)
    requires Similar(a, b)
    ensures G(a, s) <==> G(b, s)
    decreases |a|, |s|
  {
    hide AtomLen, AtomValue, InRanges;
    if a != [] {
      assert Similar(a[1..], b[1..]);
      assert SimilarToken(a[0], b[0]);
      match a[0] {
        case Literal(t) => if t <= s { SimilarMatches(a[1..], b[1..], s[|t|..]); }
        case Star =>
          SimilarMatches(a[1..], b[1..], s);
          if s != [] { SimilarMatches(a, b, s[AtomLen(s)..]); }
        case Any => if s != [] { SimilarMatches(a[1..], b[1..], s[AtomLen(s)..]); }
        case Class(_, _) =>
          if s != [] {
            SimilarMatches(a[1..], b[1..], s[AtomLen(s)..]);
            assert b[0].Class? && a[0].negated == b[0].negated;
            assert SameSet(a[0].ranges, b[0].ranges, AtomValue(s));
          }
      }
    }
  }

  lemma {:induction false} SpellAppends(ts: seq<Token>, t: Token)
    ensures Spell(ts + [t]) == Spell(ts) + SpellOne(t)
  {
    if ts == [] {
      assert ts + [t] == [t] && [t][1..] == [];
    } else {
      assert (ts + [t])[1..] == ts[1..] + [t];
      SpellAppends(ts[1..], t);
    }
  }

  lemma SpellGrows(ts: seq<Token>, text: Text, b: byte)
    ensures Spell(ts + [Literal(text + [b])]) == Spell(ts + [Literal(text)]) + [Literal([b])]
  {
    SpellAppends(ts, Literal(text + [b]));
    SpellAppends(ts, Literal(text));
    assert Bytes(text + [b]) == Bytes(text) + [Literal([b])];
  }

  lemma SimilarAppends(a: seq<Token>, b: seq<Token>, x: Token, y: Token)
    requires Similar(a, b) && SimilarToken(x, y)
    ensures Similar(a + [x], b + [y])
  {
  }

  // ---------- the tokens of one segment ----------

  function LastIsLiteral(ts: seq<Token>): bool { ts != [] && ts[|ts| - 1].Literal? }

  /** The literal being read: the last token, when it is one. */
  function Run(ts: seq<Token>): Text {
    if LastIsLiteral(ts) then ts[|ts| - 1].text else []
  }

  /** Adds a byte to the literal being read, or starts one. */
  function PushLiteral(ts: seq<Token>, b: byte): seq<Token> {
    if LastIsLiteral(ts) then ts[..|ts| - 1] + [Literal(ts[|ts| - 1].text + [b])] else ts + [Literal([b])]
  }

  predicate NoAdjacentLiterals(ts: seq<Token>) {
    forall i, j :: 0 <= i < |ts| && j == i + 1 && j < |ts| ==> !(ts[i].Literal? && ts[j].Literal?)
  }

  /** All tokens are finished but the last literal, whose last character may lack bytes. */
  ghost predicate Compiling(ts: seq<Token>, spelled: seq<Token>, rest: Text) {
    && NoAdjacentLiterals(ts)
    && (forall i :: 0 <= i < |ts| - 1 ==> CompiledToken(ts[i]))
    && (ts != [] && !LastIsLiteral(ts) ==> CompiledToken(ts[|ts| - 1]))
    && (LastIsLiteral(ts) ==> Run(ts) != [] && SLASH !in Run(ts))
    && IsUtf8(Run(ts) + rest)
    && Similar(Spell(ts), spelled)
  }

  /** At an ASCII byte, or at the end, the literal being read is whole. */
  lemma RunEnds(ts: seq<Token>, spelled: seq<Token>, rest: Text)
    requires Compiling(ts, spelled, rest) && (rest == [] || rest[0] < 0x80)
    ensures CompiledTokens(ts) && IsUtf8(rest)
    ensures rest != [] ==> IsUtf8(rest[1..])
  {
    hide Similar, Spell, IsUtf8, StartsCharacter;
    var run := Run(ts);
    if rest == [] {
      assert run + rest == run;
      assert IsUtf8([]) by { EmptyUtf8(); }
    } else {
      CutUtf8(run + rest, |run|);
      assert (run + rest)[..|run|] == run && (run + rest)[|run|..] == rest;
      assert (run + rest)[|run| + 1..] == rest[1..];
    }
    assert LastIsLiteral(ts) ==> ts[|ts| - 1] == Literal(run);
  }

  lemma EmptyUtf8()
    ensures IsUtf8([])
  {
  }

  lemma PushByte(ts: seq<Token>, spelled: seq<Token>, b: byte, rest: Text)
    requires Compiling(ts, spelled, [b] + rest) && b != SLASH
    ensures Compiling(PushLiteral(ts, b), spelled + [Literal([b])], rest)
  {
    hide CompiledToken, IsUtf8, Spell, Similar;
    var r := PushLiteral(ts, b);
    var run := Run(ts);
    assert Run(r) == run + [b];
    assert run + ([b] + rest) == run + [b] + rest;
    if LastIsLiteral(ts) {
      var before := ts[..|ts| - 1];
      assert ts == before + [Literal(run)];
      SpellGrows(before, run, b);
    } else {
      SpellAppends(ts, Literal([b]));
      assert Bytes([b]) == [Literal([b])];
    }
    SimilarAppends(Spell(ts), spelled, Literal([b]), Literal([b]));
  }

  lemma PushToken(ts: seq<Token>, spelled: seq<Token>, rest: Text, t: Token, u: Token, next: Text)
    requires Compiling(ts, spelled, rest) && CompiledTokens(ts) && IsUtf8(next)
    requires !t.Literal? && CompiledToken(t) && SimilarToken(t, u)
    ensures Compiling(ts + [t], spelled + [u], next)
  {
    hide CompiledToken, IsUtf8, Spell, Similar, SimilarToken;
    SpellAppends(ts, t);
    SimilarAppends(Spell(ts), spelled, t, u);
    assert [] + next == next;
  }

  lemma PrependMore(us: seq<Token>, t: Token, r: Result<Reading>)
    ensures PrependTokens(us, Then(t, r)) == PrependTokens(us + [t], r)
  {
    if r.Ok? { assert us + ([t] + r.value.tokens) == us + [t] + r.value.tokens; }
  }

  /** What is left to read of the segment decides the whole: the same tokens, or the same
      error. */
  ghost predicate ReadSoFar(s: Text, start: nat, us: seq<Token>, i: nat) {
    start <= i <= |s| && ParseSegment(s[start..]) == PrependTokens(us, ParseSegment(s[i..]))
  }

  lemma ReadStart(s: Text, start: nat)
    requires start <= |s|
    ensures ReadSoFar(s, start, [], start)
  {
    hide ParseSegment;
    var r := ParseSegment(s[start..]);
    if r.Ok? { assert [] + r.value.tokens == r.value.tokens; }
  }

  lemma ReadMore(s: Text, start: nat, us: seq<Token>, i: nat, t: Token, next: nat)
    requires ReadSoFar(s, start, us, i) && i <= next <= |s|
    requires ParseSegment(s[i..]) == Then(t, ParseSegment(s[next..]))
    ensures ReadSoFar(s, start, us + [t], next)
  {
    hide ParseSegment;
    PrependMore(us, t, ParseSegment(s[next..]));
  }

  /** What the text at `i` reads as: a bracket. */
  lemma ReadOpen(s: Text, i: nat)
    requires i < |s| && s[i] == OPEN
    ensures var close := ScanBracket(s[i..]);
            && (close.Err? ==> ParseSegment(s[i..]) == Err(close.error))
            && (close.Ok? ==>
                  var negated := Negation(s[i + 1]);
                  var members := Members(s[i + (if negated then 2 else 1)..i + close.value]);
                  && (members.Err? ==> ParseSegment(s[i..]) == Err(members.error))
                  && (members.Ok? ==>
                        ParseSegment(s[i..]) ==
                          Then(Class(negated, members.value), ParseSegment(s[i + close.value + 1..]))))
  {
    hide Members, ScanFrom, MembersFrom, StarRun, Then;
    var t := s[i..];
    if ScanBracket(t).Ok? {
      var c := ScanBracket(t).value;
      assert t[1] == s[i + 1];
      assert t[if Negation(t[1]) then 2 else 1..c] == s[i + (if Negation(t[1]) then 2 else 1)..i + c];
      assert t[c + 1..] == s[i + c + 1..];
    }
  }

  /** A run of stars. */
  lemma ReadStar(s: Text, i: nat)
    requires i < |s| && s[i] == STAR
    ensures var n := StarRun(s[i..]);
            && n >= 1
            && (n > 2 ==> ParseSegment(s[i..]) == Err(MultipleStar))
            && (n <= 2 ==> ParseSegment(s[i..]) == Then(Star, ParseSegment(s[i + n..])))
  {
    hide Members, ScanBracket, Then;
    var t := s[i..];
    assert t[StarRun(t)..] == s[i + StarRun(t)..];
  }

  /** Any one character. */
  lemma ReadQuestion(s: Text, i: nat)
    requires i < |s| && s[i] == QUESTION
    ensures ParseSegment(s[i..]) == Then(Any, ParseSegment(s[i + 1..]))
  {
    hide Members, ScanBracket, StarRun, Then;
    assert s[i..][1..] == s[i + 1..];
  }

  /** An escape, or a byte that stands for itself. */
  lemma ReadByte(s: Text, i: nat)
    requires i < |s| && (s[i] == BACKSLASH || PlainByte(s[i]))
    ensures s[i] == BACKSLASH ==>
              && (i + 1 == |s| ==> ParseSegment(s[i..]) == Err(StrayBackslash))
              && (i + 1 < |s| && s[i + 1] == SLASH ==> ParseSegment(s[i..]) == Err(InvalidEscape))
              && (i + 1 < |s| && s[i + 1] != SLASH ==>
                    ParseSegment(s[i..]) == Then(Literal([s[i + 1]]), ParseSegment(s[i + 2..])))
    ensures PlainByte(s[i]) ==> ParseSegment(s[i..]) == Then(Literal([s[i]]), ParseSegment(s[i + 1..]))
  {
    hide Members, ScanBracket, StarRun, Then;
    var t := s[i..];
    assert t[1..] == s[i + 1..];
    if |t| > 1 { assert t[2..] == s[i + 2..] && t[1] == s[i + 1]; }
  }

  method ScanBracketAt(s: Text, open: nat) returns (r: Result<nat>)
    requires open < |s|
    ensures match ScanBracket(s[open..])
            case Ok(c) => r == Ok(open + c)
            case Err(e) => r == Err(e)
  {
    ghost var t := s[open..];
    var j := open + 1;
    if j == |s| {
      return Err(UnmatchedBracket);
    }
    if Negation(s[j]) {
      j := j + 1;
    }
    if j != |s| && s[j] == CLOSE {
      j := j + 1;
    }
    assert j == open + MembersFrom(t);
    while j != |s| && s[j] != CLOSE
      invariant open < j <= |s|
      invariant ScanBracket(t) == ScanFrom(t, j - open)
      decreases |s| - j
    {
      if s[j] == BACKSLASH {
        j := j + 1;
        if j == |s| {
          return Err(StrayBackslash);
        }
      }
      j := j + 1;
    }
    if j == |s| {
      return Err(UnmatchedBracket);
    }
    r := Ok(j);
  }

  method CountStars(s: Text, i: nat) returns (n: nat)
    requires i <= |s|
    ensures n == StarRun(s[i..])
  {
    n := 0;
    while i + n != |s| && s[i + n] == STAR
      invariant i + n <= |s|
      invariant StarRun(s[i..]) == n + StarRun(s[i + n..])
    {
      assert s[i + n..][1..] == s[i + n + 1..];
      n := n + 1;
    }
  }

  datatype Compiled = Compiled(tokens: seq<Token>, end: nat)

  /** The class of the bracket at `i`, and where it ends. */
  method CompileClass(s: Text, i: nat) returns (r: Result<Compiled>, ghost written: Token)
    requires i < |s| && s[i] == OPEN
    ensures r.Err? ==> ParseSegment(s[i..]) == Err(r.error)
    ensures r.Ok? ==>
              && |r.value.tokens| == 1 && i < r.value.end <= |s| && s[r.value.end - 1] < 0x80
              && r.value.tokens[0].Class? && CompiledToken(r.value.tokens[0])
              && SimilarToken(r.value.tokens[0], written)
              && ParseSegment(s[i..]) == Then(written, ParseSegment(s[r.value.end..]))
  {
    hide ParseSegment, SimilarToken, CompiledToken, ScanBracket, Members, SortedRanges, SameSet, Then;
    written := Star;
    ReadOpen(s, i);
    var close := ScanBracketAt(s, i);
    if close.Err? {
      r := Err(close.error);
      return;
    }
    var negated := Negation(s[i + 1]);
    var body := s[i + (if negated then 2 else 1)..close.value];
    var ranges := ParseBracketCharset(body);
    if ranges.Err? {
      r := Err(ranges.error);
      return;
    }
    written := Class(negated, Members(body).value);
    ClassCompiled(negated, ranges.value, Members(body).value);
    r := Ok(Compiled([Class(negated, ranges.value)], close.value + 1));
  }

  /** The tokens up to the next separator: literal runs merged, classes sorted. */
  method CompileSegment(s: Text, start: nat) returns (r: Result<Compiled>)
    requires start <= |s| && IsUtf8(s[start..])
    ensures r.Err? ==> ParseSegment(s[start..]) == Err(r.error)
    ensures r.Ok? ==>
              && ParseSegment(s[start..]).Ok?
              && start <= r.value.end <= |s| && s[r.value.end..] == ParseSegment(s[start..]).value.rest
              && CompiledTokens(r.value.tokens) && NoAdjacentLiterals(r.value.tokens)
              && Similar(Spell(r.value.tokens), ParseSegment(s[start..]).value.tokens)
              && IsUtf8(s[r.value.end..])
              && (r.value.end < |s| ==> IsUtf8(s[r.value.end + 1..]))
  {
    hide ParseSegment, IsUtf8, Similar, SimilarToken, Spell, CompiledToken, CompiledTokens, NoAdjacentLiterals,
         ScanBracket, Members, StarRun, Tracks, SortedRanges, SameSet, PushLiteral, Negation, Then;
    var i: nat, tokens: seq<Token> := start, [];
    ghost var spelled: seq<Token> := [];
    TracksStart(s, start);
    while i != |s| && s[i] != SLASH
      invariant start <= i <= |s|
      invariant Tracks(s, start, tokens, spelled, i)
      decreases |s| - i
    {
      TracksErr(s, start, tokens, spelled, i);
      if s[i] == OPEN {
        var class_, written := CompileClass(s, i);
        if class_.Err? {
          return Err(class_.error);
        }
        var token, next := class_.value.tokens[0], class_.value.end;
        TracksToken(s, start, tokens, spelled, i, token, written, next);
        tokens := tokens + [token];
        spelled := spelled + [written];
        i := next;
      } else if s[i] == STAR {
        ReadStar(s, i);
        var run := CountStars(s, i);
        if run > 2 {
          return Err(MultipleStar);
        }
        StarCompiled();
        assert s[i..][run - 1] == s[i + run - 1];
        TracksToken(s, start, tokens, spelled, i, Star, Star, i + run);
        tokens := tokens + [Star];
        spelled := spelled + [Star];
        i := i + run;
      } else if s[i] == QUESTION {
        ReadQuestion(s, i);
        StarCompiled();
        TracksToken(s, start, tokens, spelled, i, Any, Any, i + 1);
        tokens := tokens + [Any];
        spelled := spelled + [Any];
        i := i + 1;
      } else {
        ReadByte(s, i);
        var at := i;
        if s[i] == BACKSLASH {
          at := i + 1;
          if at == |s| {
            return Err(StrayBackslash);
          }
          if s[at] == SLASH {
            return Err(InvalidEscape);
          }
        }
        TracksByte(s, start, tokens, spelled, i, at);
        tokens := PushLiteral(tokens, s[at]);
        spelled := spelled + [Literal([s[at]])];
        i := at + 1;
      }
    }
    TracksEnd(s, start, tokens, spelled, i);
    r := Ok(Compiled(tokens, i));
  }

  /** The tokens read so far and the text from `i` on say together what the segment is. */
  ghost predicate Tracks(s: Text, start: nat, tokens: seq<Token>, spelled: seq<Token>, i: nat) {
    ReadSoFar(s, start, spelled, i) && Compiling(tokens, spelled, s[i..])
  }

  lemma TracksStart(s: Text, start: nat)
    requires start <= |s| && IsUtf8(s[start..])
    ensures Tracks(s, start, [], [], start)
  {
    hide ReadSoFar, Compiling, IsUtf8;
    ReadStart(s, start);
    CompilingStart(s[start..]);
  }

  lemma TracksErr(s: Text, start: nat, tokens: seq<Token>, spelled: seq<Token>, i: nat)
    requires Tracks(s, start, tokens, spelled, i)
    ensures i <= |s| && (ParseSegment(s[i..]).Err? ==> ParseSegment(s[start..]) == ParseSegment(s[i..]))
  {
    hide Compiling, ParseSegment;
    ReadErr(s, start, spelled, i);
  }

  lemma TracksToken(s: Text, start: nat, tokens: seq<Token>, spelled: seq<Token>, i: nat, t: Token, u: Token, next: nat)
    requires Tracks(s, start, tokens, spelled, i) && i < next <= |s| && s[i] < 0x80 && s[next - 1] < 0x80
    requires !t.Literal? && CompiledToken(t) && SimilarToken(t, u)
    requires ParseSegment(s[i..]) == Then(u, ParseSegment(s[next..]))
    ensures Tracks(s, start, tokens + [t], spelled + [u], next)
  {
    hide ReadSoFar, Compiling, IsUtf8, CompiledToken, SimilarToken, ParseSegment;
    RunEnds(tokens, spelled, s[i..]);
    AfterAscii(s, i, next - 1);
    PushToken(tokens, spelled, s[i..], t, u, s[next..]);
    ReadMore(s, start, spelled, i, u, next);
  }

  lemma TracksByte(s: Text, start: nat, tokens: seq<Token>, spelled: seq<Token>, i: nat, at: nat)
    requires Tracks(s, start, tokens, spelled, i) && i <= at < |s| && s[at] != SLASH
    requires at == i || (at == i + 1 && s[i] == BACKSLASH)
    requires ParseSegment(s[i..]) == Then(Literal([s[at]]), ParseSegment(s[at + 1..]))
    ensures Tracks(s, start, PushLiteral(tokens, s[at]), spelled + [Literal([s[at]])], at + 1)
  {
    hide ReadSoFar, Compiling, IsUtf8, CompiledToken, SimilarToken, ParseSegment, PushLiteral;
    if at != i {
      RunEnds(tokens, spelled, s[i..]);
      AfterAscii(s, i, i);
      EscapeKeeps(tokens, spelled, s[i..], s[at..]);
    }
    assert s[at..] == [s[at]] + s[at + 1..];
    PushByte(tokens, spelled, s[at], s[at + 1..]);
    ReadMore(s, start, spelled, i, Literal([s[at]]), at + 1);
  }

  lemma TracksEnd(s: Text, start: nat, tokens: seq<Token>, spelled: seq<Token>, i: nat)
    requires Tracks(s, start, tokens, spelled, i) && i <= |s| && (i == |s| || s[i] == SLASH)
    ensures ParseSegment(s[start..]) == Ok(Reading(spelled, s[i..]))
    ensures CompiledTokens(tokens) && NoAdjacentLiterals(tokens) && Similar(Spell(tokens), spelled)
    ensures IsUtf8(s[i..]) && (i < |s| ==> IsUtf8(s[i + 1..]))
  {
    hide ReadSoFar, Compiling, IsUtf8, CompiledToken, Similar, Spell, ParseSegment;
    RunEnds(tokens, spelled, s[i..]);
    ReadEnd(s, start, spelled, i);
    CompilingSimilar(tokens, spelled, s[i..]);
    if i < |s| { assert s[i..][1..] == s[i + 1..]; }
  }

  lemma CompilingStart(rest: Text)
    requires IsUtf8(rest)
    ensures Compiling([], [], rest)
  {
    assert [] + rest == rest;
  }

  lemma CompilingSimilar(ts: seq<Token>, spelled: seq<Token>, rest: Text)
    requires Compiling(ts, spelled, rest)
    ensures Similar(Spell(ts), spelled) && NoAdjacentLiterals(ts)
  {
  }

  lemma ReadErr(s: Text, start: nat, us: seq<Token>, i: nat)
    requires ReadSoFar(s, start, us, i)
    ensures ParseSegment(s[i..]).Err? ==> ParseSegment(s[start..]) == ParseSegment(s[i..])
  {
    hide ParseSegment;
  }

  lemma ReadEnd(s: Text, start: nat, us: seq<Token>, i: nat)
    requires ReadSoFar(s, start, us, i) && (i == |s| || s[i] == SLASH)
    ensures ParseSegment(s[start..]) == Ok(Reading(us, s[i..]))
  {
    assert us + [] == us;
  }

  lemma AfterAscii(s: Text, i: nat, at: nat)
    requires i <= at < |s| && IsUtf8(s[i..]) && s[at] < 0x80
    ensures IsUtf8(s[at + 1..])
  {
    hide IsUtf8;
    CutUtf8(s[i..], at - i);
    assert s[i..][at - i + 1..] == s[at + 1..];
  }

  lemma ClassCompiled(negated: bool, ranges: seq<Range>, written: seq<Range>)
    requires SortedRanges(ranges) && forall v :: SameSet(ranges, written, v)
    ensures CompiledToken(Class(negated, ranges)) && SimilarToken(Class(negated, ranges), Class(negated, written))
  {
  }

  lemma StarCompiled()
    ensures CompiledToken(Star) && CompiledToken(Any) && SimilarToken(Star, Star) && SimilarToken(Any, Any)
  {
  }

  /** An escape vanishes: what it escapes follows the literal directly. */
  lemma EscapeKeeps(ts: seq<Token>, spelled: seq<Token>, rest: Text, next: Text)
    requires Compiling(ts, spelled, rest) && CompiledTokens(ts) && IsUtf8(next)
    ensures Compiling(ts, spelled, next)
  {
    hide Similar, Spell, IsUtf8;
    assert IsUtf8(Run(ts)) by {
      if LastIsLiteral(ts) { assert CompiledToken(ts[|ts| - 1]); } else { EmptyUtf8(); }
    }
    Utf8Concat(Run(ts), next);
  }

  // ---------- the kind of a segment ----------

  function Stars(ts: seq<Token>): (n: nat)
    ensures n == 0 <==> forall i :: 0 <= i < |ts| ==> !ts[i].Star?
  {
    if ts == [] then 0 else (if ts[0].Star? then 1 else 0) + Stars(ts[1..])
  }

  predicate Simple(ts: seq<Token>) {
    forall i :: 0 <= i < |ts| ==> ts[i].Literal? || ts[i].Star?
  }

  function KindOf(ts: seq<Token>): Kind {
    if !Simple(ts) || Stars(ts) > 1 then General else if Stars(ts) == 1 then Affix else Plain
  }

  lemma {:induction false} OneStar(ts: seq<Token>) returns (k: nat)
    requires Stars(ts) == 1
    ensures k < |ts| && ts[k].Star? && forall i :: 0 <= i < |ts| && i != k ==> !ts[i].Star?
  {
    if ts[0].Star? {
      k := 0;
      assert forall i :: 0 < i < |ts| ==> ts[i] == ts[1..][i - 1];
    } else {
      var j := OneStar(ts[1..]);
      k := j + 1;
      assert forall i :: 0 < i < |ts| ==> ts[i] == ts[1..][i - 1];
    }
  }

  lemma NotBothLiterals(ts: seq<Token>, i: int)
    requires NoAdjacentLiterals(ts) && 0 <= i < i + 1 < |ts|
    ensures !(ts[i].Literal? && ts[i + 1].Literal?)
  {
  }

  /** Without two literals in a row, few tokens are left around a single star. */
  lemma KindShapes(ts: seq<Token>)
    requires NoAdjacentLiterals(ts)
    ensures KindOf(ts).Plain? ==> ts == [] || (|ts| == 1 && ts[0].Literal?)
    ensures KindOf(ts).Affix? ==> AffixTokens(ts)
  {
    if KindOf(ts).Plain? {
      if |ts| > 1 { NotBothLiterals(ts, 0); }
    } else if KindOf(ts).Affix? {
      var k := OneStar(ts);
      if k > 1 { NotBothLiterals(ts, 0); }
      if k + 2 < |ts| { NotBothLiterals(ts, k + 1); }
    }
  }

  function MakeSegment(ts: seq<Token>): Segment {
    var hasFirst := ts != [] && ts[0].Literal? && ts[0].text != [];
    Segment(KindOf(ts), ts, false, false, hasFirst, if hasFirst then ts[0].text[0] else 0)
  }

  const GLOBSTAR_SEGMENT := Segment(Recursive, [], false, false, false, 0)

  lemma MadeSegmentCompiled(ts: seq<Token>)
    requires CompiledTokens(ts) && NoAdjacentLiterals(ts)
    ensures CompiledSegment(MakeSegment(ts)) && PartOf(MakeSegment(ts)) == Part(ts)
  {
    hide KindOf, IsUtf8, AffixTokens, SortedRanges, NoAdjacentLiterals;
    KindShapes(ts);
    if ts != [] { assert CompiledToken(ts[0]); }
    KindNotRecursive(ts);
    KindOfNone();
  }

  lemma KindOfNone()
    ensures KindOf([]) == Plain
  {
  }

  lemma KindNotRecursive(ts: seq<Token>)
    ensures !KindOf(ts).Recursive?
  {
  }

  // ---------- compiled parts and the parts as spelled ----------

  ghost predicate SimilarPart(a: Part, b: Part) {
    if a.Globstar? || b.Globstar? then a == b
    else Similar(Spell(a.tokens), b.tokens) && (a.tokens == [] <==> b.tokens == [])
  }

  ghost predicate SimilarParts(a: seq<Part>, b: seq<Part>) {
    |a| == |b| && forall i :: 0 <= i < |a| ==> SimilarPart(a[i], b[i])
  }

  lemma SimilarGlobstars(a: seq<Part>, b: seq<Part>)
    requires SimilarParts(a, b)
    ensures AllGlobstars(a) <==> AllGlobstars(b)
  {
    hide Similar, Spell;
    assert forall i :: 0 <= i < |a| ==> (a[i].Globstar? <==> b[i].Globstar?) by {
      assert forall i :: 0 <= i < |a| ==> SimilarPart(a[i], b[i]);
    }
  }

  lemma {:induction false} SimilarAccept(a: seq<Part>, b: seq<Part>, path: seq<Text>)
    requires SimilarParts(a, b) && a != [] && path != []
    ensures S(a, path) <==> S(b, path)
    decreases |a|
  {
    hide Similar, Spell, G, AllGlobstars;
    assert SimilarPart(a[0], b[0]);
    if |a| > 1 {
      assert SimilarParts(a[1..], b[1..]);
      SimilarGlobstars(a[1..], b[1..]);
    }
    if a[0].Globstar? {
      if |a| > 1 {
        forall k | 0 <= k < |path| ensures S(a[1..], path[k..]) <==> S(b[1..], path[k..]) {
          SimilarAccept(a[1..], b[1..], path[k..]);
        }
      }
    } else {
      SpellMatches(a[0].tokens, path[0]);
      SimilarMatches(Spell(a[0].tokens), b[0].tokens, path[0]);
      if |a| > 1 && |path| > 1 { SimilarAccept(a[1..], b[1..], path[1..]); }
    }
  }

  lemma SpellEmpty(ts: seq<Token>, spelled: seq<Token>)
    requires CompiledTokens(ts) && Similar(Spell(ts), spelled)
    ensures ts == [] <==> spelled == []
  {
    if ts != [] { assert CompiledToken(ts[0]); }
  }

  function PrependParts(done: seq<Part>, r: Result<seq<Part>>): Result<seq<Part>> {
    match r
    case Ok(p) => Ok(done + p)
    case Err(e) => Err(e)
  }

  lemma PrependConsPart(done: seq<Part>, x: Part, r: Result<seq<Part>>)
    ensures PrependParts(done, ConsPart(x, r)) == PrependParts(done + [x], r)
  {
    if r.Ok? { assert done + ([x] + r.value) == done + [x] + r.value; }
  }

  // ---------- compile_arm ----------

  /** One turn of the segment loop, on the side of the text. */
  lemma PartAt(s: Text, i: nat, may: bool, end: nat)
    requires i <= end <= |s| && ParseSegment(s[i..]).Ok? && s[end..] == ParseSegment(s[i..]).value.rest
    ensures var part := if may && IsGlobstar(s[i..end]) then Globstar else Part(ParseSegment(s[i..]).value.tokens);
            ParseParts(s[i..], may) ==
            if end == |s| then Ok([part])
            else if end + 1 < |s| && s[end + 1] == SLASH then Err(MultipleSlash)
            else ConsPart(part, ParseParts(s[end + 1..], true))
  {
    hide ParseSegment;
    var t, rest := s[i..], s[end..];
    assert |rest| == |s| - end;
    assert t[..|t| - |rest|] == s[i..end];
    if end < |s| { assert rest[1..] == s[end + 1..]; }
    if end + 1 < |s| { assert rest[1] == s[end + 1]; }
  }

  ghost predicate PartsSoFar(s: Text, atStart: bool, done: seq<Part>, i: nat) {
    i <= |s| && ParseParts(s, atStart) == PrependParts(done, ParseParts(s[i..], i != 0 || atStart))
  }

  lemma PartsStart(s: Text, atStart: bool)
    ensures PartsSoFar(s, atStart, [], 0)
  {
    hide ParseParts;
    assert s[0..] == s;
    var r := ParseParts(s, atStart);
    if r.Ok? { assert [] + r.value == r.value; }
  }

  lemma PartsMore(s: Text, atStart: bool, done: seq<Part>, i: nat, part: Part, next: nat)
    requires PartsSoFar(s, atStart, done, i) && 0 < next <= |s|
    requires ParseParts(s[i..], i != 0 || atStart) == ConsPart(part, ParseParts(s[next..], true))
    ensures PartsSoFar(s, atStart, done + [part], next)
  {
    hide ParseParts;
    PrependConsPart(done, part, ParseParts(s[next..], true));
  }

  lemma PartsLast(s: Text, atStart: bool, done: seq<Part>, i: nat, part: Part)
    requires PartsSoFar(s, atStart, done, i) && ParseParts(s[i..], i != 0 || atStart) == Ok([part])
    ensures ParseParts(s, atStart) == Ok(done + [part])
  {
    hide ParseParts;
  }

  lemma PartsErr(s: Text, atStart: bool, done: seq<Part>, i: nat)
    requires PartsSoFar(s, atStart, done, i) && ParseParts(s[i..], i != 0 || atStart).Err?
    ensures ParseParts(s, atStart) == ParseParts(s[i..], i != 0 || atStart)
  {
    hide ParseParts;
  }

  lemma SegmentErr(s: Text, may: bool)
    requires ParseSegment(s).Err?
    ensures ParseParts(s, may) == Err(ParseSegment(s).error)
  {
    hide ParseSegment;
  }

  lemma MoreSegments(segs: seq<Segment>, done: seq<Part>, g: Segment, part: Part)
    requires CompiledSegments(segs) && SimilarParts(Parts(segs), done)
    requires CompiledSegment(g) && SimilarPart(PartOf(g), part)
    ensures CompiledSegments(segs + [g]) && SimilarParts(Parts(segs + [g]), done + [part])
  {
    hide CompiledSegment, SimilarPart;
  }

  /** All segments of an arm, before the trailing separator rule. */
  method CompileSegments(s: Text, atStart: bool) returns (r: Result<seq<Segment>>)
    requires IsUtf8(s)
    ensures r.Err? ==> ParseParts(s, atStart) == Err(r.error)
    ensures r.Ok? ==>
              && ParseParts(s, atStart).Ok? && r.value != []
              && CompiledSegments(r.value) && SimilarParts(Parts(r.value), ParseParts(s, atStart).value)
  {
    hide ParseParts, ParseSegment, IsUtf8, CompiledSegment, CompiledSegments, SimilarParts, SimilarPart, Similar,
         Spell, PartsSoFar, CompiledTokens, NoAdjacentLiterals, MakeSegment;
    var i: nat, segs: seq<Segment> := 0, [];
    ghost var done: seq<Part> := [];
    PartsStart(s, atStart);
    NoSegments();
    assert s[0..] == s;
    while true
      invariant i <= |s| && IsUtf8(s[i..])
      invariant PartsSoFar(s, atStart, done, i)
      invariant CompiledSegments(segs) && SimilarParts(Parts(segs), done)
      decreases |s| - i
    {
      var may := i != 0 || atStart;
      var compiled := CompileSegment(s, i);
      if compiled.Err? {
        SegmentErr(s[i..], may);
        PartsErr(s, atStart, done, i);
        return Err(compiled.error);
      }
      var tokens, end := compiled.value.tokens, compiled.value.end;
      ghost var spelled := ParseSegment(s[i..]).value.tokens;
      PartAt(s, i, may, end);
      SpellEmpty(tokens, spelled);
      var segment := if may && IsGlobstar(s[i..end]) then GLOBSTAR_SEGMENT else MakeSegment(tokens);
      ghost var part := if may && IsGlobstar(s[i..end]) then Globstar else Part(spelled);
      SegmentIsSimilar(segment, part, tokens, spelled);
      MoreSegments(segs, done, segment, part);
      segs := segs + [segment];
      if end == |s| {
        PartsLast(s, atStart, done, i, part);
        return Ok(segs);
      }
      if end + 1 != |s| && s[end + 1] == SLASH {
        PartsErr(s, atStart, done, i);
        return Err(MultipleSlash);
      }
      PartsMore(s, atStart, done, i, part, end + 1);
      done := done + [part];
      i := end + 1;
    }
  }

  lemma NoSegments()
    ensures CompiledSegments([]) && SimilarParts(Parts([]), [])
  {
  }

  lemma SegmentIsSimilar(g: Segment, part: Part, tokens: seq<Token>, spelled: seq<Token>)
    requires CompiledTokens(tokens) && NoAdjacentLiterals(tokens) && Similar(Spell(tokens), spelled)
    requires tokens == [] <==> spelled == []
    requires (g == GLOBSTAR_SEGMENT && part == Globstar) || (g == MakeSegment(tokens) && part == Part(spelled))
    ensures CompiledSegment(g) && SimilarPart(PartOf(g), part)
  {
    hide Similar, Spell, MakeSegment;
    MadeSegmentCompiled(tokens);
  }

  const STAR_SEGMENT := Segment(Affix, [Star], false, false, false, 0)

  /** A trailing separator after a globstar becomes a star. */
  function FinishSegments(segs: seq<Segment>): (r: seq<Segment>)
    ensures |r| == |segs|
  {
    var n := |segs|;
    if n >= 2 && segs[n - 2].kind.Recursive? && segs[n - 1].kind.Plain? && segs[n - 1].tokens == [] then
      segs[..n - 1] + [STAR_SEGMENT]
    else segs
  }

  lemma FinishSimilar(segs: seq<Segment>, p: seq<Part>)
    requires CompiledSegments(segs) && SimilarParts(Parts(segs), p) && segs != []
    ensures CompiledSegments(FinishSegments(segs)) && SimilarParts(Parts(FinishSegments(segs)), Finish(p))
  {
    hide CompiledSegments, SimilarParts, Parts, Finish, FinishSegments;
    TrailSame(segs, p);
    ButLast(segs, p);
    StarSimilar();
    MoreSegments(segs[..|segs| - 1], p[..|p| - 1], STAR_SEGMENT, Part([Star]));
  }

  lemma TrailSame(segs: seq<Segment>, p: seq<Part>)
    requires CompiledSegments(segs) && SimilarParts(Parts(segs), p) && segs != []
    ensures |p| == |segs|
    ensures || (FinishSegments(segs) == segs && Finish(p) == p)
            || (&& FinishSegments(segs) == segs[..|segs| - 1] + [STAR_SEGMENT]
                && Finish(p) == p[..|p| - 1] + [Part([Star])])
  {
    hide SimilarPart, CompiledSegment;
    var n := |segs|;
    if n >= 2 {
      assert SimilarPart(Parts(segs)[n - 1], p[n - 1]) && SimilarPart(Parts(segs)[n - 2], p[n - 2]);
      SimilarShape(segs[n - 1], p[n - 1]);
      SimilarShape(segs[n - 2], p[n - 2]);
    }
  }

  lemma ButLast(segs: seq<Segment>, p: seq<Part>)
    requires CompiledSegments(segs) && SimilarParts(Parts(segs), p) && segs != []
    ensures CompiledSegments(segs[..|segs| - 1]) && SimilarParts(Parts(segs[..|segs| - 1]), p[..|p| - 1])
  {
    hide SimilarPart, CompiledSegment;
    assert Parts(segs[..|segs| - 1]) == Parts(segs)[..|segs| - 1];
  }

  lemma SimilarShape(g: Segment, part: Part)
    requires CompiledSegment(g) && SimilarPart(PartOf(g), part)
    ensures part.Globstar? <==> g.kind.Recursive?
    ensures part == Part([]) <==> g.kind.Plain? && g.tokens == []
  {
    hide Similar, Spell;
    if g.tokens == [] { KindOfEmpty(g); }
  }

  lemma KindOfEmpty(g: Segment)
    requires CompiledSegment(g) && g.tokens == []
    ensures g.kind.Recursive? || g.kind.Plain?
  {
  }

  lemma StarSimilar()
    ensures CompiledSegment(STAR_SEGMENT) && SimilarPart(PartOf(STAR_SEGMENT), Part([Star]))
  {
    assert Spell([Star]) == [Star];
  }

  lemma SimilarNoEmpty(a: seq<Part>, b: seq<Part>)
    requires SimilarParts(a, b) && NoEmptyAfterGlobstar(b)
    ensures NoEmptyAfterGlobstar(a)
  {
    hide Similar, Spell;
    forall i | 0 < i < |a| && a[i] == Part([]) ensures !a[i - 1].Globstar? {
      assert SimilarPart(a[i], b[i]) && SimilarPart(a[i - 1], b[i - 1]);
    }
  }

  /** An arm compiles exactly when its text parses, into segments that spell the same. */
  method CompileArm(s: Text, atStart: bool) returns (r: Result<Arm>)
    requires IsUtf8(s)
    ensures r.Err? ==> ParsePattern(s, atStart) == Err(r.error)
    ensures r.Ok? ==>
              && ParsePattern(s, atStart).Ok?
              && GoodArm(r.value) && SimilarParts(Parts(r.value.segs), ParsePattern(s, atStart).value)
  {
    hide ParseParts, IsUtf8, CompiledSegment, CompiledSegments, SimilarParts, CompiledArm, MakeArm,
         NoEmptyAfterGlobstar, FinishSegments, Finish, Parts;
    var compiled := CompileSegments(s, atStart);
    if compiled.Err? {
      return Err(compiled.error);
    }
    FinishSimilar(compiled.value, ParseParts(s, atStart).value);
    FinishHasNoEmptyAfterGlobstar(s, atStart);
    var segs := FinishSegments(compiled.value);
    SimilarNoEmpty(Parts(segs), ParsePattern(s, atStart).value);
    segs := ComputeBits(segs);
    r := Ok(MakeArm(segs));
  }
}
