/** Creating a pattern: literal head, braces, arms and mode. A created pattern accepts a
    path exactly when some choice of brace terms spells a pattern that does. */
module GlobCreate {
  import opened GlobText
  import opened GlobSpec
  import opened GlobTokens
  import opened GlobExecute
  import opened GlobPlans
  import opened GlobPattern
  import opened GlobClass
  import opened GlobSyntax
  import opened GlobBraces
  import opened GlobCompile

  // ---------- the literal head ----------

  predicate BadEscape(s: Text) {
    s != [] && s[0] == BACKSLASH && (|s| == 1 || s[1] == SLASH)
  }

  /** How much of the text comes before its first wildcard, or an escape no pattern has. */
  function HeadSize(s: Text): (n: nat)
    ensures n <= |s|
    decreases |s|
  {
    if s == [] || Wildcard(s[0]) || BadEscape(s) then 0
    else if s[0] == BACKSLASH then 2 + HeadSize(s[2..])
    else 1 + HeadSize(s[1..])
  }

  lemma {:induction false} HeadIsLiteral(s: Text)
    ensures LiteralRaw(s[..HeadSize(s)])
    ensures var rest := s[HeadSize(s)..]; rest == [] || Wildcard(rest[0]) || BadEscape(rest)
    decreases |s|
  {
    hide LiteralRaw;
    if s == [] || Wildcard(s[0]) || BadEscape(s) {
      assert s[..0] == [] && s[0..] == s;
      EmptyLiteral();
    } else {
      var n := UnitSize(s);
      HeadIsLiteral(s[n..]);
      var h := HeadSize(s[n..]);
      Slices(s, n, h);
      LiteralUnit(s[..n + h]);
    }
  }

  lemma Slices(s: Text, n: nat, h: nat)
    requires n + h <= |s|
    ensures s[..n + h][n..] == s[n..][..h] && s[n..][h..] == s[n + h..]
  {
  }

  method LiteralHead(s: Text) returns (text: Text, end: nat)
    ensures end == HeadSize(s)
    ensures LiteralRaw(s[..end]) && text == Resolve(s[..end])
  {
    hide LiteralRaw, Resolve, HeadSize;
    ghost var h := HeadSize(s);
    HeadIsLiteral(s);
    text, end := [], 0;
    assert s[0..] == s && s[0..h] == s[..h];
    EmptyLiteral();
    while end < |s| && !Wildcard(s[end])
      invariant end <= h == end + HeadSize(s[end..])
      invariant LiteralRaw(s[..h]) && LiteralRaw(s[end..h])
      invariant Resolve(s[..h]) == text + Resolve(s[end..h])
      decreases |s| - end
    {
      ghost var at := end;
      if s[end] == BACKSLASH {
        if end + 1 == |s| || s[end + 1] == SLASH {
          break;
        }
        end := end + 1;
      }
      HeadStep(s, at, h);
      text := text + [s[end]];
      end := end + 1;
    }
    HeadStops(s, end);
    assert s[h..h] == [];
  }

  lemma HeadStep(s: Text, at: nat, h: nat)
    requires at < |s| && !Wildcard(s[at]) && !BadEscape(s[at..])
    requires at <= h <= |s| && h == at + HeadSize(s[at..]) && LiteralRaw(s[at..h])
    ensures var n := UnitSize(s[at..]);
            && at + n <= h && h == at + n + HeadSize(s[at + n..]) && LiteralRaw(s[at + n..h])
            && forall text: Text :: text + Resolve(s[at..h]) == text + [s[at + n - 1]] + Resolve(s[at + n..h])
  {
    hide LiteralRaw, Resolve;
    var t, n := s[at..], UnitSize(s[at..]);
    assert t[n..] == s[at + n..];
    LiteralUnit(s[at..h]);
    assert s[at..h][n..] == s[at + n..h];
  }

  lemma HeadStops(s: Text, end: nat)
    requires end <= |s| && (end == |s| || Wildcard(s[end]) || BadEscape(s[end..]))
    ensures HeadSize(s[end..]) == 0
  {
  }

  // ---------- what a pattern text asks for ----------

  /** The brace expressions that are expanded; none when expansion is off. */
  function SpecBraces(s: Text, maxArms: nat): Result<seq<Brace>> {
    var h := HeadSize(s);
    if maxArms == 0 || LBRACE !in s[h..] then Ok([]) else Outside(s, h)
  }

  lemma SpecBracesGood(s: Text, maxArms: nat)
    requires SpecBraces(s, maxArms).Ok?
    ensures InOrder(s, HeadSize(s), SpecBraces(s, maxArms).value) && HasTerms(SpecBraces(s, maxArms).value)
    ensures SpecBraces(s, maxArms).value != [] ==> WellBraced(s, HeadSize(s), SpecBraces(s, maxArms).value)
  {
    hide Outside, WellBraced, HeadSize;
    var h := HeadSize(s);
    if !(maxArms == 0 || LBRACE !in s[h..]) {
      QuietEmpty(s, h);
      OutsideSound(s, h, h);
      WellBracedInOrder(s, h, SpecBraces(s, maxArms).value);
    }
  }

  /** The whole pattern text under a choice of terms. */
  function Expansion(s: Text, braces: seq<Brace>, choice: seq<nat>): Text
    requires InOrder(s, HeadSize(s), braces) && ValidChoice(choice, braces)
  {
    s[..HeadSize(s)] + ArmText(s, HeadSize(s), braces, choice)
  }

  /** The choice of terms spells a pattern. */
  predicate Spells(s: Text, braces: seq<Brace>, choice: seq<nat>) {
    && InOrder(s, HeadSize(s), braces) && ValidChoice(choice, braces)
    && ParsePattern(Expansion(s, braces, choice), true).Ok?
  }

  /** It compiles: UTF-8, well-formed braces, not too many arms, and each of them a pattern. */
  ghost predicate Compiles(s: Text, maxArms: nat) {
    && IsUtf8(s) && SpecBraces(s, maxArms).Ok?
    && var braces := SpecBraces(s, maxArms).value;
    && (braces != [] ==> Count(braces) <= maxArms)
    && forall choice :: ValidChoice(choice, braces) ==> Spells(s, braces, choice)
  }

  ghost predicate SpellsFor(s: Text, braces: seq<Brace>, choice: seq<nat>, path: Text) {
    Spells(s, braces, choice) && Accepts(ParsePattern(Expansion(s, braces, choice), true).value, path)
  }

  /** Some choice of brace terms spells a pattern that matches the path. */
  ghost predicate Matches(s: Text, maxArms: nat, path: Text) {
    && SpecBraces(s, maxArms).Ok?
    && exists choice :: SpellsFor(s, SpecBraces(s, maxArms).value, choice, path)
  }

  // ---------- one arm ----------

  /** Behind the prefix, the arm accepts what its choice spells. */
  ghost predicate ArmFor(s: Text, braces: seq<Brace>, arm: Arm, choice: seq<nat>, text: Text) {
    && GoodArm(arm) && Spells(s, braces, choice)
    && forall path :: ArmAgrees(s, braces, arm, choice, text, path)
  }

  ghost predicate ArmAgrees(s: Text, braces: seq<Brace>, arm: Arm, choice: seq<nat>, text: Text, path: Text)
    requires GoodArm(arm)
  {
    BehindPrefix(WithoutSeparator(text), AtSegmentEnd(text), Parts(arm.segs), path) <==>
    SpellsFor(s, braces, choice, path)
  }

  lemma SimilarBehind(prefix: Text, atEnd: bool, a: seq<Part>, b: seq<Part>, path: Text)
    requires a != [] && SimilarParts(a, b)
    ensures BehindPrefix(prefix, atEnd, a, path) <==> BehindPrefix(prefix, atEnd, b, path)
  {
    hide S, SimilarParts, Split, AllGlobstars;
    SimilarLength(a, b);
    SimilarGlobstars(a, b);
    if prefix <= path {
      var rest := path[|prefix|..];
      SimilarAccept(a, b, Split(rest));
      if rest != [] { SimilarAccept(a, b, Split(rest[1..])); }
    }
  }

  lemma SimilarLength(a: seq<Part>, b: seq<Part>)
    requires SimilarParts(a, b)
    ensures |a| == |b|
  {
  }

  /** When the choice's text compiles behind the prefix, the arm stands for the choice. */
  lemma ArmStands(s: Text, braces: seq<Brace>, choice: seq<nat>, arm: Arm)
    requires InOrder(s, HeadSize(s), braces) && ValidChoice(choice, braces)
    requires LiteralRaw(s[..HeadSize(s)]) && !DoubleSlash(s[..HeadSize(s)])
    requires var head := s[..HeadSize(s)];
             var armText := ArmText(s, HeadSize(s), braces, choice);
             && !(AtSegmentEnd(head) && armText != [] && armText[0] == SLASH)
             && ParsePattern(armText, AtStart(Resolve(head))).Ok?
             && GoodArm(arm) && SimilarParts(Parts(arm.segs), ParsePattern(armText, AtStart(Resolve(head))).value)
    ensures ArmFor(s, braces, arm, choice, Resolve(s[..HeadSize(s)]))
  {
    hide ArmText, ParsePattern, LiteralRaw, Resolve, DoubleSlash, SimilarParts, BehindPrefix, Accepts, CompiledArm,
         MakeArm, HeadSize, InOrder, Parts;
    var head := s[..HeadSize(s)];
    var armText := ArmText(s, HeadSize(s), braces, choice);
    var text := Resolve(head);
    PrefixSplits(head, armText);
    SegsNotEmptyOne(arm);
    var parts := ParsePattern(armText, AtStart(text)).value;
    forall path ensures ArmAgrees(s, braces, arm, choice, text, path) {
      SimilarBehind(WithoutSeparator(text), AtSegmentEnd(text), Parts(arm.segs), parts, path);
      SimilarLength(Parts(arm.segs), parts);
      assert PrefixMeans(text, ParsePattern(head + armText, true).value, parts, path);
    }
  }

  lemma SegsNotEmptyOne(arm: Arm)
    requires GoodArm(arm)
    ensures Parts(arm.segs) != []
  {
    hide RightBits, NoEmptyAfterGlobstar, CompiledSegments, MakeArm;
  }

  /** When it does not, no pattern is spelled. */
  lemma ArmFails(s: Text, braces: seq<Brace>, choice: seq<nat>)
    requires InOrder(s, HeadSize(s), braces) && ValidChoice(choice, braces) && LiteralRaw(s[..HeadSize(s)])
    requires var head := s[..HeadSize(s)];
             var armText := ArmText(s, HeadSize(s), braces, choice);
             || DoubleSlash(head)
             || (AtSegmentEnd(head) && armText != [] && armText[0] == SLASH)
             || ParsePattern(armText, AtStart(Resolve(head))).Err?
    ensures !Spells(s, braces, choice)
    ensures var head := s[..HeadSize(s)];
            var armText := ArmText(s, HeadSize(s), braces, choice);
            ParsePattern(Expansion(s, braces, choice), true) ==
            Err(if DoubleSlash(head) || (AtSegmentEnd(head) && armText != [] && armText[0] == SLASH) then MultipleSlash
                else ParsePattern(armText, AtStart(Resolve(head))).error)
  {
    hide ArmText, ParsePattern, LiteralRaw, Resolve, DoubleSlash, HeadSize, InOrder, PrefixMeans;
    PrefixSplits(s[..HeadSize(s)], ArmText(s, HeadSize(s), braces, choice));
  }

  function FirstChoice(braces: seq<Brace>): seq<nat> { seq(|braces|, _ => 0) }

  lemma FirstChoiceValid(braces: seq<Brace>)
    requires HasTerms(braces)
    ensures ValidChoice(FirstChoice(braces), braces)
  {
  }

  /** An escape no pattern has, right behind the head, is in every arm. */
  lemma BadEscapeFails(s: Text, maxArms: nat)
    requires BadEscape(s[HeadSize(s)..])
    ensures !Compiles(s, maxArms)
  {
    hide Outside, WellBraced, Spells, LiteralRaw, HeadSize, IsUtf8, ParsePattern, Resolve;
    if SpecBraces(s, maxArms).Ok? {
      var braces, h := SpecBraces(s, maxArms).value, HeadSize(s);
      SpecBracesGood(s, maxArms);
      HeadIsLiteral(s);
      FirstChoiceValid(braces);
      var choice := FirstChoice(braces);
      BadEscapeStays(s, h, braces, choice);
      BadEscapeNoPattern(ArmText(s, h, braces, choice), AtStart(Resolve(s[..h])));
      ArmFails(s, braces, choice);
    }
  }

  lemma BadEscapeStays(s: Text, h: nat, braces: seq<Brace>, choice: seq<nat>)
    requires h <= |s| && BadEscape(s[h..]) && InOrder(s, h, braces) && ValidChoice(choice, braces)
    requires braces != [] ==> WellBraced(s, h, braces)
    ensures BadEscape(ArmText(s, h, braces, choice))
  {
    if braces != [] {
      var b := braces[0];
      assert Quiet(s, h, b.begin, false);
      assert b.begin >= h + 2;
      var t := ArmText(s, h, braces, choice);
      assert t[0] == s[h] && t[1] == s[h + 1];
    }
  }

  lemma BadEscapeNoPattern(t: Text, may: bool)
    requires BadEscape(t)
    ensures ParsePattern(t, may).Err?
  {
  }

  lemma DoubleSlashFails(s: Text, maxArms: nat)
    requires DoubleSlash(s[..HeadSize(s)])
    ensures !Compiles(s, maxArms)
  {
    hide Outside, WellBraced, Spells, LiteralRaw, HeadSize, IsUtf8, ParsePattern, Resolve, DoubleSlash, ArmText;
    if SpecBraces(s, maxArms).Ok? {
      var braces := SpecBraces(s, maxArms).value;
      SpecBracesGood(s, maxArms);
      HeadIsLiteral(s);
      FirstChoiceValid(braces);
      ArmFails(s, braces, FirstChoice(braces));
    }
  }

  // ---------- a literal pattern ----------

  lemma LiteralPattern(s: Text, maxArms: nat)
    requires IsUtf8(s) && HeadSize(s) == |s| && LiteralRaw(s) && !DoubleSlash(s)
    ensures Compiles(s, maxArms)
    ensures forall path :: path == Resolve(s) <==> Matches(s, maxArms, path)
  {
    hide LiteralRaw, Resolve, DoubleSlash, IsUtf8, HeadSize, Accepts, BehindPrefix, PrefixMeans;
    var text := Resolve(s);
    assert s[..|s|] == s && s[|s|..] == [] && s + [] == s;
    PrefixSplits(s, []);
    EmptyPattern(AtStart(text));
    forall choice: seq<nat> | ValidChoice(choice, []) ensures Spells(s, [], choice) {
      assert Expansion(s, [], choice) == s;
    }
    forall path ensures path == text <==> Matches(s, maxArms, path) {
      assert PrefixMeans(text, ParsePattern(s, true).value, [Part([])], path);
      LiteralPrefixMeans(text, ParsePattern(s, true).value, path);
      if Matches(s, maxArms, path) {
        var choice :| SpellsFor(s, [], choice, path);
        assert Expansion(s, [], choice) == s;
      }
      if Accepts(ParsePattern(s, true).value, path) {
        var none: seq<nat> := [];
        assert Spells(s, [], none) && Expansion(s, [], none) == s;
        assert SpellsFor(s, SpecBraces(s, maxArms).value, none, path);
      }
    }
  }

  lemma EmptyPattern(may: bool)
    ensures ParsePattern([], may) == Ok([Part([])])
  {
  }

  lemma LiteralPrefixMeans(text: Text, full: seq<Part>, path: Text)
    requires full != [] && PrefixMeans(text, full, [Part([])], path)
    ensures Accepts(full, path) <==> path == text
  {
    hide S, Split, Accepts, G, AtSegmentEnd, WithoutSeparator;
    var prefix := WithoutSeparator(text);
    SeparatorBack(text);
    if prefix <= path {
      var rest := path[|prefix|..];
      assert path == prefix + rest && prefix + [] == prefix;
      assert |text| == |prefix| + if AtSegmentEnd(text) then 1 else 0;
      EmptyPartAccepts(rest);
      if rest != [] {
        EmptyPartAccepts(rest[1..]);
        assert rest == [rest[0]] + rest[1..];
      }
    }
  }

  lemma SeparatorBack(text: Text)
    ensures text == WithoutSeparator(text) + if AtSegmentEnd(text) then [SLASH] else []
    ensures WithoutSeparator(text) <= text
  {
  }

  lemma EmptyPartAccepts(s: Text)
    ensures Accepts([Part([])], s) <==> s == []
    ensures !AllGlobstars([Part([])])
  {
    hide S, Split, Accepts, G;
    assert ![Part([])][0].Globstar?;
    FinalSegment([Part([])], s);
    EmptyTokens(s);
  }

  // ---------- create ----------

  /** How much of the text is UTF-8: all of it, or up to where no character starts. */
  method FindInvalidUtf8(s: Text) returns (at: nat)
    ensures at <= |s| && IsUtf8(s[..at]) && (at < |s| ==> !StartsCharacter(s[at..]))
    ensures at == |s| <==> IsUtf8(s)
  {
    hide StartsCharacter, AtomLen, AtomValue;
    at := 0;
    assert s[0..] == s && s[..0] == [];
    while at != |s|
      invariant at <= |s| && (IsUtf8(s) <==> IsUtf8(s[at..])) && IsUtf8(s[..at])
      decreases |s| - at
    {
      AtomRange(s[at..]);
      if AtomValue(s[at..]) >= INVALID_ATOM_BASE {
        return;
      }
      OneMoreCharacter(s, at);
      assert s[at..][AtomLen(s[at..])..] == s[at + AtomLen(s[at..])..];
      at := at + AtomLen(s[at..]);
    }
  }

  lemma OneMoreCharacter(s: Text, at: nat)
    requires at < |s| && StartsCharacter(s[at..]) && IsUtf8(s[..at])
    ensures IsUtf8(s[..at + AtomLen(s[at..])])
  {
    hide AtomValue;
    var rest, n := s[at..], AtomLen(s[at..]);
    assert StartsCharacter(rest[..n]) && AtomLen(rest[..n]) == n && rest[..n][n..] == [];
    Utf8Concat(s[..at], rest[..n]);
    assert s[..at] + rest[..n] == s[..at + n];
  }

  method CountArms(braces: seq<Brace>) returns (n: nat)
    ensures n == Count(braces)
  {
    n := 1;
    for k := 0 to |braces|
      invariant n == Count(braces[..k])
    {
      assert braces[..k + 1][..k] == braces[..k];
      n := n * |braces[k].terms|;
    }
    assert braces[..|braces|] == braces;
  }

  /** The arms made so far: one for each choice, in order. */
  ghost predicate ArmsSoFar(s: Text, braces: seq<Brace>, arms: seq<Arm>, visited: seq<seq<nat>>, text: Text) {
    && |visited| == |arms|
    && forall j :: 0 <= j < |arms| ==>
         && ValidChoice(visited[j], braces) && Rank(visited[j], braces) == j
         && ArmFor(s, braces, arms[j], visited[j], text)
  }

  lemma ArmsMore(s: Text, braces: seq<Brace>, arms: seq<Arm>, visited: seq<seq<nat>>, text: Text, arm: Arm,
                 choice: seq<nat>)
    requires ArmsSoFar(s, braces, arms, visited, text)
    requires ValidChoice(choice, braces) && Rank(choice, braces) == |arms| && ArmFor(s, braces, arm, choice, text)
    ensures ArmsSoFar(s, braces, arms + [arm], visited + [choice], text)
  {
    hide ArmFor, Rank;
  }

  lemma ArmsGood(s: Text, braces: seq<Brace>, arms: seq<Arm>, visited: seq<seq<nat>>, text: Text)
    requires ArmsSoFar(s, braces, arms, visited, text)
    ensures GoodArms(arms)
  {
    hide GoodArm, Rank, Spells, ArmAgrees;
    forall j | 0 <= j < |arms| ensures GoodArm(arms[j]) { assert ArmFor(s, braces, arms[j], visited[j], text); }
  }

  /** With as many arms as choices, every choice has its arm. */
  lemma AllVisited(s: Text, braces: seq<Brace>, arms: seq<Arm>, visited: seq<seq<nat>>, text: Text, choice: seq<nat>)
    requires ArmsSoFar(s, braces, arms, visited, text) && |arms| == Count(braces) && ValidChoice(choice, braces)
    ensures Rank(choice, braces) < |arms| && ArmFor(s, braces, arms[Rank(choice, braces)], choice, text)
  {
    hide ArmFor, Rank, Count;
    RankBelowCount(choice, braces);
    var j := Rank(choice, braces);
    RankInjective(choice, visited[j], braces);
  }

  lemma ArmsMean(s: Text, maxArms: nat, arms: seq<Arm>, visited: seq<seq<nat>>, text: Text, pat: Pattern, path: Text)
    requires SpecBraces(s, maxArms).Ok?
    requires ArmsSoFar(s, SpecBraces(s, maxArms).value, arms, visited, text)
    requires |arms| == Count(SpecBraces(s, maxArms).value) && arms != []
    requires GoodArms(pat.arms) && multiset(pat.arms) == multiset(arms)
    requires pat.prefix == WithoutSeparator(text) && pat.atSegmentEnd == AtSegmentEnd(text)
    ensures Means(pat, path) <==> Matches(s, maxArms, path)
  {
    hide GoodArm, Rank, Count, Spells, SpecBraces, BehindPrefix, Parts;
    var braces := SpecBraces(s, maxArms).value;
    MeansByMembers(pat, arms, path);
    SegsNotEmpty(arms);
    if Means(pat, path) {
      var i :| 0 <= i < |arms| && BehindPrefix(pat.prefix, pat.atSegmentEnd, Parts(arms[i].segs), path);
      assert ArmFor(s, braces, arms[i], visited[i], text);
      assert ArmAgrees(s, braces, arms[i], visited[i], text, path);
    }
    if Matches(s, maxArms, path) {
      var choice :| SpellsFor(s, braces, choice, path);
      SpellsValid(s, braces, choice);
      AllVisited(s, braces, arms, visited, text, choice);
      var i := Rank(choice, braces);
      assert ArmAgrees(s, braces, arms[i], choice, text, path);
    }
  }

  lemma SpellsValid(s: Text, braces: seq<Brace>, choice: seq<nat>)
    requires Spells(s, braces, choice)
    ensures ValidChoice(choice, braces)
  {
  }

  lemma ArmsCompile(s: Text, maxArms: nat, arms: seq<Arm>, visited: seq<seq<nat>>, text: Text)
    requires IsUtf8(s) && SpecBraces(s, maxArms).Ok?
    requires SpecBraces(s, maxArms).value != [] ==> Count(SpecBraces(s, maxArms).value) <= maxArms
    requires ArmsSoFar(s, SpecBraces(s, maxArms).value, arms, visited, text)
    requires |arms| == Count(SpecBraces(s, maxArms).value)
    ensures Compiles(s, maxArms)
  {
    hide GoodArm, Rank, Count, Spells, SpecBraces, IsUtf8, ArmAgrees;
    var braces := SpecBraces(s, maxArms).value;
    forall choice | ValidChoice(choice, braces) ensures Spells(s, braces, choice) {
      AllVisited(s, braces, arms, visited, text, choice);
    }
  }

  /** An arm spelled as a globstar alone, or with a separator behind it, matches anything. */
  predicate SpellsAnything(text: Text) {
    IsGlobstar(text) || text == [STAR, STAR, SLASH]
  }

  lemma SpellsAnythingMatches(text: Text, arm: Arm)
    requires SpellsAnything(text) && ParsePattern(text, true).Ok?
    requires GoodArm(arm) && SimilarParts(Parts(arm.segs), ParsePattern(text, true).value)
    ensures MatchesAnything(Parts(arm.segs))
  {
    hide RightBits, NoEmptyAfterGlobstar, MakeArm;
    GlobstarParses(text);
    var p, q := Parts(arm.segs), ParsePattern(text, true).value;
    assert SimilarPart(p[0], q[0]);
    if |q| == 2 {
      assert SimilarPart(p[1], q[1]);
      assert CompiledSegment(arm.segs[1]);
      SpelledStar(p[1].tokens);
      assert p == [p[0], p[1]];
    } else {
      assert p == [p[0]];
    }
  }

  lemma SpelledStar(ts: seq<Token>)
    requires CompiledTokens(ts) && Similar(Spell(ts), [Star])
    ensures ts == [Star]
  {
    SpellLength(ts);
    assert SimilarToken(Spell(ts)[0], Star);
    assert ts != [];
    assert ts[1..] == [] && Spell(ts) == SpellOne(ts[0]);
  }

  lemma {:induction false} SpellLength(ts: seq<Token>)
    requires CompiledTokens(ts)
    ensures |Spell(ts)| >= |ts|
  {
    if ts != [] {
      assert CompiledToken(ts[0]);
      SpellLength(ts[1..]);
    }
  }

  lemma GlobstarParses(text: Text)
    requires SpellsAnything(text)
    ensures ParsePattern(text, true) == Ok(if IsGlobstar(text) then [Globstar] else [Globstar, Part([Star])])
  {
    hide ParseSegment;
    var tail := text[2..];
    assert tail == [] || tail == [SLASH];
    StarsRead(tail);
    assert text == [STAR, STAR] + tail && text[..|text| - |tail|] == [STAR, STAR];
    if tail == [] {
      assert ParseParts(text, true) == Ok([Globstar]);
    } else {
      assert tail[1..] == [];
      EmptyParse();
      var p := [Globstar] + [Part([])];
      assert ParseParts(text, true) == Ok(p);
      assert p[..1] + [Part([Star])] == [Globstar, Part([Star])];
      assert |text| == 3;
      assert Finish(p) == [Globstar, Part([Star])];
    }
  }

  lemma EmptyParse()
    ensures ParseParts([], true) == Ok([Part([])])
  {
  }

  lemma StarsRead(tail: Text)
    requires tail == [] || tail == [SLASH]
    ensures ParseSegment([STAR, STAR] + tail) == Ok(Reading([Star], tail))
  {
    var text := [STAR, STAR] + tail;
    assert text[1..] == [STAR] + tail && text[1..][1..] == tail && text[2..] == tail;
    assert StarRun(tail) == 0;
    assert StarRun(text) == 2;
    assert ParseSegment(tail) == Ok(Reading([], tail));
    var one: seq<Token> := [Star];
    assert one + [] == one;
    assert ParseSegment(text) == Then(Star, ParseSegment(tail));
  }

  // ---------- which error ----------

  /** The first choice whose text is no pattern, and what is wrong with it. */
  ghost predicate FirstFailure(s: Text, braces: seq<Brace>, choice: seq<nat>, e: GlobError) {
    && InOrder(s, HeadSize(s), braces) && ValidChoice(choice, braces)
    && ParsePattern(Expansion(s, braces, choice), true) == Err(e)
    && forall other :: ValidChoice(other, braces) && Rank(other, braces) < Rank(choice, braces) ==>
                         Spells(s, braces, other)
  }

  ghost predicate SomeFailure(s: Text, braces: seq<Brace>, e: GlobError) {
    exists choice :: FirstFailure(s, braces, choice, e)
  }

  /** What is wrong with a text that does not compile: the first of the things that can be,
      in this order. */
  ghost predicate Wrong(s: Text, maxArms: nat, e: GlobError) {
    var rest := s[HeadSize(s)..];
    if !IsUtf8(s) then e == InvalidUTF8
    else if BadEscape(rest) then e == if |rest| == 1 then StrayBackslash else InvalidEscape
    else if DoubleSlash(s[..HeadSize(s)]) then e == MultipleSlash
    else
      var braces := SpecBraces(s, maxArms);
      if braces.Err? then e == braces.error
      else if braces.value != [] && Count(braces.value) > maxArms then e == TooManyExpansions
      else SomeFailure(s, braces.value, e)
  }

  lemma FailsFirst(s: Text, braces: seq<Brace>, arms: seq<Arm>, visited: seq<seq<nat>>, text: Text, choice: seq<nat>,
                   e: GlobError)
    requires ArmsSoFar(s, braces, arms, visited, text)
    requires InOrder(s, HeadSize(s), braces) && ValidChoice(choice, braces) && Rank(choice, braces) == |arms|
    requires ParsePattern(Expansion(s, braces, choice), true) == Err(e)
    ensures SomeFailure(s, braces, e)
  {
    hide Rank, Spells, ParsePattern, Expansion, HeadSize, InOrder, ArmAgrees, GoodArm;
    forall other | ValidChoice(other, braces) && Rank(other, braces) < Rank(choice, braces)
      ensures Spells(s, braces, other)
    {
      var j := Rank(other, braces);
      assert ArmFor(s, braces, arms[j], visited[j], text);
      RankInjective(other, visited[j], braces);
    }
    assert FirstFailure(s, braces, choice, e);
  }

  /** GlobPattern::create: the errors of a text that does not compile, and the meaning of
      one that does. */
  method Create(s: Text, maxArms: nat) returns (r: Result<Pattern>)
    ensures r.Ok? <==> Compiles(s, maxArms)
    ensures r.Ok? ==> ValidPattern(r.value) && forall path :: Means(r.value, path) <==> Matches(s, maxArms, path)
    ensures r.Err? ==> Wrong(s, maxArms, r.error)
  {
    hide Compiles, Matches, ValidPattern, Means, IsUtf8, HeadSize, LiteralRaw, Resolve, DoubleSlash, SpecBraces,
         Count, Outside, WellBraced, InOrder, HasTerms, GoodArms, Spells, SomeFailure;
    var invalid := FindInvalidUtf8(s);
    if invalid != |s| {
      assert !Compiles(s, maxArms) by { NotUtf8(s, maxArms); }
      return Err(InvalidUTF8);
    }
    var text, from := LiteralHead(s);
    HeadIsLiteral(s);
    if from < |s| && s[from] == BACKSLASH {
      assert s[from..][0] == BACKSLASH;
      BadEscapeFails(s, maxArms);
      if from + 1 == |s| {
        return Err(StrayBackslash);
      }
      return Err(InvalidEscape);
    }
    var doubled := HasDoubleSlash(s[..from]);
    if doubled {
      DoubleSlashFails(s, maxArms);
      return Err(MultipleSlash);
    }
    if from == |s| {
      assert s[..from] == s;
      LiteralPattern(s, maxArms);
      var pat := Pattern(text, false, LiteralMode, []);
      LiteralIsValid(text);
      return Ok(pat);
    }
    var braces: seq<Brace> := [];
    SpecBracesDef(s, maxArms);
    if maxArms != 0 && LBRACE in s[from..] {
      var found := ParseBraces(s, from);
      if found.Err? {
        NoBracesFails(s, maxArms);
        return Err(found.error);
      }
      braces := found.value;
      var count := CountArms(braces);
      if count > maxArms {
        TooManyFails(s, maxArms);
        CountNone();
        return Err(TooManyExpansions);
      }
    }
    SpecBracesGood(s, maxArms);
    r := CreateArms(s, maxArms, text, braces);
  }

  /** Compiling every arm, then choosing the mode. */
  method CreateArms(s: Text, maxArms: nat, text: Text, braces: seq<Brace>) returns (r: Result<Pattern>)
    requires IsUtf8(s) && SpecBraces(s, maxArms) == Ok(braces) && (braces != [] ==> Count(braces) <= maxArms)
    requires InOrder(s, HeadSize(s), braces) && HasTerms(braces)
    requires LiteralRaw(s[..HeadSize(s)]) && text == Resolve(s[..HeadSize(s)]) && !DoubleSlash(s[..HeadSize(s)])
    ensures r.Ok? <==> Compiles(s, maxArms)
    ensures r.Ok? ==> ValidPattern(r.value) && forall path :: Means(r.value, path) <==> Matches(s, maxArms, path)
    ensures r.Err? ==> SomeFailure(s, braces, r.error)
  {
    hide Compiles, Matches, ValidPattern, Means, IsUtf8, HeadSize, LiteralRaw, Resolve, DoubleSlash, SpecBraces,
         Count, InOrder, HasTerms, GoodArms, GoodArm, Spells, ArmsSoFar, ArmFor, Rank, ArmText, ParsePattern,
         SimilarParts, ValidChoice, MatchesAnything, SpellsAnything, Parts, Expansion, SomeFailure;
    var from := HeadSize(s);
    var atSegmentEnd := AtSegmentEnd(text);
    var prefix := WithoutSeparator(text);
    ResolveEnd(s[..from]);
    var root := prefix == [] && !atSegmentEnd;
    var atStart := prefix == [] || atSegmentEnd;
    assert atStart == AtStart(text);
    var choice := new nat[|braces|](_ => 0);
    FirstIsZeros(choice[..], braces);
    var arms: seq<Arm>, matchAll, more := [], false, true;
    ghost var visited: seq<seq<nat>> := [];
    NoArmsYet(s, braces, text);
    while more
      invariant ArmsSoFar(s, braces, arms, visited, text)
      invariant ValidChoice(choice[..], braces)
      invariant more ==> Rank(choice[..], braces) == |arms|
      invariant !more ==> |arms| == Count(braces) && arms != []
      invariant |arms| <= Count(braces)
      invariant matchAll ==> root && exists i :: 0 <= i < |arms| && MatchesAnything(Parts(arms[i].segs))
      decreases Count(braces) - |arms|, more
    {
      ghost var current := choice[..];
      var armText := BuildArm(s, from, braces, choice[..]);
      if atSegmentEnd && armText != [] && armText[0] == SLASH {
        ArmFails(s, braces, current);
        OneFails(s, maxArms, current);
        FailsFirst(s, braces, arms, visited, text, current, MultipleSlash);
        return Err(MultipleSlash);
      }
      ArmIsUtf8(s, maxArms, braces, current);
      var compiled := CompileArm(armText, atStart);
      if compiled.Err? {
        ArmFails(s, braces, current);
        OneFails(s, maxArms, current);
        FailsFirst(s, braces, arms, visited, text, current, compiled.error);
        return Err(compiled.error);
      }
      ArmStands(s, braces, current, compiled.value);
      ArmsMore(s, braces, arms, visited, text, compiled.value, current);
      RankBelowCount(current, braces);
      ghost var before := arms;
      arms := arms + [compiled.value];
      visited := visited + [current];
      if root && SpellsAnything(armText) {
        SpellsAnythingMatches(armText, compiled.value);
        assert MatchesAnything(Parts(arms[|before|].segs));
        matchAll := true;
      } else if matchAll {
        ghost var i :| 0 <= i < |before| && MatchesAnything(Parts(before[i].segs));
        assert arms[i] == before[i];
      }
      more := NextChoice(choice, braces);
    }
    ArmsGood(s, braces, arms, visited, text);
    var pat := ChooseMode(prefix, atSegmentEnd, arms, matchAll);
    ArmsCompile(s, maxArms, arms, visited, text);
    GoodOfValid(pat);
    forall path ensures Means(pat, path) <==> Matches(s, maxArms, path) {
      ArmsMean(s, maxArms, arms, visited, text, pat, path);
    }
    r := Ok(pat);
  }

  lemma GoodOfValid(pat: Pattern)
    requires ValidPattern(pat)
    ensures GoodArms(pat.arms)
  {
  }

  lemma FirstIsZeros(choice: seq<nat>, braces: seq<Brace>)
    requires HasTerms(braces) && |choice| == |braces| && forall k :: 0 <= k < |choice| ==> choice[k] == 0
    ensures ValidChoice(choice, braces) && Rank(choice, braces) == 0
  {
    ZerosRankFirst(choice, braces);
  }

  lemma NoArmsYet(s: Text, braces: seq<Brace>, text: Text)
    ensures ArmsSoFar(s, braces, [], [], text)
  {
  }

  lemma OneFails(s: Text, maxArms: nat, choice: seq<nat>)
    requires SpecBraces(s, maxArms).Ok? && ValidChoice(choice, SpecBraces(s, maxArms).value)
    requires !Spells(s, SpecBraces(s, maxArms).value, choice)
    ensures !Compiles(s, maxArms)
  {
    hide Spells, SpecBraces, ValidChoice;
  }

  lemma ArmIsUtf8(s: Text, maxArms: nat, braces: seq<Brace>, choice: seq<nat>)
    requires IsUtf8(s) && SpecBraces(s, maxArms) == Ok(braces)
    requires InOrder(s, HeadSize(s), braces) && ValidChoice(choice, braces)
    ensures IsUtf8(ArmText(s, HeadSize(s), braces, choice))
  {
    hide IsUtf8, WellBraced, Outside, HeadSize, StartsCharacter;
    var h := HeadSize(s);
    HeadIsLiteral(s);
    SpecBracesGood(s, maxArms);
    RestUtf8(s, h);
    if braces != [] { ArmTextUtf8(s, h, braces, choice); }
  }

  lemma RestUtf8(s: Text, h: nat)
    requires IsUtf8(s) && h <= |s| && (h == |s| || Wildcard(s[h]) || s[h] == BACKSLASH)
    ensures IsUtf8(s[h..])
  {
    hide IsUtf8;
    if h < |s| { CutUtf8(s, h); } else { assert s[h..] == []; EmptyUtf8(); }
  }

  lemma NotUtf8(s: Text, maxArms: nat)
    requires !IsUtf8(s)
    ensures !Compiles(s, maxArms)
  {
  }

  lemma SpecBracesDef(s: Text, maxArms: nat)
    ensures var h := HeadSize(s);
            SpecBraces(s, maxArms) == if maxArms == 0 || LBRACE !in s[h..] then Ok([]) else Outside(s, h)
  {
  }

  lemma NoBracesFails(s: Text, maxArms: nat)
    requires SpecBraces(s, maxArms).Err?
    ensures !Compiles(s, maxArms)
  {
  }

  lemma TooManyFails(s: Text, maxArms: nat)
    requires SpecBraces(s, maxArms).Ok? && Count(SpecBraces(s, maxArms).value) > maxArms > 0
    ensures !Compiles(s, maxArms)
  {
    hide SpecBraces;
    CountNone();
  }

  lemma CountNone()
    ensures Count([]) == 1
  {
  }

  lemma LiteralIsValid(text: Text)
    ensures ValidPattern(Pattern(text, false, LiteralMode, []))
    ensures forall path :: Means(Pattern(text, false, LiteralMode, []), path) <==> path == text
  {
  }

  method HasDoubleSlash(s: Text) returns (r: bool)
    ensures r <==> DoubleSlash(s)
  {
    r := false;
    var i := 1;
    while i < |s|
      invariant 1 <= i
      invariant forall j :: 0 < j < i && j < |s| ==> !(s[j] == SLASH && s[j - 1] == SLASH)
    {
      if s[i] == SLASH && s[i - 1] == SLASH {
        return true;
      }
      i := i + 1;
    }
  }
}
