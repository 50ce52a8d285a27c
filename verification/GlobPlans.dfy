/** The special plans of an arm: each decides with a few comparisons what the segment
    program would, and all are proved against the recursive definition. */
module GlobPlans {
  import opened GlobText
  import opened GlobSpec
  import opened GlobTokens
  import opened GlobExecute

  // ---------- suffixes compared a word at a time ----------

  /** A suffix to test for. If it is no longer than 16 bytes, its bytes fill two words of
      eight from the right, and the masks mark the places they fill. */
  datatype PackedLiteral = PackedLiteral(
    text: Text,
    word: seq<byte>,
    mask: seq<bool>,
    leadWord: seq<byte>,
    leadMask: seq<bool>)

  function Zeros(n: nat): seq<byte> { seq(n, _ => 0) }

  function Pack(text: Text): (r: PackedLiteral)
    ensures r.text == text && |r.word| == |r.mask| == |r.leadWord| == |r.leadMask| == 8
  {
    if |text| <= 16 then
      var value := Zeros(16 - |text|) + text;
      var mask := seq(16, i => i >= 16 - |text|);
      PackedLiteral(text, value[8..], mask[8..], value[..8], mask[..8])
    else
      PackedLiteral(text, Zeros(8), seq(8, _ => false), Zeros(8), seq(8, _ => false))
  }

  function Masked(word: seq<byte>, mask: seq<bool>): (r: seq<byte>)
    requires |word| == |mask|
    ensures |r| == |word|
  {
    seq(|word|, i requires 0 <= i < |word| => if mask[i] then word[i] else 0)
  }

  /** Whichever way it compares, a packed literal tells whether the input ends with it. */
  function PackedMatches(text: Text, input: Text): (r: bool)
    ensures r <==> EndsWith(input, text)
  {
    var literal := Pack(text);
    var n := |input|;
    if n < |text| then false
    else if |text| <= 8 && n >= 8 then
      WordMatches(text, input);
      Masked(input[n - 8..], literal.mask) == literal.word
    else if |text| <= 16 && n >= 16 then
      TwoWordsMatch(text, input);
      && Masked(input[n - 8..], literal.mask) == literal.word
      && Masked(input[n - 16..n - 8], literal.leadMask) == literal.leadWord
    else
      EndsWith(input, text)
  }

  lemma WordMatches(text: Text, input: Text)
    requires |text| <= 8 <= |input|
    ensures Masked(input[|input| - 8..], Pack(text).mask) == Pack(text).word <==> EndsWith(input, text)
  {
    hide Pack, EndsWith;
    var n, k := |input|, |text|;
    var w, m, v := input[n - 8..], Pack(text).mask, Pack(text).word;
    PackedBytes(text);
    if EndsWith(input, text) {
      TailIs(text, input);
      assert Masked(w, m) == v;
    } else if Masked(w, m) == v {
      forall j | 0 <= j < k ensures input[n - k + j] == text[j] {
        assert Masked(w, m)[8 - k + j] == v[8 - k + j];
      }
      TailIs(text, input);
    }
  }

  lemma PackedBytes(text: Text)
    requires |text| <= 8
    ensures var m, v, k := Pack(text).mask, Pack(text).word, |text|;
            forall i :: 0 <= i < 8 ==>
                          m[i] == (i >= 8 - k) && v[i] == if i >= 8 - k then text[i - (8 - k)] else 0
  {
  }

  lemma TailIs(text: Text, input: Text)
    requires |text| <= |input|
    ensures EndsWith(input, text) <==> forall j :: 0 <= j < |text| ==> input[|input| - |text| + j] == text[j]
  {
    var tail := input[|input| - |text|..];
    assert forall j :: 0 <= j < |text| ==> tail[j] == input[|input| - |text| + j];
  }

  predicate SameTail(text: Text, input: Text)
    requires |text| <= |input|
  {
    forall j :: 0 <= j < |text| ==> text[j] == input[|input| - |text| + j]
  }

  lemma SameTailEndsWith(text: Text, input: Text)
    requires |text| <= |input|
    ensures SameTail(text, input) <==> EndsWith(input, text)
  {
    var n := |input| - |text|;
    if EndsWith(input, text) {
      assert forall j :: 0 <= j < |text| ==> text[j] == input[n..][j];
    }
  }

  lemma TwoWordsMatch(text: Text, input: Text)
    requires |text| <= 16 <= |input|
    ensures Masked(input[|input| - 8..], Pack(text).mask) == Pack(text).word &&
            Masked(input[|input| - 16..|input| - 8], Pack(text).leadMask) == Pack(text).leadWord
            <==> EndsWith(input, text)
  {
    hide EndsWith;
    SameTailEndsWith(text, input);
    var n, k, p := |input|, |text|, Pack(text);
    var w, lw := input[n - 8..], input[n - 16..n - 8];
    if Masked(w, p.mask) == p.word && Masked(lw, p.leadMask) == p.leadWord {
      forall j | 0 <= j < k ensures text[j] == input[n - k + j] {
        var i := 16 - k + j;
        if i >= 8 {
          assert Masked(w, p.mask)[i - 8] == p.word[i - 8];
        } else {
          assert Masked(lw, p.leadMask)[i] == p.leadWord[i];
        }
      }
    }
    if SameTail(text, input) {
      forall i | 0 <= i < 8
        ensures Masked(w, p.mask)[i] == p.word[i] && Masked(lw, p.leadMask)[i] == p.leadWord[i]
      {
        if i + 8 >= 16 - k { assert text[i + k - 8] == w[i]; }
        if i >= 16 - k { assert text[i + k - 16] == lw[i]; }
      }
    }
  }

  // ---------- arms ----------

  datatype Plan = PrefixTree | DirectoryTree | Suffix | PathSuffix | SegmentSuffix | AffixPlan | Final | Program

  datatype Arm = Arm(
    plan: Plan,
    basename: bool,
    absorbsSeparator: bool,
    segs: seq<Segment>,
    head: Text,
    literal: Text)

  function LiteralAt(ts: seq<Token>, i: int): Text {
    if 0 <= i < |ts| && ts[i].Literal? then ts[i].text else []
  }

  /** An arm with the plan its segments allow. */
  function MakeArm(segs: seq<Segment>): (arm: Arm)
    requires segs != []
    ensures arm.segs == segs
  {
    var count := |segs|;
    var first, last := segs[0], segs[count - 1];
    var basename := count == 2 && first.kind.Recursive? && !last.kind.Recursive?;
    var (plan, head: Text) :=
      if count == 2 && first.kind.Plain? && last.kind.Recursive? then
        (PrefixTree, LiteralAt(first.tokens, 0))
      else if count == 3 && first.kind.Recursive? && segs[1].kind.Plain? && last.kind.Recursive? then
        (DirectoryTree, LiteralAt(segs[1].tokens, 0))
      else if basename || (count == 1 && !first.kind.Recursive?) then
        if last.kind.Affix? && last.tokens != [] && last.tokens[0].Star? then
          (if basename then Suffix else SegmentSuffix, [])
        else if last.kind.Affix? then (AffixPlan, LiteralAt(last.tokens, 0))
        else if basename && last.kind.Plain? then (PathSuffix, [])
        else (Final, [])
      else (Program, []);
    var literal := if last.kind.Recursive? then [] else LiteralAt(last.tokens, |last.tokens| - 1);
    Arm(plan, basename, first.kind.Recursive? && first.optionalRest, segs, head, literal)
  }

  /** A separator may be missing before an arm of `**` alone. */
  lemma AbsorbsMeansAllGlobstars(segs: seq<Segment>)
    requires CompiledArm(segs)
    ensures MakeArm(segs).absorbsSeparator <==> AllGlobstars(Parts(segs))
  {
    hide S, CompiledSegments, NoEmptyAfterGlobstar;
    OptionalRestMeans(segs, 0);
    var p := Parts(segs);
    assert p == [p[0]] + p[1..];
  }

  // ---------- the last segment of the path ----------

  /** Where the last segment starts: after the last slash. */
  function BaseStart(s: Text): (b: nat)
    ensures b <= |s| && (b == 0 || s[b - 1] == SLASH) && SLASH !in s[b..]
  {
    var n := |s|;
    if n == 0 || s[n - 1] == SLASH then n
    else
      var b := BaseStart(s[..n - 1]);
      assert s[b..] == s[..n - 1][b..] + [s[n - 1]];
      b
  }

  function Basename(s: Text): Text { s[BaseStart(s)..] }

  lemma BaseStartUnique(s: Text, b: nat)
    requires b <= |s| && (b == 0 || s[b - 1] == SLASH) && SLASH !in s[b..]
    ensures BaseStart(s) == b
  {
    hide BaseStart;
    var c := BaseStart(s);
    if b < c { InTail(s, b, c - 1); }
    if c < b { InTail(s, c, b - 1); }
  }

  lemma InTail(s: Text, b: int, i: int)
    requires 0 <= b <= i < |s|
    ensures s[i] in s[b..]
  {
    assert s[b..][i - b] == s[i];
  }

  lemma {:induction false} LastOfSplit(s: Text)
    ensures Split(s)[|Split(s)| - 1] == Basename(s)
    ensures |Split(s)| == 1 <==> SLASH !in s
  {
    hide BaseStart, SegmentEnd, Split;
    var e := SegmentEnd(s);
    SplitUnfolds(s);
    if e < |s| {
      var rest := s[e + 1..];
      LastOfSplit(rest);
      BasenameOfTail(s, e + 1);
      assert s[e] in s;
    } else {
      assert s[..e] == s && s[0..] == s;
      BaseStartUnique(s, 0);
    }
  }

  lemma {:induction false} SplitUnfolds(s: Text)
    ensures var e := SegmentEnd(s); Split(s) == if e == |s| then [s] else [s[..e]] + Split(s[e + 1..])
  {
    hide SegmentEnd;
  }

  lemma BasenameOfTail(s: Text, n: nat)
    requires 0 < n <= |s| && s[n - 1] == SLASH
    ensures Basename(s) == Basename(s[n..])
  {
    hide BaseStart;
    var rest := s[n..];
    var b := BaseStart(rest);
    assert s[n + b..] == rest[b..];
    if b > 0 { assert s[n + b - 1] == rest[b - 1]; }
    BaseStartUnique(s, n + b);
  }

  lemma SuffixOfBasename(s: Text, text: Text)
    requires SLASH !in text
    ensures EndsWith(s, text) <==> EndsWith(Basename(s), text)
  {
    hide BaseStart;
    var b: int, n, k := BaseStart(s), |s|, |text|;
    if EndsWith(s, text) && n - b < k { InTail(s, n - k, b - 1); }
    if k <= n - b { assert s[b..][n - b - k..] == s[n - k..]; }
  }

  /** A lone segment matches a path without separators, and one behind `**` the last name. */
  lemma FinalSegment(p: seq<Part>, str: Text)
    requires p != [] && p[|p| - 1].Part?
    requires |p| == 1 || (|p| == 2 && p[0].Globstar?)
    ensures |p| == 1 ==> (Accepts(p, str) <==> SLASH !in str && G(p[0].tokens, str))
    ensures |p| == 2 ==> (Accepts(p, str) <==> G(p[1].tokens, Basename(str)))
  {
    hide G, Split, Basename;
    var path := Split(str);
    LastOfSplit(str);
    if |p| == 1 {
      SplitWhole(str);
    } else {
      var n := |path| - 1;
      assert p[1..] == [p[1]] && path[n..] == [path[n]];
      assert S(p[1..], path[n..]) <==> G(p[1].tokens, path[n]);
      if S(p, path) {
        var k :| 0 <= k < |path| && S(p[1..], path[k..]);
        assert |path[k..]| == 1;
      }
    }
  }

  lemma SplitWhole(s: Text)
    ensures SLASH !in s ==> Split(s) == [s]
  {
    if SLASH !in s { SplitAt(s, []); }
  }

  /** Tokens that end in a literal match only what ends with it. */
  lemma {:induction false} EndsInLiteral(ts: seq<Token>, s: Text)
    requires ts != [] && ts[|ts| - 1].Literal? && G(ts, s)
    ensures EndsWith(s, ts[|ts| - 1].text)
    decreases |ts|, |s|
  {
    hide StartsCharacter, AtomLen, AtomValue;
    var text := ts[|ts| - 1].text;
    if |ts| == 1 {
      assert ts[1..] == [];
      assert s == text;
    } else {
      match ts[0] {
        case Literal(t) => EndsInLiteral(ts[1..], s[|t|..]); EndsWithSuffix(s, |t|, text);
        case Any => EndsInLiteral(ts[1..], s[AtomLen(s)..]); EndsWithSuffix(s, AtomLen(s), text);
        case Class(_, _) => EndsInLiteral(ts[1..], s[AtomLen(s)..]); EndsWithSuffix(s, AtomLen(s), text);
        case Star =>
          if G(ts[1..], s) {
            EndsInLiteral(ts[1..], s);
          } else {
            EndsInLiteral(ts, s[AtomLen(s)..]);
            EndsWithSuffix(s, AtomLen(s), text);
          }
      }
    }
  }

  lemma EndsWithSuffix(s: Text, n: nat, text: Text)
    requires n <= |s| && EndsWith(s[n..], text)
    ensures EndsWith(s, text)
  {
    assert s[n..][|s| - n - |text|..] == s[|s| - |text|..];
  }

  lemma {:induction false} LastPartMatchesLast(p: seq<Part>, path: seq<Text>)
    requires p != [] && path != [] && p[|p| - 1].Part? && S(p, path)
    ensures G(p[|p| - 1].tokens, path[|path| - 1])
  {
    hide G;
    if p[0].Globstar? {
      var k :| 0 <= k < |path| && S(p[1..], path[k..]);
      LastPartMatchesLast(p[1..], path[k..]);
    } else if |p| > 1 {
      NotAllGlobstars(p[1..]);
      LastPartMatchesLast(p[1..], path[1..]);
    }
  }

  lemma NotAllGlobstars(p: seq<Part>)
    requires p != [] && p[|p| - 1].Part?
    ensures !AllGlobstars(p)
  {
  }

  /** The suffix test before the segment program never rejects a path that matches. */
  lemma SuffixTestIsNecessary(segs: seq<Segment>, str: Text)
    requires CompiledArm(segs) && Accepts(Parts(segs), str)
    ensures EndsWith(str, MakeArm(segs).literal)
  {
    hide S, G, Split, NoEmptyAfterGlobstar, RightBits, Basename;
    var last := segs[|segs| - 1];
    var text := MakeArm(segs).literal;
    if text != [] {
      TokensOf(segs, |segs| - 1);
      LastPartMatchesLast(Parts(segs), Split(str));
      LastOfSplit(str);
      EndsInLiteral(last.tokens, Basename(str));
      SuffixOfBasename(str, text);
    }
  }

  // ---------- the plans ----------

  // A directory and all below it.
  lemma PrefixTreeMatches(segs: seq<Segment>, str: Text)
    requires CompiledArm(segs) && MakeArm(segs).plan.PrefixTree?
    ensures Accepts(Parts(segs), str) <==>
            var text := MakeArm(segs).head;
            text <= str && (|str| == |text| || str[|text|] == SLASH)
  {
    hide S, G, Split, NoEmptyAfterGlobstar, RightBits, EndOf;
    var p := Parts(segs);
    var text := MakeArm(segs).head;
    assert CompiledSegment(segs[0]);
    assert p[0..] == p && str[0..] == str;
    PartStep(p, str, 0, 0);
    LastGlobstar(p, str, if EndOf(str, 0) < |str| then EndOf(str, 0) + 1 else 0);
    PlainMatches(segs[0], str, 0, text);
    assert p[1..] == [Globstar];
    assert str[..|str|] == str;
    if |text| <= |str| { assert str[0..|text|] == str[..|text|]; }
  }

  /** A candidate is a place where the segment is `text` as a whole. */
  lemma CandidateIsSegment(str: Text, at: nat, text: Text)
    requires text != [] && SLASH !in text && at < |str| && (at == 0 || str[at - 1] == SLASH)
    ensures Candidate(str, at, text[0], text) <==> str[at..EndOf(str, at)] == text
  {
    var e := EndOf(str, at);
    if Candidate(str, at, text[0], text) {
      assert str[at..][..|text|] == str[at..at + |text|];
      EndOfUnique(str, at, at + |text|);
    }
    if str[at..e] == text {
      assert e == at + |text| && str[at..][..|text|] == str[at..e];
      assert str[at..e][0] == str[at];
    }
  }

  /** A directory between two globstars: some segment of the path is the directory. */
  lemma {:induction false} DirectoryTreeMatches(p: seq<Part>, str: Text, o: nat, text: Text)
    requires p == [Globstar, Part([Literal(text)]), Globstar] && text != [] && SLASH !in text
    requires o <= |str| && (o == 0 || str[o - 1] == SLASH)
    ensures GlobFrom(p, str, 1, o) <==> exists i: nat :: o <= i && Candidate(str, i, text[0], text)
    decreases |str| - o
  {
    hide S, Split, GlobFrom, At, Candidate, EndOf;
    GlobFromUnfolds(p, str, 1, o);
    PartStep(p, str, 1, o);
    var e := EndOf(str, o);
    assert p[2..] == [Globstar];
    LiteralAlone(text, str[o..e]);
    if e < |str| {
      LastGlobstar(p, str, e + 1);
      DirectoryTreeMatches(p, str, e + 1, text);
    }
    if o < |str| { CandidateIsSegment(str, o, text); }
    LaterDef(p, str, 1, o);
    forall i: nat | o <= i && Candidate(str, i, text[0], text)
      ensures At(p, str, 1, o) || (e < |str| && e + 1 <= i)
    {
      CandidateStarts(str, i, text[0], text);
      if i > o { StartAfter(str, o, i); }
    }
    if At(p, str, 1, o) {
      assert str[o..e] == text && o < |str|;
      assert Candidate(str, o, text[0], text);
    }
  }

  lemma LaterDef(p: seq<Part>, str: Text, t: nat, o: nat)
    requires t < |p| && o <= |str|
    ensures LaterSegment(p, str, t, o) <==> EndOf(str, o) < |str| && GlobFrom(p, str, t, EndOf(str, o) + 1)
  {
  }

  lemma CandidateStarts(str: Text, i: nat, first: byte, text: Text)
    requires Candidate(str, i, first, text)
    ensures i < |str| && (i == 0 || str[i - 1] == SLASH)
  {
  }

  lemma LiteralAlone(text: Text, s: Text)
    ensures G([Literal(text)], s) <==> s == text
  {
    assert [Literal(text)][1..] == [];
    if text <= s { assert s == text + s[|text|..]; }
  }

  /** What the plans for the last segment tell of the arm. */
  lemma FinalArm(segs: seq<Segment>)
    requires CompiledArm(segs) && (MakeArm(segs).plan.AffixPlan? || MakeArm(segs).plan.Final?)
    ensures var arm, last := MakeArm(segs), segs[|segs| - 1];
            && !last.kind.Recursive? && CompiledSegment(last)
            && (arm.basename ==> |segs| == 2 && segs[0].kind.Recursive?) && (!arm.basename ==> |segs| == 1)
            && arm.literal == LiteralAt(last.tokens, |last.tokens| - 1) && SLASH !in arm.literal
            && (arm.plan.AffixPlan? ==> AffixTokens(last.tokens) &&
                                        arm.head == AffixHead(last.tokens) && arm.literal == AffixTail(last.tokens))
  {
    hide S, NoEmptyAfterGlobstar, RightBits;
    TokensOf(segs, |segs| - 1);
  }

  /** The arm's last segment against the last name of the path. */
  method MatchFinal(arm: Arm, str: Text) returns (r: bool)
    requires CompiledArm(arm.segs) && arm == MakeArm(arm.segs) && (arm.plan.AffixPlan? || arm.plan.Final?)
    ensures r <==> Accepts(Parts(arm.segs), str)
  {
    hide S, G, Split, CompiledArm, Basename, Accepts, MakeArm, AffixTokens, AffixHead, AffixTail, LiteralAt,
         EndsWith, CompiledSegment, CompiledTokens;
    ghost var p := Parts(arm.segs);
    FinalArm(arm.segs);
    var last := arm.segs[|arm.segs| - 1];
    TokensOfSegment(last);
    FinalSegment(p, str);
    SuffixOfBasename(str, arm.literal);
    if !PackedMatches(arm.literal, str) {
      if Accepts(p, str) { SuffixTestIsNecessary(arm.segs, str); }
      return false;
    }
    var name := if arm.basename then Basename(str) else str;
    if !arm.basename && SLASH in name {
      return false;
    }
    if arm.plan.AffixPlan? {
      AffixMatches(last.tokens, name);
      return |name| >= |arm.head| + |arm.literal| && arm.head <= name;
    }
    if last.kind.Plain? {
      PlainFinal(last, name, arm.literal);
      return |name| == |arm.literal|;
    }
    r := MatchTokens(last.tokens, name);
  }

  lemma TokensOfSegment(g: Segment)
    requires CompiledSegment(g)
    ensures CompiledTokens(g.tokens)
  {
  }

  lemma PlainFinal(last: Segment, name: Text, text: Text)
    requires CompiledSegment(last) && last.kind.Plain? && text == LiteralAt(last.tokens, |last.tokens| - 1)
    requires EndsWith(name, text)
    ensures G(last.tokens, name) <==> |name| == |text|
  {
    if last.tokens != [] { LiteralAlone(text, name); }
  }

  /** Whatever its plan, an arm matches the paths its segments do. */
  method MatchArm(arm: Arm, str: Text) returns (hit: bool)
    requires CompiledArm(arm.segs) && arm == MakeArm(arm.segs)
    ensures hit <==> Accepts(Parts(arm.segs), str)
  {
    hide S, G, Split, NoEmptyAfterGlobstar, RightBits, Accepts, EndOf, MakeArm, Candidate;
    match arm.plan {
      case PrefixTree =>
        PrefixTreeMatches(arm.segs, str);
        hit := arm.head <= str && (|str| == |arm.head| || str[|arm.head|] == SLASH);
      case DirectoryTree =>
        DirectoryTreeArm(arm.segs, str);
        var at := FindSegment(str, 0, arm.head[0], arm.head);
        hit := at != -1;
      case Suffix =>
        SuffixArm(arm.segs, str);
        hit := PackedMatches(arm.literal, str);
      case PathSuffix =>
        PathSuffixArm(arm.segs, str);
        hit := PackedMatches(arm.literal, str) && (|str| == |arm.literal| || str[|str| - |arm.literal| - 1] == SLASH);
      case SegmentSuffix =>
        SegmentSuffixArm(arm.segs, str);
        hit := PackedMatches(arm.literal, str) && SLASH !in str;
      case AffixPlan => hit := MatchFinal(arm, str);
      case Final => hit := MatchFinal(arm, str);
      case Program =>
        if Accepts(Parts(arm.segs), str) { SuffixTestIsNecessary(arm.segs, str); }
        hit := PackedMatches(arm.literal, str);
        if hit { hit := Execute(arm.segs, str); }
    }
  }

  lemma DirectoryTreeArm(segs: seq<Segment>, str: Text)
    requires CompiledArm(segs) && MakeArm(segs).plan.DirectoryTree?
    ensures MakeArm(segs).head != []
    ensures Accepts(Parts(segs), str) <==>
            exists i: nat :: Candidate(str, i, MakeArm(segs).head[0], MakeArm(segs).head)
  {
    hide S, G, Split, RightBits, Candidate;
    var p := Parts(segs);
    var text := MakeArm(segs).head;
    assert CompiledSegment(segs[1]) && p[1] != Part([]);
    assert segs[1].tokens == [Literal(text)];
    assert p[1] == Part([Literal(text)]);
    assert p == [p[0], p[1], p[2]];
    assert p[0..] == p && str[0..] == str;
    GlobFromUnfolds(p, str, 0, 0);
    DirectoryTreeMatches(p, str, 0, text);
  }

  lemma SuffixArm(segs: seq<Segment>, str: Text)
    requires CompiledArm(segs) && MakeArm(segs).plan.Suffix?
    ensures Accepts(Parts(segs), str) <==> EndsWith(str, MakeArm(segs).literal)
    ensures SLASH !in MakeArm(segs).literal
  {
    hide S, G, Split, NoEmptyAfterGlobstar, RightBits, Basename, Accepts;
    var p := Parts(segs);
    assert CompiledSegment(segs[1]);
    FinalSegment(p, str);
    AffixMatches(segs[1].tokens, Basename(str));
    SuffixOfBasename(str, MakeArm(segs).literal);
  }

  lemma SegmentSuffixArm(segs: seq<Segment>, str: Text)
    requires CompiledArm(segs) && MakeArm(segs).plan.SegmentSuffix?
    ensures Accepts(Parts(segs), str) <==> EndsWith(str, MakeArm(segs).literal) && SLASH !in str
  {
    hide S, G, Split, NoEmptyAfterGlobstar, RightBits, Accepts;
    assert CompiledSegment(segs[0]);
    FinalSegment(Parts(segs), str);
    AffixMatches(segs[0].tokens, str);
  }

  lemma PathSuffixArm(segs: seq<Segment>, str: Text)
    requires CompiledArm(segs) && MakeArm(segs).plan.PathSuffix?
    ensures Accepts(Parts(segs), str) <==>
            var text := MakeArm(segs).literal;
            EndsWith(str, text) && (|str| == |text| || str[|str| - |text| - 1] == SLASH)
  {
    hide S, G, Split, RightBits, Accepts, BaseStart;
    var p := Parts(segs);
    var text := MakeArm(segs).literal;
    var name := Basename(str);
    assert CompiledSegment(segs[1]) && p[1] != Part([]);
    assert segs[1].tokens == [Literal(text)];
    FinalSegment(p, str);
    LiteralAlone(text, name);
    SuffixOfBasename(str, text);
    if EndsWith(str, text) && |text| < |name| { InTail(str, BaseStart(str), |str| - |text| - 1); }
    assert |name| == |text| ==> name[0..] == name;
  }
}
