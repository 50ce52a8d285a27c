/** Matching a path against the segments of one arm: the program that retries only at the
    latest `**`, ends on precomputed bits, and jumps between candidates by first byte. */
module GlobExecute {
  import opened GlobText
  import opened GlobSpec
  import opened GlobTokens

  datatype Kind = Recursive | Plain | Affix | General

  /** A compiled segment. `nullable` tells that an empty last piece of a path satisfies it
      and all behind it; `optionalRest`, that a path may stop right after its piece. */
  datatype Segment = Segment(
    kind: Kind,
    tokens: seq<Token>,
    nullable: bool,
    optionalRest: bool,
    hasFirst: bool,
    first: byte)

  function PartOf(g: Segment): Part {
    if g.kind.Recursive? then Globstar else Part(g.tokens)
  }

  function Parts(segs: seq<Segment>): (p: seq<Part>)
    ensures |p| == |segs|
    ensures forall i :: 0 <= i < |segs| ==> p[i] == PartOf(segs[i])
  {
    seq(|segs|, i requires 0 <= i < |segs| => PartOf(segs[i]))
  }

  /** The kind tells the shape of the tokens, and `first` their first byte. */
  predicate CompiledSegment(g: Segment) {
    && CompiledTokens(g.tokens)
    && match g.kind
       case Recursive => g.tokens == [] && !g.hasFirst
       case Plain => (g.tokens == [] || (|g.tokens| == 1 && g.tokens[0].Literal?)) && FirstByte(g)
       case Affix => AffixTokens(g.tokens) && FirstByte(g)
       case General => g.tokens != [] && FirstByte(g)
  }

  predicate FirstByte(g: Segment)
    requires CompiledTokens(g.tokens)
  {
    && (g.hasFirst <==> g.tokens != [] && g.tokens[0].Literal?)
    && (g.hasFirst ==> g.first == g.tokens[0].text[0])
  }

  predicate CompiledSegments(segs: seq<Segment>) {
    forall i :: 0 <= i < |segs| ==> CompiledSegment(segs[i])
  }

  /** The bits mean what they say. */
  ghost predicate RightBits(segs: seq<Segment>, i: nat)
    requires i < |segs|
  {
    BitsMean(segs[i], Parts(segs), i)
  }

  ghost predicate BitsMean(g: Segment, p: seq<Part>, i: nat)
    requires i < |p|
  {
    && (g.nullable <==> S(p[i..], [[]]))
    && (g.optionalRest <==> AllGlobstars(p[i + 1..]))
  }

  /** An empty segment comes first or after a segment other than `**`. */
  predicate NoEmptyAfterGlobstar(p: seq<Part>) {
    forall i :: 0 < i < |p| && p[i] == Part([]) ==> !p[i - 1].Globstar?
  }

  ghost predicate CompiledArm(segs: seq<Segment>) {
    && segs != []
    && CompiledSegments(segs)
    && NoEmptyAfterGlobstar(Parts(segs))
    && forall i :: 0 <= i < |segs| ==> RightBits(segs, i)
  }

  // ---------- the nullable bits ----------

  predicate OnlyStars(ts: seq<Token>) {
    forall i :: 0 <= i < |ts| ==> ts[i].Star?
  }

  lemma {:induction false} EmptyMatch(ts: seq<Token>)
    requires CompiledTokens(ts)
    ensures G(ts, []) <==> OnlyStars(ts)
  {
    if ts != [] {
      EmptyMatch(ts[1..]);
      assert forall i :: 0 <= i < |ts[1..]| ==> ts[1..][i] == ts[i + 1];
      if ts[0].Star? && OnlyStars(ts[1..]) {
        assert forall i :: 0 < i < |ts| ==> ts[i] == ts[1..][i - 1];
      }
    }
  }

  /** How the bits of a segment follow from the next one's. */
  lemma BitsBackwards(p: seq<Part>, i: nat)
    requires i < |p|
    ensures AllGlobstars(p[i + 1..]) <==> i + 1 == |p| || (p[i + 1].Globstar? && AllGlobstars(p[i + 2..]))
    ensures p[i].Globstar? ==> (S(p[i..], [[]]) <==> i + 1 == |p| || S(p[i + 1..], [[]]))
    ensures !p[i].Globstar? ==> (S(p[i..], [[]]) <==> G(p[i].tokens, []) && AllGlobstars(p[i + 1..]))
  {
    var path: seq<Text> := [[]];
    assert path[0..] == path;
    assert p[i..][1..] == p[i + 1..];
    if i + 1 < |p| {
      assert p[i + 1..] == [p[i + 1]] + p[i + 2..];
    }
  }

  function WithBits(g: Segment, last: bool, followingNullable: bool, followingAbsorbs: bool): Segment {
    var optionalRest := last || followingAbsorbs;
    var nullable :=
      if g.kind.Recursive? then last || followingNullable else optionalRest && OnlyStars(g.tokens);
    g.(optionalRest := optionalRest, nullable := nullable)
  }

  lemma RightBitsOfOne(r: seq<Segment>, index: nat, followingNullable: bool, followingAbsorbs: bool)
    requires index < |r| && CompiledSegments(r)
    requires index + 1 < |r| ==> RightBits(r, index + 1)
    requires index + 1 < |r| ==> followingNullable == r[index + 1].nullable
    requires followingAbsorbs <==> index + 1 < |r| && r[index + 1].kind.Recursive? && r[index + 1].optionalRest
    ensures var r' := r[index := WithBits(r[index], index + 1 == |r|, followingNullable, followingAbsorbs)];
            Parts(r') == Parts(r) && CompiledSegments(r') && RightBits(r', index)
  {
    hide S, G, AffixTokens;
    var p := Parts(r);
    BitsBackwards(p, index);
    EmptyMatch(r[index].tokens);
    var r' := r[index := WithBits(r[index], index + 1 == |r|, followingNullable, followingAbsorbs)];
    assert Parts(r') == p;
  }

  /** The backward pass that fills in both bits of every segment. */
  method ComputeBits(segs: seq<Segment>) returns (r: seq<Segment>)
    requires segs != [] && CompiledSegments(segs) && NoEmptyAfterGlobstar(Parts(segs))
    ensures |r| == |segs| && Parts(r) == Parts(segs) && CompiledArm(r)
  {
    hide S, G, CompiledSegments, BitsMean;
    r := segs;
    var followingNullable, followingAbsorbs := true, false;
    var index := |segs|;
    while index > 0
      invariant 0 <= index <= |segs| == |r|
      invariant Parts(r) == Parts(segs) && CompiledSegments(r)
      invariant forall i :: index <= i < |r| ==> RightBits(r, i)
      invariant index < |r| ==> followingNullable == r[index].nullable
      invariant followingAbsorbs <==> index < |r| && r[index].kind.Recursive? && r[index].optionalRest
    {
      index := index - 1;
      var segment := WithBits(r[index], index + 1 == |r|, followingNullable, followingAbsorbs);
      RightBitsOfOne(r, index, followingNullable, followingAbsorbs);
      ghost var before := r;
      r := r[index := segment];
      assert forall i :: index < i < |r| ==> RightBits(before, i) && r[i] == before[i];
      followingAbsorbs := segment.kind.Recursive? && segment.optionalRest;
      followingNullable := segment.nullable;
    }
  }

  // ---------- positions in the path ----------

  function EndOf(str: Text, o: nat): (e: nat)
    requires o <= |str|
    ensures o <= e <= |str| && SLASH !in str[o..e] && (e < |str| ==> str[e] == SLASH)
  {
    assert str[o..][..SegmentEnd(str[o..])] == str[o..o + SegmentEnd(str[o..])];
    o + SegmentEnd(str[o..])
  }

  lemma EndOfUnique(str: Text, o: nat, e: nat)
    requires o <= e <= |str| && SLASH !in str[o..e] && (e < |str| ==> str[e] == SLASH)
    ensures EndOf(str, o) == e
  {
    assert str[o..][..e - o] == str[o..e];
    SegmentEndUnique(str[o..], e - o);
  }

  lemma SplitFrom(str: Text, o: nat)
    requires o <= |str|
    ensures EndOf(str, o) == |str| ==> Split(str[o..]) == [str[o..]]
    ensures EndOf(str, o) < |str| ==> Split(str[o..]) == [str[o..EndOf(str, o)]] + Split(str[EndOf(str, o) + 1..])
  {
    var e := SegmentEnd(str[o..]);
    assert str[o..][..e] == str[o..o + e];
    if o + e < |str| { assert str[o..][e + 1..] == str[o + e + 1..]; }
  }

  /** The segments from `t` on match the path from `o` on. */
  ghost predicate At(p: seq<Part>, str: Text, t: nat, o: nat)
    requires t < |p| && o <= |str|
  {
    S(p[t..], Split(str[o..]))
  }

  /** The same behind a `**`. */
  ghost predicate GlobFrom(p: seq<Part>, str: Text, t: nat, o: nat)
    requires t < |p| && o <= |str|
  {
    S([Globstar] + p[t..], Split(str[o..]))
  }

  ghost predicate LaterSegment(p: seq<Part>, str: Text, t: nat, o: nat)
    requires t < |p| && o <= |str|
  {
    EndOf(str, o) < |str| && GlobFrom(p, str, t, EndOf(str, o) + 1)
  }

  lemma GlobstarUnfolds(q: seq<Part>, path: seq<Text>)
    requires q != [] && path != []
    ensures S([Globstar] + q, path) <==> S(q, path) || (|path| > 1 && S([Globstar] + q, path[1..]))
  {
    var all := [Globstar] + q;
    assert all[1..] == q && path[0..] == path;
    if S(all, path) && !S(q, path) {
      var k :| 0 <= k < |path| && S(q, path[k..]);
      assert path[1..][k - 1..] == path[k..];
    }
    if |path| > 1 && S(all, path[1..]) {
      GlobstarSkips(all, path, 1);
    }
  }

  lemma GlobFromUnfolds(p: seq<Part>, str: Text, t: nat, o: nat)
    requires t < |p| && o <= |str|
    ensures GlobFrom(p, str, t, o) <==> At(p, str, t, o) || LaterSegment(p, str, t, o)
    ensures p[t].Globstar? && t + 1 < |p| ==> At(p, str, t, o) == GlobFrom(p, str, t + 1, o)
  {
    hide S, EndOf, Split;
    SplitFrom(str, o);
    var path := Split(str[o..]);
    GlobstarUnfolds(p[t..], path);
    if EndOf(str, o) < |str| {
      assert path[1..] == Split(str[EndOf(str, o) + 1..]);
    }
    if p[t].Globstar? && t + 1 < |p| {
      assert p[t..] == [Globstar] + p[t + 1..];
    }
  }

  /** A segment matches its own piece of the path, and the rest goes on behind it. */
  lemma PartStep(p: seq<Part>, str: Text, t: nat, o: nat)
    requires t < |p| && o <= |str| && !p[t].Globstar?
    ensures At(p, str, t, o) <==>
            && G(p[t].tokens, str[o..EndOf(str, o)])
            && if EndOf(str, o) == |str| then AllGlobstars(p[t + 1..])
               else t + 1 < |p| && At(p, str, t + 1, EndOf(str, o) + 1)
  {
    hide EndOf, Split, G;
    SplitFrom(str, o);
    var path := Split(str[o..]);
    assert p[t..][1..] == p[t + 1..];
    if EndOf(str, o) < |str| {
      assert path[1..] == Split(str[EndOf(str, o) + 1..]);
    } else {
      assert str[o..EndOf(str, o)] == str[o..];
    }
  }

  /** Past a matched segment, a later match of the segment makes one of what follows. */
  lemma GlobFromAfterStep(p: seq<Part>, str: Text, t: nat, o: nat)
    requires t + 1 < |p| && o <= |str| && !p[t].Globstar? && EndOf(str, o) < |str|
    requires GlobFrom(p, str, t, o)
    ensures GlobFrom(p, str, t + 1, EndOf(str, o) + 1)
  {
    hide EndOf, Split, G;
    SplitFrom(str, o);
    var path := Split(str[o..]);
    assert path[1..] == Split(str[EndOf(str, o) + 1..]);
    assert p[t..] == [p[t]] + p[t + 1..];
    SkipOneSegment(p[t], p[t + 1..], path);
  }

  lemma SkipOneSegment(g: Part, q: seq<Part>, path: seq<Text>)
    requires !g.Globstar? && q != [] && |path| > 1 && S([Globstar] + ([g] + q), path)
    ensures S([Globstar] + q, path[1..])
  {
    hide G;
    assert ([Globstar] + ([g] + q))[1..] == [g] + q && ([g] + q)[1..] == q;
    assert ([Globstar] + q)[1..] == q;
    var k :| 0 <= k < |path| && S([g] + q, path[k..]);
    if |path[k..]| > 1 {
      assert path[k..][1..] == path[k + 1..] == path[1..][k..];
    } else {
      AllGlobstarsAccept([Globstar] + q, path[1..]);
    }
  }

  lemma GlobFromAfterGlobstar(p: seq<Part>, str: Text, t: nat, o: nat)
    requires t + 1 < |p| && o <= |str| && p[t].Globstar? && GlobFrom(p, str, t, o)
    ensures At(p, str, t, o)
  {
    hide Split;
    var path := Split(str[o..]);
    assert ([Globstar] + p[t..])[1..] == p[t..];
    var k :| 0 <= k < |path| && S(p[t..], path[k..]);
    GlobstarSkips(p[t..], path, k);
  }

  lemma {:induction false} NullableMatchesLast(q: seq<Part>, name: Text)
    requires q != [] && S(q, [[]]) && q[0] != Part([]) && NoEmptyAfterGlobstar(q)
    requires forall i :: 0 <= i < |q| && q[i].Part? ==> CompiledTokens(q[i].tokens)
    ensures S(q, [name])
  {
    var empty: seq<Text>, path: seq<Text> := [[]], [name];
    if q[0].Globstar? {
      if |q| > 1 {
        var k :| 0 <= k < |empty| && S(q[1..], empty[k..]);
        assert empty[0..] == empty && path[0..] == path;
        assert q[1] != Part([]);
        NullableMatchesLast(q[1..], name);
      }
    } else {
      EmptyMatch(q[0].tokens);
      StarsTakeAll(q[0].tokens, name);
    }
  }

  lemma {:induction false} StarsTakeAll(ts: seq<Token>, s: Text)
    requires OnlyStars(ts) && (ts != [] || s == [])
    ensures G(ts, s)
    decreases |ts|, |s|
  {
    if |ts| == 1 {
      assert ts == [Star];
      StarTakesAll(s);
    } else if |ts| > 1 {
      StarsTakeAll(ts[1..], s);
    }
  }

  // ---------- jumping to the next candidate ----------

  /** A segment starts at `at`, with byte `first`; with `text`, it is `text`. */
  predicate Candidate(str: Text, at: nat, first: byte, text: Text) {
    && at < |str| && str[at] == first
    && (at == 0 || str[at - 1] == SLASH)
    && (text == [] || (text <= str[at..] && (at + |text| == |str| || str[at + |text|] == SLASH)))
  }

  /** Between two finds of its first byte, no candidate is missed. */
  lemma NoCandidateBetween(str: Text, from: nat, first: byte, text: Text, i: nat)
    requires from <= i && (Find([first], str, from) == -1 || i < Find([first], str, from))
    ensures !Candidate(str, i, first, text)
  {
    if i < |str| && str[i] == first { assert Occurs([first], str, i); }
  }

  predicate SegmentIs(str: Text, at: nat, text: Text)
    requires at + |text| <= |str|
  {
    var end := at + |text|;
    && (at == 0 || str[at - 1] == SLASH)
    && (text == [] || ((end == |str| || str[end] == SLASH) && str[at..end] == text))
  }

  lemma SegmentIsCandidate(str: Text, at: nat, first: byte, text: Text)
    requires at < |str| && at + |text| <= |str| && str[at] == first
    ensures SegmentIs(str, at, text) <==> Candidate(str, at, first, text)
  {
    assert str[at..][..|text|] == str[at..at + |text|];
  }

  method FindSegment(str: Text, from: nat, first: byte, text: Text) returns (r: int)
    ensures r == -1 || (from <= r && Candidate(str, r, first, text))
    ensures forall i: nat :: from <= i && (r == -1 || i < r) ==> !Candidate(str, i, first, text)
  {
    hide Find, SegmentIs;
    var at := Find([first], str, from);
    forall i: nat | from <= i && (at == -1 || i < at) ensures !Candidate(str, i, first, text) {
      NoCandidateBetween(str, from, first, text, i);
    }
    while at != -1
      invariant at == -1 || (from <= at < |str| && str[at] == first)
      invariant forall i: nat :: from <= i && (at == -1 || i < at) ==> !Candidate(str, i, first, text)
      decreases if at == -1 then 0 else |str| - at
    {
      if at + |text| > |str| {
        return -1;
      }
      SegmentIsCandidate(str, at, first, text);
      if SegmentIs(str, at, text) {
        return at;
      }
      var next := Find([first], str, at + 1);
      forall i: nat | at < i && (next == -1 || i < next) ensures !Candidate(str, i, first, text) {
        NoCandidateBetween(str, at + 1, first, text, i);
      }
      at := next;
    }
    return -1;
  }

  /** Only a segment that starts with its literal's first byte can match. */
  lemma FirstByteNeeded(segs: seq<Segment>, str: Text, t: nat, o: nat)
    requires CompiledSegments(segs) && t < |segs| && o <= |str| && segs[t].hasFirst
    requires At(Parts(segs), str, t, o)
    ensures o < |str| && str[o] == segs[t].first
  {
    hide S, At, EndOf, Split;
    PartStep(Parts(segs), str, t, o);
  }

  /** The next start after `o` is past the end of its segment. */
  lemma StartAfter(str: Text, o: nat, at: nat)
    requires o < at <= |str| && str[at - 1] == SLASH
    ensures EndOf(str, o) < at
  {
    if at <= EndOf(str, o) { InSlice(str, o, EndOf(str, o), at - 1); }
  }

  lemma InSlice(str: Text, o: nat, e: nat, i: nat)
    requires o <= i < e <= |str|
    ensures str[i] in str[o..e]
  {
    assert str[o..e][i - o] == str[i];
  }

  /** Jumping over starts that are no candidates loses no match. */
  lemma {:induction false} JumpTo(segs: seq<Segment>, str: Text, t: nat, o: nat, at: int)
    requires CompiledSegments(segs) && t < |segs| && segs[t].hasFirst
    requires o <= |str| && (o == 0 || str[o - 1] == SLASH)
    requires at == -1 || (o <= at && Candidate(str, at, segs[t].first, []))
    requires forall i: nat :: o <= i && (at == -1 || i < at) ==> !Candidate(str, i, segs[t].first, [])
    ensures at == -1 ==> !GlobFrom(Parts(segs), str, t, o)
    ensures at != -1 ==> (GlobFrom(Parts(segs), str, t, o) <==> GlobFrom(Parts(segs), str, t, at))
    decreases |str| - o
  {
    hide At, GlobFrom, CompiledSegment;
    var p := Parts(segs);
    GlobFromUnfolds(p, str, t, o);
    if o != at {
      NoStartHere(segs, str, t, o);
      NextStart(str, o, at, segs[t].first);
      if EndOf(str, o) < |str| {
        JumpTo(segs, str, t, EndOf(str, o) + 1, at);
      }
    }
  }

  lemma NoStartHere(segs: seq<Segment>, str: Text, t: nat, o: nat)
    requires CompiledSegments(segs) && t < |segs| && segs[t].hasFirst
    requires o <= |str| && (o == 0 || str[o - 1] == SLASH) && !Candidate(str, o, segs[t].first, [])
    ensures !At(Parts(segs), str, t, o)
  {
    hide At;
    if At(Parts(segs), str, t, o) { FirstByteNeeded(segs, str, t, o); }
  }

  lemma NextStart(str: Text, o: nat, at: int, first: byte)
    requires o <= |str| && (at == -1 || (o < at && Candidate(str, at, first, [])))
    ensures at != -1 ==> EndOf(str, o) < at < |str|
  {
    if at != -1 { StartAfter(str, o, at); }
  }

  // ---------- execute ----------

  /** What the cursor and the retry point say of the whole path: with a retry point, the
      path matches exactly when a `**` before the retry segment finds a match from the
      retry offset on; the cursor is where the attempt at that offset has got to; and a
      later match of the retry segment is a match of the cursor's segment here or later. */
  ghost predicate Search(p: seq<Part>, str: Text, segment: nat, offset: nat, retry: nat, retryOffset: nat) {
    && p != [] && segment < |p| && offset <= |str| && retry <= |p| && retryOffset <= |str|
    && (offset == 0 || str[offset - 1] == SLASH)
    && (if retry == |p| then
          Accepts(p, str) <==> At(p, str, segment, offset)
        else
          && retry <= segment
          && (retryOffset == 0 || str[retryOffset - 1] == SLASH)
          && (Accepts(p, str) <==> GlobFrom(p, str, retry, retryOffset))
          && (At(p, str, retry, retryOffset) <==> At(p, str, segment, offset))
          && (LaterSegment(p, str, retry, retryOffset) ==> GlobFrom(p, str, segment, offset)))
  }

  lemma SearchStart(p: seq<Part>, str: Text)
    requires p != []
    ensures Search(p, str, 0, 0, |p|, 0)
  {
    hide S, Split;
    assert p[0..] == p && str[0..] == str;
  }

  /** At the end of the path, the bit of the cursor's segment is the answer. */
  lemma SearchEnd(segs: seq<Segment>, str: Text, segment: nat, retry: nat, retryOffset: nat)
    requires CompiledArm(segs) && Search(Parts(segs), str, segment, |str|, retry, retryOffset)
    ensures Accepts(Parts(segs), str) <==> segs[segment].nullable
  {
    hide S, Split, EndOf, GlobFrom;
    var p := Parts(segs);
    SplitFrom(str, |str|);
    assert RightBits(segs, segment);
    assert str[|str|..] == [];
    assert At(p, str, segment, |str|) == segs[segment].nullable;
    GlobFromUnfolds(p, str, segment, |str|);
    if retry < |p| { GlobFromUnfolds(p, str, retry, retryOffset); }
  }

  lemma SearchGlobstar(p: seq<Part>, str: Text, segment: nat, offset: nat, retry: nat, retryOffset: nat)
    requires Search(p, str, segment, offset, retry, retryOffset) && p[segment].Globstar?
    ensures segment + 1 == |p| ==> Accepts(p, str)
    ensures segment + 1 < |p| ==> Search(p, str, segment + 1, offset, segment + 1, offset)
    ensures segment + 1 < |p| ==> (Accepts(p, str) <==> GlobFrom(p, str, segment + 1, offset))
  {
    hide S, Split, EndOf, GlobFrom, LaterSegment, Accepts;
    if segment + 1 == |p| {
      LastGlobstar(p, str, offset);
    } else {
      GlobFromUnfolds(p, str, segment, offset);
      GlobFromUnfolds(p, str, segment + 1, offset);
      if GlobFrom(p, str, segment, offset) {
        GlobFromAfterGlobstar(p, str, segment, offset);
      }
    }
    if retry < |p| { GlobFromUnfolds(p, str, retry, retryOffset); }
  }

  lemma LastGlobstar(p: seq<Part>, str: Text, offset: nat)
    requires p != [] && p[|p| - 1].Globstar? && offset <= |str|
    ensures At(p, str, |p| - 1, offset)
  {
    assert p[|p| - 1..] == [Globstar];
  }

  lemma SearchStep(p: seq<Part>, str: Text, segment: nat, offset: nat, retry: nat, retryOffset: nat)
    requires Search(p, str, segment, offset, retry, retryOffset) && !p[segment].Globstar?
    requires G(p[segment].tokens, str[offset..EndOf(str, offset)])
    ensures EndOf(str, offset) == |str| && AllGlobstars(p[segment + 1..]) ==> Accepts(p, str)
    ensures EndOf(str, offset) < |str| && segment + 1 < |p| ==>
              Search(p, str, segment + 1, EndOf(str, offset) + 1, retry, retryOffset)
  {
    hide S, Split, EndOf, GlobFrom, LaterSegment, Accepts, At, G;
    PartStep(p, str, segment, offset);
    if retry < |p| {
      GlobFromUnfolds(p, str, retry, retryOffset);
      if GlobFrom(p, str, segment, offset) && EndOf(str, offset) < |str| && segment + 1 < |p| {
        GlobFromAfterStep(p, str, segment, offset);
      }
    }
  }

  /** The attempt at the cursor has failed. */
  ghost predicate Failed(p: seq<Part>, str: Text, t: nat, o: nat)
    requires t < |p| && o <= |str| && !p[t].Globstar?
  {
    || !G(p[t].tokens, str[o..EndOf(str, o)])
    || (EndOf(str, o) == |str| && !AllGlobstars(p[t + 1..]))
    || (EndOf(str, o) < |str| && t + 1 == |p|)
  }

  /** Then what is left is the retry segment, at a later segment of the path. */
  lemma SearchFailed(p: seq<Part>, str: Text, segment: nat, offset: nat, retry: nat, retryOffset: nat)
    requires Search(p, str, segment, offset, retry, retryOffset)
    requires !p[segment].Globstar? && Failed(p, str, segment, offset)
    ensures retry == |p| ==> !Accepts(p, str)
    ensures retry < |p| ==> (Accepts(p, str) <==> LaterSegment(p, str, retry, retryOffset))
    ensures retry < |p| ==> !At(p, str, retry, retryOffset)
  {
    hide S, Split, EndOf, GlobFrom, LaterSegment, Accepts, At, G;
    PartStep(p, str, segment, offset);
    if retry < |p| { GlobFromUnfolds(p, str, retry, retryOffset); }
  }

  lemma SearchFrom(p: seq<Part>, str: Text, retry: nat, at: nat)
    requires retry < |p| && at <= |str| && (at == 0 || str[at - 1] == SLASH)
    requires Accepts(p, str) <==> GlobFrom(p, str, retry, at)
    ensures Search(p, str, retry, at, retry, at)
  {
    hide S, Split, EndOf, GlobFrom, LaterSegment, Accepts, At;
    GlobFromUnfolds(p, str, retry, at);
  }

  lemma SearchNext(p: seq<Part>, str: Text, retry: nat, retryOffset: nat)
    requires retry < |p| && retryOffset <= |str| && EndOf(str, retryOffset) < |str|
    requires Accepts(p, str) <==> LaterSegment(p, str, retry, retryOffset)
    ensures Search(p, str, retry, EndOf(str, retryOffset) + 1, retry, EndOf(str, retryOffset) + 1)
  {
    hide S, Split, GlobFrom, Accepts, At;
    SearchFrom(p, str, retry, EndOf(str, retryOffset) + 1);
  }

  /** Once the last segment has been tried, nothing more matches, and the bit agrees. */
  lemma SearchExhausted(segs: seq<Segment>, str: Text, retry: nat, retryOffset: nat)
    requires CompiledArm(segs) && 0 < retry < |segs| && segs[retry - 1].kind.Recursive?
    requires retryOffset <= |str| && EndOf(str, retryOffset) == |str| && !At(Parts(segs), str, retry, retryOffset)
    ensures !segs[retry].nullable && !LaterSegment(Parts(segs), str, retry, retryOffset)
  {
    hide S, Split, EndOf, G, CompiledSegment;
    var p := Parts(segs);
    SplitFrom(str, retryOffset);
    assert RightBits(segs, retry);
    if segs[retry].nullable {
      forall i | 0 <= i < |p[retry..]| && p[retry..][i].Part?
        ensures CompiledTokens(p[retry..][i].tokens)
      {
        TokensOf(segs, retry + i);
      }
      assert p[retry - 1].Globstar? && p[retry..][0] == p[retry];
      assert forall j :: 0 <= j < |p[retry..]| ==> p[retry..][j] == p[retry + j];
      NullableMatchesLast(p[retry..], str[retryOffset..]);
    }
  }

  lemma OptionalRestMeans(segs: seq<Segment>, i: nat)
    requires CompiledArm(segs) && i < |segs|
    ensures segs[i].optionalRest <==> AllGlobstars(Parts(segs)[i + 1..])
  {
    assert RightBits(segs, i);
  }

  lemma FirstByteMismatch(part: Segment, str: Text, offset: nat)
    requires CompiledSegment(part) && part.hasFirst && offset < |str| && str[offset] != part.first
    ensures !G(part.tokens, str[offset..EndOf(str, offset)])
  {
    var input := str[offset..EndOf(str, offset)];
    assert |input| > 0 ==> input[0] == str[offset];
  }

  lemma TokensOf(segs: seq<Segment>, i: nat)
    requires CompiledSegments(segs) && i < |segs|
    ensures CompiledTokens(segs[i].tokens)
  {
  }

  /** Retrying before any candidate is retrying at the first one. */
  lemma SearchJump(segs: seq<Segment>, str: Text, retry: nat, from: nat, at: int)
    requires CompiledSegments(segs) && retry < |segs| && segs[retry].hasFirst
    requires from <= |str| && (from == 0 || str[from - 1] == SLASH)
    requires at == -1 || (from <= at && Candidate(str, at, segs[retry].first, []))
    requires forall i: nat :: from <= i && (at == -1 || i < at) ==> !Candidate(str, i, segs[retry].first, [])
    requires Accepts(Parts(segs), str) <==> GlobFrom(Parts(segs), str, retry, from)
    ensures at == -1 ==> !Accepts(Parts(segs), str)
    ensures at != -1 ==> Search(Parts(segs), str, retry, at, retry, at)
  {
    hide S, Split, EndOf, GlobFrom, LaterSegment, Accepts, At, CompiledSegment, Search;
    JumpTo(segs, str, retry, from, at);
    if at != -1 { SearchFrom(Parts(segs), str, retry, at); }
  }

  lemma SearchJumpLater(segs: seq<Segment>, str: Text, retry: nat, retryOffset: nat, at: int)
    requires CompiledSegments(segs) && retry < |segs| && segs[retry].hasFirst
    requires retryOffset <= |str| && (retryOffset == 0 || str[retryOffset - 1] == SLASH)
    requires at == -1 || (retryOffset < at && Candidate(str, at, segs[retry].first, []))
    requires forall i: nat :: retryOffset < i && (at == -1 || i < at) ==> !Candidate(str, i, segs[retry].first, [])
    requires Accepts(Parts(segs), str) <==> LaterSegment(Parts(segs), str, retry, retryOffset)
    ensures at == -1 ==> !Accepts(Parts(segs), str)
    ensures at != -1 ==> Search(Parts(segs), str, retry, at, retry, at)
  {
    hide S, Split, GlobFrom, Accepts, At, CompiledSegment, Search;
    var end := EndOf(str, retryOffset);
    if at != -1 { StartAfter(str, retryOffset, at); }
    if end < |str| { SearchJump(segs, str, retry, end + 1, at); }
  }

  /** What one non-recursive segment does with the path from `offset` on: whether it
      matches its piece, and where the piece ends. */
  method MatchSegment(part: Segment, str: Text, offset: nat) returns (matched: bool, end: nat)
    requires CompiledSegment(part) && !part.kind.Recursive? && offset <= |str|
    ensures matched <==> G(part.tokens, str[offset..EndOf(str, offset)])
    ensures matched ==> end == EndOf(str, offset)
  {
    if part.kind == Plain {
      // The text alone tells how long the piece must be.
      var text := if part.tokens == [] then [] else part.tokens[0].text;
      end := offset + |text|;
      matched := end <= |str| && (end == |str| || str[end] == SLASH) && str[offset..end] == text;
      PlainMatches(part, str, offset, text);
    } else {
      end := EndOf(str, offset);
      var input := str[offset..end];
      if part.kind == Affix {
        matched := MatchAffix(part.tokens, input);
      } else {
        matched := MatchTokens(part.tokens, input);
      }
    }
  }

  lemma PlainMatches(part: Segment, str: Text, offset: nat, text: Text)
    requires CompiledSegment(part) && part.kind == Plain && offset <= |str|
    requires text == if part.tokens == [] then [] else part.tokens[0].text
    ensures G(part.tokens, str[offset..EndOf(str, offset)]) <==> str[offset..EndOf(str, offset)] == text
    ensures str[offset..EndOf(str, offset)] == text <==>
            var end := offset + |text|;
            end <= |str| && (end == |str| || str[end] == SLASH) && str[offset..end] == text
  {
    hide Split;
    var e := EndOf(str, offset);
    var input := str[offset..e];
    if part.tokens != [] {
      assert part.tokens[1..] == [];
      if text <= input { assert input == text + input[|text|..]; }
    }
    var end := offset + |text|;
    if end <= |str| && (end == |str| || str[end] == SLASH) && str[offset..end] == text {
      EndOfUnique(str, offset, end);
    }
  }

  /** The segment program gives the answer of the recursive definition, for every arm and
      every path, and ends: its retry point only moves forward. */
  method Execute(segs: seq<Segment>, str: Text) returns (r: bool)
    requires CompiledArm(segs)
    ensures r <==> Accepts(Parts(segs), str)
  {
    hide S, Split, GlobFrom, LaterSegment, Accepts, At, Search, CompiledSegment, RightBits, G, AllGlobstars, EndOf,
         NoEmptyAfterGlobstar;
    var segment: nat, offset: nat := 0, 0;
    var retry: nat, retryOffset: nat := |segs|, 0;
    ghost var p := Parts(segs);
    SearchStart(p, str);
    while true
      invariant segment < |segs| && offset <= |str| && retry <= |segs| && retryOffset <= |str|
      invariant retry < |segs| ==> 0 < retry <= segment && segs[retry - 1].kind.Recursive?
      invariant retry < |segs| ==> retryOffset <= offset
      invariant offset < |str| ==> offset == 0 || str[offset - 1] == SLASH
      invariant retry < |segs| ==> retryOffset == 0 || str[retryOffset - 1] == SLASH || retryOffset == |str|
      invariant offset < |str| ==> Search(p, str, segment, offset, retry, retryOffset)
      invariant offset == |str| ==> (Accepts(p, str) <==> segs[segment].nullable)
                                    || Search(p, str, segment, offset, retry, retryOffset)
      decreases if retry == |segs| then |segs| + 1 else |segs| - retry,
                |str| - retryOffset, |segs| - segment
    {
      if offset == |str| {
        if Search(p, str, segment, offset, retry, retryOffset) {
          SearchEnd(segs, str, segment, retry, retryOffset);
        }
        return segs[segment].nullable;
      }
      var part := segs[segment];
      var from: nat;
      if part.kind.Recursive? {
        SearchGlobstar(p, str, segment, offset, retry, retryOffset);
        segment := segment + 1;
        if segment == |segs| {
          return true;
        }
        retry, retryOffset := segment, offset;
        if !segs[segment].hasFirst {
          continue;
        }
        from := offset;
        retryOffset := offset;
        var at := FindSegment(str, from, segs[retry].first, []);
        SearchJump(segs, str, retry, from, at);
        if at == -1 {
          return false;
        }
        retryOffset := at;
      } else {
        if !part.hasFirst || str[offset] == part.first {
          var matched, end := MatchSegment(part, str, offset);
          if matched {
            SearchStep(p, str, segment, offset, retry, retryOffset);
            OptionalRestMeans(segs, segment);
            if end == |str| {
              if part.optionalRest {
                return true;
              }
            } else if segment + 1 != |segs| {
              segment := segment + 1;
              offset := end + 1;
              continue;
            }
          }
        } else {
          FirstByteMismatch(part, str, offset);
        }
        SearchFailed(p, str, segment, offset, retry, retryOffset);
        if retry == |segs| {
          return false;
        }
        if !segs[retry].hasFirst {
          var end := EndOf(str, retryOffset);
          if end == |str| {
            SearchExhausted(segs, str, retry, retryOffset);
          } else {
            SearchNext(p, str, retry, retryOffset);
          }
          retryOffset := if end == |str| then end else end + 1;
          offset := retryOffset;
          segment := retry;
          continue;
        }
        from := retryOffset + 1;
        var at := FindSegment(str, from, segs[retry].first, []);
        SearchJumpLater(segs, str, retry, retryOffset, at);
        if at == -1 {
          return false;
        }
        retryOffset := at;
      }
      offset := retryOffset;
      segment := retry;
    }
  }
}
