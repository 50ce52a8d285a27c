/** Matching one path segment: the loop that remembers only the latest star. */
module GlobTokens {
  import opened GlobText
  import opened GlobSpec

  // ---------- character classes ----------

  /** Compiled ranges: each in order, apart from the next one. */
  predicate SortedRanges(ranges: seq<Range>) {
    && (forall i :: 0 <= i < |ranges| ==> ranges[i].0 <= ranges[i].1)
    && (forall i, j :: 0 <= i < j < |ranges| ==> ranges[i].1 < ranges[j].0)
  }

  /** The first range from `lo` on, before `hi`, whose upper bound reaches `value`. */
  function LowerBound(ranges: seq<Range>, value: int, lo: nat, hi: nat): (at: nat)
    requires SortedRanges(ranges) && lo <= hi <= |ranges|
    ensures lo <= at <= hi
    ensures forall i :: lo <= i < at ==> ranges[i].1 < value
    ensures forall i :: at <= i < hi ==> value <= ranges[i].1
    decreases hi - lo
  {
    if lo == hi then lo
    else
      var middle := lo + (hi - lo) / 2;
      if ranges[middle].1 < value then LowerBound(ranges, value, middle + 1, hi)
      else LowerBound(ranges, value, lo, middle)
  }

  /** One binary search decides membership in the class as a set of ranges. */
  function Contains(negated: bool, ranges: seq<Range>, value: int): (r: bool)
    requires SortedRanges(ranges)
    ensures r == InClass(negated, ranges, value)
  {
    var at := LowerBound(ranges, value, 0, |ranges|);
    var hit := at != |ranges| && ranges[at].0 <= value;
    if negated then !hit else hit
  }

  // ---------- the compiled form of a segment ----------

  /** What compilation guarantees of a token: literals are non-empty UTF-8 without a
      slash, and classes are sorted. */
  predicate CompiledToken(t: Token) {
    match t
    case Literal(text) => text != [] && IsUtf8(text) && SLASH !in text
    case Class(_, ranges) => SortedRanges(ranges)
    case _ => true
  }

  /** Whether `?` or a class takes the atom. */
  predicate TakesAtom(t: Token, value: int)
    requires CompiledToken(t)
  {
    match t
    case Any => true
    case Class(negated, ranges) => Contains(negated, ranges, value)
    case _ => false
  }

  predicate CompiledTokens(ts: seq<Token>) {
    forall i :: 0 <= i < |ts| ==> CompiledToken(ts[i])
  }

  // ---------- retry points ----------

  /** The tokens from `t` on match the input from `o` on. */
  predicate From(ts: seq<Token>, s: Text, t: nat, o: nat)
    requires t <= |ts| && o <= |s|
  {
    G(ts[t..], s[o..])
  }

  /** The same behind a star. */
  predicate StarFrom(ts: seq<Token>, s: Text, t: nat, o: nat)
    requires t <= |ts| && o <= |s|
  {
    G([Star] + ts[t..], s[o..])
  }

  function NextAtom(s: Text, o: nat): (n: nat)
    requires o < |s|
    ensures o < n <= |s|
  {
    o + AtomLen(s[o..])
  }

  /** The tokens from `t` on match from some atom boundary strictly past `o`. */
  predicate Later(ts: seq<Token>, s: Text, t: nat, o: nat)
    requires t <= |ts| && o <= |s|
  {
    o < |s| && StarFrom(ts, s, t, NextAtom(s, o))
  }

  lemma StarFromUnfolds(ts: seq<Token>, s: Text, t: nat, o: nat)
    requires t <= |ts| && o <= |s|
    ensures StarFrom(ts, s, t, o) <==> From(ts, s, t, o) || Later(ts, s, t, o)
    ensures t < |ts| && ts[t].Star? ==> From(ts, s, t, o) == StarFrom(ts, s, t + 1, o)
  {
    assert ([Star] + ts[t..])[1..] == ts[t..];
    if o < |s| {
      assert s[o..][AtomLen(s[o..])..] == s[NextAtom(s, o)..];
    }
    if t < |ts| && ts[t].Star? {
      assert ts[t..] == [Star] + ts[t + 1..];
    }
  }

  /** From the boundary `o`, `n` is a boundary too. */
  predicate Bounds(s: Text, o: nat, n: nat) {
    o <= n <= |s| && Reaches(s[o..], n - o)
  }

  lemma BoundsThrough(s: Text, o: nat, m: nat, n: nat)
    requires Bounds(s, o, m) && Bounds(s, m, n)
    ensures Bounds(s, o, n)
  {
    hide Reaches, AtomLen;
    assert s[o..][m - o..] == s[m..];
    ReachesThrough(s[o..], m - o, n - m);
  }

  lemma BoundsBetween(s: Text, o: nat, m: nat, n: nat)
    requires Bounds(s, o, m) && Bounds(s, o, n) && m <= n
    ensures Bounds(s, m, n)
  {
    hide Reaches, AtomLen;
    assert s[o..][m - o..] == s[m..];
    ReachesBetween(s[o..], m - o, n - o);
  }

  lemma NextBounds(s: Text, o: nat)
    requires o < |s|
    ensures Bounds(s, o, NextAtom(s, o))
  {
    assert Reaches(s[o..][AtomLen(s[o..])..], 0);
  }

  lemma SynchronizedBounds(s: Text, o: nat, at: nat)
    requires o <= at <= |s| && (at == |s| || StartsCharacter(s[at..]))
    ensures Bounds(s, o, at)
  {
    assert s[o..][at - o..] == s[at..];
    Synchronizes(s[o..], at - o);
  }

  lemma StarAt(ts: seq<Token>, s: Text, t: nat, o: nat) returns (n: nat)
    requires t <= |ts| && o <= |s| && StarFrom(ts, s, t, o)
    ensures Bounds(s, o, n) && From(ts, s, t, n)
  {
    var k := StarChoice(ts[t..], s[o..]);
    n := o + k;
    assert s[o..][k..] == s[n..];
  }

  lemma StarWith(ts: seq<Token>, s: Text, t: nat, o: nat, n: nat)
    requires t <= |ts| && Bounds(s, o, n) && From(ts, s, t, n)
    ensures StarFrom(ts, s, t, o)
  {
    assert s[o..][n - o..] == s[n..];
    StarChooses(ts[t..], s[o..], n - o);
  }

  /** Where a later match starts. */
  lemma LaterAt(ts: seq<Token>, s: Text, t: nat, o: nat) returns (n: nat)
    requires t <= |ts| && o <= |s| && Later(ts, s, t, o)
    ensures o < n && Bounds(s, o, n) && From(ts, s, t, n)
  {
    n := StarAt(ts, s, t, NextAtom(s, o));
    NextBounds(s, o);
    BoundsThrough(s, o, NextAtom(s, o), n);
  }

  lemma LaterFrom(ts: seq<Token>, s: Text, t: nat, o: nat, n: nat)
    requires t <= |ts| && o < n && Bounds(s, o, n) && From(ts, s, t, n)
    ensures Later(ts, s, t, o)
  {
    NextBounds(s, o);
    BoundsBetween(s, o, NextAtom(s, o), n);
    StarWith(ts, s, t, NextAtom(s, o), n);
  }

  /** A star that can match later can match from here. */
  lemma StarFromEarlier(ts: seq<Token>, s: Text, t: nat, o: nat, n: nat)
    requires t <= |ts| && Bounds(s, o, n) && StarFrom(ts, s, t, n)
    ensures StarFrom(ts, s, t, o)
  {
    var k := StarAt(ts, s, t, n);
    BoundsThrough(s, o, n, k);
    StarWith(ts, s, t, o, k);
  }

  /** The first token at `o` fits and ends at `next`, the rest must match from there. */
  predicate StepTo(ts: seq<Token>, s: Text, t: nat, o: nat, next: nat)
    requires t < |ts| && o <= |s|
  {
    match ts[t]
    case Literal(text) => text <= s[o..] && next == o + |text|
    case Any => o < |s| && next == NextAtom(s, o)
    case Class(n, r) => o < |s| && InClass(n, r, AtomValue(s[o..])) && next == NextAtom(s, o)
    case Star => false
  }

  lemma StepMatches(ts: seq<Token>, s: Text, t: nat, o: nat, next: nat)
    requires t < |ts| && o <= |s| && !ts[t].Star?
    requires next == StepEnd(ts, s, t, o)
    ensures From(ts, s, t, o) <==> StepTo(ts, s, t, o, next) && next <= |s| && From(ts, s, t + 1, next)
    ensures StepTo(ts, s, t, o, next) ==> next <= |s|
  {
    assert ts[t..][1..] == ts[t + 1..];
    if StepTo(ts, s, t, o, next) {
      assert s[o..][next - o..] == s[next..];
    }
  }

  /** Whatever a token takes is whole atoms. */
  lemma StepBounds(ts: seq<Token>, s: Text, t: nat, o: nat, next: nat)
    requires CompiledTokens(ts) && t < |ts| && o <= |s| && StepTo(ts, s, t, o, next)
    ensures o < next && Bounds(s, o, next)
  {
    if ts[t].Literal? {
      ReachesText(ts[t].text, s[o..]);
    } else {
      NextBounds(s, o);
    }
  }

  /** Where the token at `t` ends when it starts at `o`. */
  function StepEnd(ts: seq<Token>, s: Text, t: nat, o: nat): nat
    requires t < |ts| && o <= |s|
  {
    match ts[t]
    case Literal(text) => o + |text|
    case _ => if o < |s| then NextAtom(s, o) else o
  }

  /** Passing a token keeps the later matches later: a star-free token takes no less from
      a later start than it does from an earlier one. */
  lemma LaterAfterStep(ts: seq<Token>, s: Text, t: nat, o: nat, next: nat)
    requires CompiledTokens(ts) && t < |ts| && o <= |s| && StepTo(ts, s, t, o, next) && next <= |s|
    requires Later(ts, s, t, o)
    ensures Later(ts, s, t + 1, next)
  {
    var n := LaterAt(ts, s, t, o);
    var end := StepEnd(ts, s, t, n);
    StepMatches(ts, s, t, n, end);
    StepBounds(ts, s, t, o, next);
    StepBounds(ts, s, t, n, end);
    BoundsThrough(s, o, n, end);
    if !ts[t].Literal? {
      AtomBeforeLater(s, o, n);
    }
    BoundsBetween(s, o, next, end);
    LaterFrom(ts, s, t + 1, next, end);
  }

  lemma AtomBeforeLater(s: Text, o: nat, n: nat)
    requires o < n && Bounds(s, o, n)
    ensures NextAtom(s, o) <= n
  {
  }

  // ---------- searching for the literal after a star ----------

  /** `text` stands at `at` in `s`. */
  predicate Occurs(text: Text, s: Text, at: nat) {
    at <= |s| && text <= s[at..]
  }

  /** std::string_view::find: the first occurrence from `from` on, or -1. */
  function Find(text: Text, s: Text, from: nat): (at: int)
    ensures at == -1 || from <= at
    ensures at != -1 ==> Occurs(text, s, at) && at + |text| <= |s|
    ensures forall i: nat :: from <= i && (at == -1 || i < at) ==> !Occurs(text, s, i)
    decreases |s| - from
  {
    if from > |s| then -1
    else if text <= s[from..] then from
    else Find(text, s, from + 1)
  }

  /** Between here and the next occurrence of its literal, a star finds no match. */
  lemma StarSkipsTo(ts: seq<Token>, s: Text, t: nat, o: nat, at: int)
    requires CompiledTokens(ts) && t < |ts| && o <= |s| && ts[t].Literal?
    requires at == Find(ts[t].text, s, o)
    ensures at == -1 ==> !StarFrom(ts, s, t, o)
    ensures at != -1 ==> (StarFrom(ts, s, t, o) <==> StarFrom(ts, s, t, at))
  {
    var text := ts[t].text;
    if at != -1 {
      AtomOfPrefix(text, s[at..]);
      SynchronizedBounds(s, o, at);
      if StarFrom(ts, s, t, at) {
        StarFromEarlier(ts, s, t, o, at);
      }
    }
    if StarFrom(ts, s, t, o) {
      var n := StarAt(ts, s, t, o);
      assert Occurs(text, s, n);
      BoundsBetween(s, o, at, n);
      StarWith(ts, s, t, at, n);
    }
  }

  predicate EndsWith(s: Text, text: Text) {
    |text| <= |s| && s[|s| - |text|..] == text
  }

  /** A star and a last literal ask for a suffix. */
  lemma StarThenSuffix(ts: seq<Token>, s: Text, t: nat, o: nat)
    requires CompiledTokens(ts) && t + 1 == |ts| && o <= |s| && ts[t].Literal?
    ensures StarFrom(ts, s, t, o) <==> |s| - o >= |ts[t].text| && EndsWith(s, ts[t].text)
  {
    var text := ts[t].text;
    assert ts[t..] == [Literal(text)] && ts[t..][1..] == [];
    if StarFrom(ts, s, t, o) {
      var n := StarAt(ts, s, t, o);
      assert G(ts[t..][1..], s[n..][|text|..]);
      assert s[n..] == text;
    }
    if |s| - o >= |text| && EndsWith(s, text) {
      var n := |s| - |text|;
      SynchronizedBounds(s, o, n);
      assert text[|text|..] == [];
      StarWith(ts, s, t, o, n);
    }
  }

  // ---------- match_tokens ----------

  /** What the cursor and the retry point say about the whole match: the input matches
      exactly when it does from the cursor on, or from the retry token at some later
      boundary; and a later match of the retry token makes one of the cursor's. */
  ghost predicate Search(ts: seq<Token>, s: Text, token: nat, offset: nat, retryToken: nat, retryOffset: nat) {
    && token <= |ts| && offset <= |s| && retryToken <= |ts| && retryOffset <= |s|
    && (retryToken < |ts| ==> retryToken <= token)
    && (token == retryToken < |ts| ==> offset == retryOffset)
    && (G(ts, s) <==>
        || From(ts, s, token, offset)
        || (retryToken < |ts| && Later(ts, s, retryToken, retryOffset)))
    && (retryToken < |ts| && Later(ts, s, retryToken, retryOffset) ==> Later(ts, s, token, offset))
  }

  lemma SearchStart(ts: seq<Token>, s: Text)
    ensures Search(ts, s, 0, 0, |ts|, 0)
  {
    assert ts[0..] == ts && s[0..] == s;
  }

  lemma SearchEnd(ts: seq<Token>, s: Text, retryToken: nat, retryOffset: nat)
    requires Search(ts, s, |ts|, |s|, retryToken, retryOffset)
    ensures G(ts, s)
  {
    assert From(ts, s, |ts|, |s|);
  }

  lemma SearchStar(ts: seq<Token>, s: Text, token: nat, offset: nat, retryToken: nat, retryOffset: nat)
    requires Search(ts, s, token, offset, retryToken, retryOffset) && token < |ts| && ts[token].Star?
    ensures token + 1 < |ts| ==> Search(ts, s, token + 1, offset, token + 1, offset)
    ensures token + 1 == |ts| ==> G(ts, s)
  {
    StarFromUnfolds(ts, s, token, offset);
    StarFromUnfolds(ts, s, token + 1, offset);
    if token + 1 == |ts| {
      assert [Star] + ts[token + 1..] == [Star];
      StarTakesAll(s[offset..]);
    } else if retryToken < |ts| && Later(ts, s, token, offset) {
      var n := LaterAt(ts, s, token, offset);
      StarFromUnfolds(ts, s, token, n);
      StarFromEarlier(ts, s, token + 1, offset, n);
    }
  }

  lemma SearchLiteral(ts: seq<Token>, s: Text, token: nat, offset: nat, at: int)
    requires CompiledTokens(ts) && Search(ts, s, token, offset, token, offset)
    requires token < |ts| && ts[token].Literal? && at == Find(ts[token].text, s, offset)
    ensures at == -1 ==> !G(ts, s)
    ensures at != -1 ==> Search(ts, s, token + 1, at + |ts[token].text|, token, at)
  {
    hide From, StarFrom, Later, Bounds;
    StarFromUnfolds(ts, s, token, offset);
    StarSkipsTo(ts, s, token, offset, at);
    if at != -1 {
      StarFromUnfolds(ts, s, token, at);
      assert Search(ts, s, token, at, token, at);
      SearchStep(ts, s, token, at, token, at, at + |ts[token].text|);
    }
  }

  lemma SearchSuffix(ts: seq<Token>, s: Text, token: nat, offset: nat)
    requires CompiledTokens(ts) && Search(ts, s, token, offset, token, offset)
    requires token + 1 == |ts| && ts[token].Literal?
    ensures G(ts, s) <==> |s| - offset >= |ts[token].text| && EndsWith(s, ts[token].text)
  {
    hide From, StarFrom, Later, Bounds;
    StarFromUnfolds(ts, s, token, offset);
    StarThenSuffix(ts, s, token, offset);
  }

  lemma SearchStep(ts: seq<Token>, s: Text, token: nat, offset: nat, retryToken: nat, retryOffset: nat, next: nat)
    requires CompiledTokens(ts) && Search(ts, s, token, offset, retryToken, retryOffset)
    requires token < |ts| && StepTo(ts, s, token, offset, next)
    ensures Search(ts, s, token + 1, next, retryToken, retryOffset)
  {
    StepMatches(ts, s, token, offset, next);
    if Later(ts, s, token, offset) {
      LaterAfterStep(ts, s, token, offset, next);
    }
  }

  /** Nothing matches from the cursor on: the tokens ended first, or the next does not fit. */
  predicate Mismatch(ts: seq<Token>, s: Text, t: nat, o: nat)
    requires t <= |ts| && o <= |s|
  {
    if t == |ts| then o < |s|
    else
      match ts[t]
      case Literal(text) => !(text <= s[o..])
      case Any => o == |s|
      case Class(n, r) => o == |s| || !InClass(n, r, AtomValue(s[o..]))
      case Star => false
  }

  /** A mismatch at the cursor leaves the retry token, one atom further on. */
  lemma SearchRetry(ts: seq<Token>, s: Text, token: nat, offset: nat, retryToken: nat, retryOffset: nat)
    requires Search(ts, s, token, offset, retryToken, retryOffset) && Mismatch(ts, s, token, offset)
    ensures retryToken == |ts| || retryOffset == |s| ==> !G(ts, s)
    ensures retryToken < |ts| && retryOffset < |s| ==>
              Search(ts, s, retryToken, NextAtom(s, retryOffset), retryToken, NextAtom(s, retryOffset))
  {
    assert !From(ts, s, token, offset);
    if retryToken < |ts| && retryOffset < |s| {
      StarFromUnfolds(ts, s, retryToken, NextAtom(s, retryOffset));
    }
  }

  method MatchTokens(ts: seq<Token>, input: Text) returns (r: bool)
    requires CompiledTokens(ts)
    ensures r <==> G(ts, input)
  {
    hide Search, G, StartsCharacter, AtomLen, AtomValue, CompiledToken, EndsWith, Contains;
    var token: nat, offset: nat := 0, 0;
    // The token after the latest star, which has taken all before `retryOffset`; the
    // end of the tokens while there was no star.
    var retryToken: nat, retryOffset: nat := |ts|, 0;
    SearchStart(ts, input);
    while true
      invariant token <= |ts| && offset <= |input| && retryToken <= |ts| && retryOffset <= |input|
      invariant retryToken < |ts| ==> retryToken <= token
      invariant token == retryToken < |ts| ==> offset == retryOffset
      invariant Search(ts, input, token, offset, retryToken, retryOffset)
      decreases if retryToken == |ts| then |ts| + 1 else |ts| - retryToken,
                |input| - retryOffset, |ts| - token
    {
      if token == |ts| {
        if offset == |input| {
          SearchEnd(ts, input, retryToken, retryOffset);
          return true;
        }
      } else {
        var op := ts[token];
        match op {
          case Star =>
            SearchStar(ts, input, token, offset, retryToken, retryOffset);
            token := token + 1;
            retryToken, retryOffset := token, offset;
            if token == |ts| {
              return true;
            }
            continue;
          case Literal(text) =>
            if token == retryToken {
              if token + 1 == |ts| {
                SearchSuffix(ts, input, token, offset);
                return |input| - offset >= |text| && EndsWith(input, text);
              }
              var at := Find(text, input, offset);
              SearchLiteral(ts, input, token, offset, at);
              if at == -1 {
                return false;
              }
              retryOffset := at;
              offset := at + |text|;
              token := token + 1;
              continue;
            }
            if text <= input[offset..] {
              SearchStep(ts, input, token, offset, retryToken, retryOffset, offset + |text|);
              offset := offset + |text|;
              token := token + 1;
              continue;
            }
          case _ =>
            if offset != |input| {
              var atom := AtomValue(input[offset..]);
              if TakesAtom(op, atom) {
                SearchStep(ts, input, token, offset, retryToken, retryOffset, NextAtom(input, offset));
                offset := NextAtom(input, offset);
                token := token + 1;
                continue;
              }
            }
        }
      }
      SearchRetry(ts, input, token, offset, retryToken, retryOffset);
      if retryToken == |ts| || retryOffset == |input| {
        return false;
      }
      retryOffset := NextAtom(input, retryOffset);
      offset := retryOffset;
      token := retryToken;
    }
  }

  lemma {:induction false} StarTakesAll(s: Text)
    ensures G([Star], s)
    decreases |s|
  {
    assert [Star][1..] == [];
    if s != [] { StarTakesAll(s[AtomLen(s)..]); }
  }

  // ---------- match_affix ----------

  /** One star with a literal before it, after it, on both sides or on neither. */
  predicate AffixTokens(ts: seq<Token>) {
    || ts == [Star]
    || (|ts| == 2 && ts[0].Literal? && ts[1] == Star)
    || (|ts| == 2 && ts[0] == Star && ts[1].Literal?)
    || (|ts| == 3 && ts[0].Literal? && ts[1] == Star && ts[2].Literal?)
  }

  function AffixHead(ts: seq<Token>): Text
    requires AffixTokens(ts)
  {
    if ts[0].Literal? then ts[0].text else []
  }

  function AffixTail(ts: seq<Token>): Text
    requires AffixTokens(ts)
  {
    if ts[|ts| - 1].Literal? then ts[|ts| - 1].text else []
  }

  /** Comparing both ends is matching, and the ends may not overlap. */
  function MatchAffix(ts: seq<Token>, input: Text): (r: bool)
    requires CompiledTokens(ts) && AffixTokens(ts)
    ensures r <==> G(ts, input)
  {
    var prefix, suffix := AffixHead(ts), AffixTail(ts);
    AffixMatches(ts, input);
    |input| >= |prefix| + |suffix| && prefix <= input && EndsWith(input, suffix)
  }

  lemma AffixMatches(ts: seq<Token>, s: Text)
    requires CompiledTokens(ts) && AffixTokens(ts)
    ensures G(ts, s) <==>
            |s| >= |AffixHead(ts)| + |AffixTail(ts)| && AffixHead(ts) <= s && EndsWith(s, AffixTail(ts))
  {
    hide StartsCharacter, AtomLen, AtomValue, IsUtf8;
    var head, tail := AffixHead(ts), AffixTail(ts);
    var star := if ts[0].Star? then 0 else 1;
    if head <= s {
      var o := |head|;
      assert ts[star..] == [Star] + ts[star + 1..];
      if tail == [] {
        assert ts[star..] == [Star];
        StarTakesAll(s[o..]);
      } else {
        StarThenSuffix(ts, s, star + 1, o);
      }
      assert G(ts, s) == G(ts[star..], s[o..]) by {
        assert ts[0..] == ts && s[0..] == s;
        if star == 1 { assert ts[1..] == ts[star..]; }
      }
    }
  }
}
