/** What a glob pattern means: a small recursive definition, free of retry points,
    precomputed bits and special plans, that everything else is proved against. */
module GlobSpec {
  import opened GlobText

  type Range = (int, int)

  /** One operation of a pattern segment. */
  datatype Token =
    | Literal(text: Text)
    | Star
    | Any
    | Class(negated: bool, ranges: seq<Range>)

  /** A class as written: some member range holds the value, or none does when negated. */
  predicate InClass(negated: bool, ranges: seq<Range>, value: int) {
    negated != InRanges(ranges, value)
  }

  predicate InRanges(ranges: seq<Range>, value: int) {
    exists i :: 0 <= i < |ranges| && ranges[i].0 <= value <= ranges[i].1
  }

  /** `ts` matches all of `s`: `?` and classes take one atom, a star any number of them. */
  predicate G(ts: seq<Token>, s: Text)
    decreases |ts|, |s|
  {
    if ts == [] then s == []
    else
      match ts[0]
      case Literal(t) => t <= s && G(ts[1..], s[|t|..])
      case Any => s != [] && G(ts[1..], s[AtomLen(s)..])
      case Class(n, r) => s != [] && InClass(n, r, AtomValue(s)) && G(ts[1..], s[AtomLen(s)..])
      case Star => G(ts[1..], s) || (s != [] && G(ts, s[AtomLen(s)..]))
  }

  /** A star is the choice of how many whole atoms it takes. */
  lemma {:induction false} StarChooses(ts: seq<Token>, s: Text, n: nat)
    requires Reaches(s, n) && n <= |s| && G(ts, s[n..])
    ensures G([Star] + ts, s)
    decreases n
  {
    assert ([Star] + ts)[1..] == ts;
    if n == 0 {
      assert s[0..] == s;
    } else {
      var k := AtomLen(s);
      assert s[k..][n - k..] == s[n..];
      StarChooses(ts, s[k..], n - k);
    }
  }

  lemma {:induction false} StarChoice(ts: seq<Token>, s: Text) returns (n: nat)
    requires G([Star] + ts, s)
    ensures Reaches(s, n) && n <= |s| && G(ts, s[n..])
    decreases |s|
  {
    assert ([Star] + ts)[1..] == ts;
    if G(ts, s) {
      n := 0;
      assert s[0..] == s;
    } else {
      var k := AtomLen(s);
      var m := StarChoice(ts, s[k..]);
      n := k + m;
      assert s[k..][m..] == s[n..];
    }
  }

  // ---------- the same over code points ----------

  datatype CodeToken = One(value: int) | AnyOne | OneOf(negated: bool, ranges: seq<Range>) | Many

  /** The textbook match over a sequence of code points. */
  predicate MatchesCodes(ts: seq<CodeToken>, cs: seq<int>)
    decreases |ts|
  {
    if ts == [] then cs == []
    else
      match ts[0]
      case One(v) => cs != [] && cs[0] == v && MatchesCodes(ts[1..], cs[1..])
      case AnyOne => cs != [] && MatchesCodes(ts[1..], cs[1..])
      case OneOf(n, r) => cs != [] && InClass(n, r, cs[0]) && MatchesCodes(ts[1..], cs[1..])
      case Many => exists k :: 0 <= k <= |cs| && MatchesCodes(ts[1..], cs[k..])
  }

  function Ones(cs: seq<int>): seq<CodeToken> {
    seq(|cs|, i requires 0 <= i < |cs| => One(cs[i]))
  }

  function CodeTokens(ts: seq<Token>): seq<CodeToken> {
    if ts == [] then []
    else
      (match ts[0]
       case Literal(t) => Ones(Atoms(t))
       case Any => [AnyOne]
       case Class(n, r) => [OneOf(n, r)]
       case Star => [Many])
      + CodeTokens(ts[1..])
  }

  predicate Utf8Literals(ts: seq<Token>) {
    forall i :: 0 <= i < |ts| && ts[i].Literal? ==> IsUtf8(ts[i].text)
  }

  /** Matching bytes is matching code points, when the pattern is UTF-8; the input may
      be any bytes. */
  lemma {:induction false} BytesMatchAsCodes(ts: seq<Token>, s: Text)
    requires Utf8Literals(ts)
    ensures G(ts, s) <==> MatchesCodes(CodeTokens(ts), Atoms(s))
    decreases |ts|, |s|
  {
    if ts != [] {
      var rest := ts[1..];
      assert Utf8Literals(rest);
      var cs := Atoms(s);
      match ts[0] {
        case Literal(t) =>
          OnesMatch(Atoms(t), CodeTokens(rest), cs);
          if t <= s {
            assert s == t + s[|t|..];
            AtomsConcat(t, s[|t|..]);
            assert cs[|Atoms(t)|..] == Atoms(s[|t|..]);
            BytesMatchAsCodes(rest, s[|t|..]);
          } else if Atoms(t) <= cs {
            AtomsPrefix(t, s);
          }
        case Star =>
          assert CodeTokens(ts) == [Many] + CodeTokens(rest);
          assert CodeTokens(ts)[1..] == CodeTokens(rest);
          BytesMatchAsCodes(rest, s);
          assert cs[0..] == cs;
          if s != [] {
            var tail := s[AtomLen(s)..];
            BytesMatchAsCodes(ts, tail);
            assert cs[1..] == Atoms(tail);
            ManyUnfolds(CodeTokens(rest), cs);
          }
        case _ =>
          assert CodeTokens(ts)[1..] == CodeTokens(rest);
          if s != [] {
            assert cs[1..] == Atoms(s[AtomLen(s)..]);
            BytesMatchAsCodes(rest, s[AtomLen(s)..]);
          }
      }
    }
  }

  lemma {:induction false} OnesMatch(vs: seq<int>, ts: seq<CodeToken>, cs: seq<int>)
    ensures MatchesCodes(Ones(vs) + ts, cs) <==> vs <= cs && MatchesCodes(ts, cs[|vs|..])
  {
    var all := Ones(vs) + ts;
    if vs == [] {
      assert all == ts && cs[0..] == cs;
    } else {
      assert all[1..] == Ones(vs[1..]) + ts;
      if cs != [] {
        OnesMatch(vs[1..], ts, cs[1..]);
        assert vs == [vs[0]] + vs[1..] && cs == [cs[0]] + cs[1..];
        if vs <= cs { assert cs[1..][|vs| - 1..] == cs[|vs|..]; }
      }
    }
  }

  lemma ManyUnfolds(ts: seq<CodeToken>, cs: seq<int>)
    requires cs != []
    ensures MatchesCodes([Many] + ts, cs) <==>
            MatchesCodes(ts, cs) || MatchesCodes([Many] + ts, cs[1..])
  {
    var all := [Many] + ts;
    assert all[1..] == ts;
    if MatchesCodes(all, cs) && !MatchesCodes(ts, cs) {
      var k :| 0 <= k <= |cs| && MatchesCodes(ts, cs[k..]);
      assert cs[0..] == cs;
      assert cs[1..][k - 1..] == cs[k..];
    }
    if MatchesCodes(ts, cs) { assert cs[0..] == cs; }
    if MatchesCodes(all, cs[1..]) {
      var k :| 0 <= k <= |cs[1..]| && MatchesCodes(ts, cs[1..][k..]);
      assert cs[1..][k..] == cs[k + 1..];
    }
  }

  // ---------- patterns of segments ----------

  /** A segment of a pattern: `**` alone, or tokens for one path segment. */
  datatype Part = Globstar | Part(tokens: seq<Token>)

  predicate AllGlobstars(p: seq<Part>) {
    forall i :: 0 <= i < |p| ==> p[i].Globstar?
  }

  /** `p` matches the segments `path`. A `**` stands for any number of segments, and
      takes the separator on one side of it: a pattern that goes on with `**` alone may
      stop where the path does. */
  predicate S(p: seq<Part>, path: seq<Text>)
    requires p != [] && path != []
    decreases |p|
  {
    if p[0].Globstar? then
      |p| == 1 || exists k :: 0 <= k < |path| && S(p[1..], path[k..])
    else
      && G(p[0].tokens, path[0])
      && if |p| == 1 then |path| == 1
         else if |path| > 1 then S(p[1..], path[1..])
         else AllGlobstars(p[1..])
  }

  /** The whole meaning of a compiled pattern: does it match the path `s`? */
  predicate Accepts(p: seq<Part>, s: Text)
    requires p != []
  {
    S(p, Split(s))
  }

  lemma {:induction false} AllGlobstarsAccept(p: seq<Part>, path: seq<Text>)
    requires p != [] && path != [] && AllGlobstars(p)
    ensures S(p, path)
  {
    if |p| > 1 {
      assert path[0..] == path;
      AllGlobstarsAccept(p[1..], path);
    }
  }

  /** A leading `**` goes over any leading segments. */
  lemma GlobstarSkips(p: seq<Part>, path: seq<Text>, k: nat)
    requires p != [] && p[0].Globstar? && k < |path| && S(p, path[k..])
    ensures S(p, path)
  {
    if |p| > 1 {
      var j :| 0 <= j < |path[k..]| && S(p[1..], path[k..][j..]);
      assert path[k..][j..] == path[k + j..];
    }
  }
}
