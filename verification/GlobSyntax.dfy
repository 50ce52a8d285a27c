/** What the text of a pattern without braces spells: its parts, read from front to back.
    Literals are read a byte at a time, and classes keep their members as written. */
module GlobSyntax {
  import opened GlobText
  import opened GlobSpec
  import opened GlobTokens
  import opened GlobExecute
  import opened GlobClass
  import opened GlobPattern

  const STAR: byte := 0x2A
  const QUESTION: byte := 0x3F
  const OPEN: byte := 0x5B
  const CLOSE: byte := 0x5D
  const LBRACE: byte := 0x7B
  const RBRACE: byte := 0x7D
  const COMMA: byte := 0x2C

  predicate Negation(b: byte) { b == 0x21 || b == 0x5E }

  // ---------- brackets ----------

  function ScanFrom(s: Text, j: nat): (r: Result<nat>)
    requires j <= |s|
    ensures r.Ok? ==> j <= r.value < |s| && s[r.value] == CLOSE
    decreases |s| - j
  {
    if j == |s| then Err(UnmatchedBracket)
    else if s[j] == CLOSE then Ok(j)
    else if s[j] == BACKSLASH then
      if j + 1 == |s| then Err(StrayBackslash) else ScanFrom(s, j + 2)
    else ScanFrom(s, j + 1)
  }

  /** Where the members of the bracket at the start of `s` may first end: past the
      negation, and past a leading `]`, which is a member. */
  function MembersFrom(s: Text): (j: nat)
    requires s != []
    ensures 1 <= j <= |s| && j <= 3
  {
    var j := if 1 < |s| && Negation(s[1]) then 2 else 1;
    if j < |s| && s[j] == CLOSE then j + 1 else j
  }

  /** The index of the `]` that closes the bracket at the start of `s`. */
  function ScanBracket(s: Text): (r: Result<nat>)
    requires s != []
    ensures r.Ok? ==> 2 <= r.value < |s| && s[r.value] == CLOSE
    ensures r.Ok? && Negation(s[1]) ==> 3 <= r.value
  {
    ScanFrom(s, MembersFrom(s))
  }

  // ---------- one segment ----------

  datatype Reading = Reading(tokens: seq<Token>, rest: Text)

  function Then(t: Token, r: Result<Reading>): Result<Reading> {
    match r
    case Ok(x) => Ok(Reading([t] + x.tokens, x.rest))
    case Err(e) => Err(e)
  }

  function StarRun(s: Text): (n: nat)
    ensures n <= |s| && forall i :: 0 <= i < n ==> s[i] == STAR
    ensures n < |s| ==> s[n] != STAR
  {
    if s == [] || s[0] != STAR then 0 else 1 + StarRun(s[1..])
  }

  /** The tokens up to the next separator, and what is left from it on. */
  function ParseSegment(s: Text): (r: Result<Reading>)
    ensures r.Ok? ==>
              && |r.value.rest| <= |s|
              && (r.value.rest == [] || r.value.rest[0] == SLASH)
              && (r.value.tokens == [] <==> |r.value.rest| == |s|)
    decreases |s|
  {
    if s == [] || s[0] == SLASH then Ok(Reading([], s))
    else if s[0] == OPEN then
      var close := ScanBracket(s);
      if close.Err? then Err(close.error)
      else
        var negated := Negation(s[1]);
        var members := Members(s[if negated then 2 else 1..close.value]);
        if members.Err? then Err(members.error)
        else Then(Class(negated, members.value), ParseSegment(s[close.value + 1..]))
    else if s[0] == STAR then
      if StarRun(s) > 2 then Err(MultipleStar) else Then(Star, ParseSegment(s[StarRun(s)..]))
    else if s[0] == QUESTION then Then(Any, ParseSegment(s[1..]))
    else if s[0] == BACKSLASH then
      if |s| == 1 then Err(StrayBackslash)
      else if s[1] == SLASH then Err(InvalidEscape)
      else Then(Literal([s[1]]), ParseSegment(s[2..]))
    else Then(Literal([s[0]]), ParseSegment(s[1..]))
  }

  // ---------- all segments ----------

  function ConsPart(x: Part, r: Result<seq<Part>>): Result<seq<Part>> {
    match r
    case Ok(p) => Ok([x] + p)
    case Err(e) => Err(e)
  }

  predicate IsGlobstar(raw: Text) { raw == [STAR, STAR] }

  /** The parts between separators. A segment spelled `**` is a globstar, the first one
      only where `mayBeGlobstar`: it may be the rest of a longer segment. */
  function ParseParts(s: Text, mayBeGlobstar: bool): (r: Result<seq<Part>>)
    ensures r.Ok? ==> r.value != []
    decreases |s|
  {
    var read := ParseSegment(s);
    if read.Err? then Err(read.error)
    else
      var rest := read.value.rest;
      var part := if mayBeGlobstar && IsGlobstar(s[..|s| - |rest|]) then Globstar else Part(read.value.tokens);
      if rest == [] then Ok([part])
      else if |rest| > 1 && rest[1] == SLASH then Err(MultipleSlash)
      else ConsPart(part, ParseParts(rest[1..], true))
  }

  /** A trailing separator after a globstar asks for one more segment, any at all. */
  function Finish(p: seq<Part>): (r: seq<Part>)
    ensures |r| == |p|
  {
    var n := |p|;
    if n >= 2 && p[n - 2].Globstar? && p[n - 1] == Part([]) then p[..n - 1] + [Part([Star])] else p
  }

  /** The meaning of a pattern text without braces. */
  function ParsePattern(s: Text, mayBeGlobstar: bool): (r: Result<seq<Part>>)
    ensures r.Ok? ==> r.value != []
  {
    match ParseParts(s, mayBeGlobstar)
    case Ok(p) => Ok(Finish(p))
    case Err(e) => Err(e)
  }

  /** Only the first part and the last can be empty. */
  predicate NoEmptyMiddle(p: seq<Part>) {
    forall i :: 1 <= i < |p| - 1 ==> p[i] != Part([])
  }

  lemma NoEmptyMiddleCons(x: Part, q: seq<Part>)
    requires q != [] && NoEmptyMiddle(q) && (|q| > 1 ==> q[0] != Part([]))
    ensures NoEmptyMiddle([x] + q)
  {
    assert forall i :: 1 <= i < |[x] + q| ==> ([x] + q)[i] == q[i - 1];
  }

  lemma {:induction false} EmptyParts(s: Text, m: bool)
    requires ParseParts(s, m).Ok?
    ensures var p := ParseParts(s, m).value;
            NoEmptyMiddle(p) && (|p| > 1 && (s == [] || s[0] != SLASH) ==> p[0] != Part([]))
    decreases |s|
  {
    hide ParseSegment, IsGlobstar;
    var rest := ParseSegment(s).value.rest;
    if ParseSegment(s).value.tokens == [] { SlashFirst(s); }
    if rest != [] {
      var q := ParseParts(rest[1..], true).value;
      EmptyParts(rest[1..], true);
      NoEmptyMiddleCons(ParseParts(s, m).value[0], q);
    }
  }

  lemma SlashFirst(s: Text)
    requires ParseSegment(s).Ok? && ParseSegment(s).value.tokens == []
    ensures s == [] || s[0] == SLASH
  {
  }

  lemma FinishHasNoEmptyAfterGlobstar(s: Text, m: bool)
    requires ParsePattern(s, m).Ok?
    ensures NoEmptyAfterGlobstar(ParsePattern(s, m).value)
  {
    hide ParseParts;
    EmptyParts(s, m);
  }

  // ---------- a literal text before the pattern ----------

  /** Text without wildcards, each escape with what it escapes, which is no separator. */
  predicate LiteralRaw(raw: Text)
    decreases |raw|
  {
    raw == [] ||
    if raw[0] == BACKSLASH then |raw| > 1 && raw[1] != SLASH && LiteralRaw(raw[2..])
    else !Wildcard(raw[0]) && LiteralRaw(raw[1..])
  }

  predicate Wildcard(b: byte) { b == QUESTION || b == STAR || b == OPEN || b == LBRACE }

  function Resolve(raw: Text): (text: Text)
    requires LiteralRaw(raw)
    ensures |text| <= |raw| && (text == [] <==> raw == [])
    decreases |raw|
  {
    if raw == [] then []
    else if raw[0] == BACKSLASH then [raw[1]] + Resolve(raw[2..])
    else [raw[0]] + Resolve(raw[1..])
  }

  function Bytes(t: Text): (r: seq<Token>)
    ensures |r| == |t|
  {
    seq(|t|, i requires 0 <= i < |t| => Literal([t[i]]))
  }

  lemma {:induction false} BytesMatch(t: Text, ts: seq<Token>, s: Text)
    ensures G(Bytes(t) + ts, s) <==> t <= s && G(ts, s[|t|..])
  {
    hide AtomLen, AtomValue;
    var all := Bytes(t) + ts;
    if t == [] {
      assert all == ts && s[0..] == s;
    } else {
      assert all[0] == Literal([t[0]]);
      assert all[1..] == Bytes(t[1..]) + ts;
      if s != [] && s[0] == t[0] {
        assert [t[0]] <= s;
        BytesMatch(t[1..], ts, s[1..]);
        assert t == [t[0]] + t[1..] && s == [s[0]] + s[1..];
        if t <= s { assert s[1..][|t| - 1..] == s[|t|..]; }
      } else {
        assert !([t[0]] <= s);
      }
    }
  }

  function PrependTokens(ts: seq<Token>, r: Result<Reading>): Result<Reading> {
    match r
    case Ok(x) => Ok(Reading(ts + x.tokens, x.rest))
    case Err(e) => Err(e)
  }

  lemma PrependThen(t: Token, ts: seq<Token>, r: Result<Reading>)
    ensures Then(t, PrependTokens(ts, r)) == PrependTokens([t] + ts, r)
  {
    if r.Ok? { assert [t] + (ts + r.value.tokens) == [t] + ts + r.value.tokens; }
  }

  predicate PlainByte(b: byte) { b != SLASH && b != OPEN && b != STAR && b != QUESTION && b != BACKSLASH }

  lemma ParseLiteralStep(s: Text)
    requires s != []
    ensures PlainByte(s[0]) ==> ParseSegment(s) == Then(Literal([s[0]]), ParseSegment(s[1..]))
    ensures s[0] == BACKSLASH && |s| > 1 && s[1] != SLASH ==>
              ParseSegment(s) == Then(Literal([s[1]]), ParseSegment(s[2..]))
  {
    hide ScanBracket, Members, StarRun;
  }

  /** Literal text without a separator adds its bytes to the segment that follows. */
  lemma {:induction false} SegmentBehindLiteral(raw: Text, arm: Text)
    requires LiteralRaw(raw) && SLASH !in raw
    ensures ParseSegment(raw + arm) == PrependTokens(Bytes(Resolve(raw)), ParseSegment(arm))
    decreases |raw|
  {
    hide ParseSegment, LiteralRaw, Resolve, Bytes, PrependTokens, Then;
    if raw == [] {
      assert raw + arm == arm;
      EmptyLiteral();
      PrependNoBytes(ParseSegment(arm));
    } else {
      LiteralUnit(raw);
      var n, b := UnitSize(raw), UnitByte(raw);
      var all := raw + arm;
      assert all[0] == raw[0] && (n == 2 ==> all[1] == raw[1]) && all[n..] == raw[n..] + arm;
      ParseLiteralStep(all);
      assert raw[0] in raw;
      SegmentBehindLiteral(raw[n..], arm);
      PrependThen(Literal([b]), Bytes(Resolve(raw[n..])), ParseSegment(arm));
      FirstOfBytes(b, Resolve(raw[n..]));
    }
  }

  lemma PrependNoBytes(r: Result<Reading>)
    ensures PrependTokens(Bytes([]), r) == r
  {
    if r.Ok? { assert [] + r.value.tokens == r.value.tokens; }
  }

  lemma FirstOfBytes(b: byte, t: Text)
    ensures Bytes([b] + t) == [Literal([b])] + Bytes(t)
  {
  }

  /** The literal text with its last separator, if it ends in one, set apart. */
  function AtSegmentEnd(text: Text): bool { text != [] && text[|text| - 1] == SLASH }

  function WithoutSeparator(text: Text): Text {
    if AtSegmentEnd(text) then text[..|text| - 1] else text
  }

  predicate AtStart(text: Text) { text == [] || AtSegmentEnd(text) }

  predicate DoubleSlash(s: Text) {
    exists i :: 0 < i < |s| && s[i - 1] == SLASH && s[i] == SLASH
  }

  /** What a literal text before an arm makes of the arm's parts: it fails where two
      separators meet or as the arm does, and else the text is matched first, then the arm. */
  ghost predicate Behind(text: Text, full: Result<seq<Part>>, arm: Result<seq<Part>>, meet: bool) {
    && (full.Ok? <==> arm.Ok? && !meet)
    && (full.Err? ==> full.error == if meet then MultipleSlash else arm.error)
    && (full.Ok? ==>
          && full.value != [] && arm.value != []
          && (text != [] ==> full.value[0].Part?)
          && forall path :: PrefixMeans(text, full.value, arm.value, path))
  }

  ghost predicate PrefixMeans(text: Text, full: seq<Part>, arm: seq<Part>, path: Text)
    requires full != [] && arm != []
  {
    Accepts(full, path) <==> BehindPrefix(WithoutSeparator(text), AtSegmentEnd(text), arm, path)
  }

  /** A separator in a literal text is one of its own: no escape reaches over it. */
  lemma {:induction false} LiteralRawTail(a: Text, t: Text)
    requires LiteralRaw(a + t) && SLASH !in a && t != [] && t[0] == SLASH
    ensures LiteralRaw(a) && LiteralRaw(t)
    ensures Resolve(a + t) == Resolve(a) + Resolve(t)
    ensures SLASH !in Resolve(a)
    decreases |a|
  {
    hide LiteralRaw, Resolve, Wildcard;
    if a == [] {
      assert a + t == t;
      EmptyLiteral();
    } else {
      EscapeInside(a, t);
      var n := UnitSize(a);
      var all := a + t;
      assert all[0] == a[0] && (n == 2 ==> all[1] == a[1]) && all[n..] == a[n..] + t;
      LiteralUnit(all);
      LiteralRawTail(a[n..], t);
      LiteralUnit(a);
      assert Resolve(a) + Resolve(t) == [UnitByte(a)] + (Resolve(a[n..]) + Resolve(t));
    }
  }

  lemma EmptyLiteral()
    ensures LiteralRaw([]) && Resolve([]) == []
    ensures forall s: Text :: [] + s == s
  {
  }

  function UnitSize(raw: Text): nat
    requires raw != []
  {
    if raw[0] == BACKSLASH then 2 else 1
  }

  function UnitByte(raw: Text): byte
    requires |raw| >= 1 && (raw[0] == BACKSLASH ==> |raw| >= 2)
  {
    if raw[0] == BACKSLASH then raw[1] else raw[0]
  }

  predicate GoodUnit(raw: Text)
    requires |raw| >= 1
  {
    if raw[0] == BACKSLASH then |raw| > 1 && raw[1] != SLASH else !Wildcard(raw[0])
  }

  lemma LiteralUnit(raw: Text)
    requires raw != []
    ensures LiteralRaw(raw) <==> GoodUnit(raw) && LiteralRaw(raw[UnitSize(raw)..])
    ensures LiteralRaw(raw) ==> Resolve(raw) == [UnitByte(raw)] + Resolve(raw[UnitSize(raw)..])
  {
  }

  lemma LiteralRawSplits(a: Text, b: Text)
    requires LiteralRaw(a + [SLASH] + b) && SLASH !in a
    ensures LiteralRaw(a) && LiteralRaw(b)
    ensures Resolve(a + [SLASH] + b) == Resolve(a) + [SLASH] + Resolve(b)
    ensures SLASH !in Resolve(a)
  {
    var t := [SLASH] + b;
    assert a + [SLASH] + b == a + t;
    LiteralRawTail(a, t);
    assert t[1..] == b;
  }

  lemma EscapeInside(a: Text, t: Text)
    requires LiteralRaw(a + t) && a != [] && t != [] && t[0] == SLASH
    ensures a[0] == BACKSLASH ==> |a| >= 2 && a[1] != SLASH
  {
    assert (a + t)[0] == a[0];
    assert (a + t)[1] == if |a| > 1 then a[1] else t[0];
  }

  lemma PrefixOfPrefix(text: Text, path: Text, e: nat)
    requires e <= |path| && text <= path[..e]
    ensures text <= path
  {
  }

  lemma PrefixPeel(a: Text, b: Text, path: Text)
    requires a <= path
    ensures a + b <= path <==> b <= path[|a|..]
  {
    var rest := path[|a|..];
    assert path == a + rest;
    if b <= rest {
      assert rest == b + rest[|b|..];
      assert path == a + b + rest[|b|..];
    }
    if a + b <= path { assert path[|a|..][..|b|] == (a + b)[|a|..]; }
  }

  lemma PrefixTrans(a: Text, b: Text, path: Text)
    requires a + b <= path
    ensures a <= path
  {
    assert path[..|a|] == (a + b)[..|a|];
  }

  lemma {:induction false} ResolveNoSlash(raw: Text)
    requires LiteralRaw(raw) && SLASH !in raw
    ensures SLASH !in Resolve(raw)
    decreases |raw|
  {
    if raw != [] { ResolveNoSlash(raw[if raw[0] == BACKSLASH then 2 else 1..]); }
  }

  // ----- the text ends inside a segment

  function MergeFirst(text: Text, p: seq<Part>): (r: seq<Part>)
    requires p != [] && p[0].Part?
    ensures |r| == |p|
  {
    [Part(Bytes(text) + p[0].tokens)] + p[1..]
  }

  lemma MergeParse(raw: Text, arm: Text)
    requires LiteralRaw(raw) && SLASH !in raw && raw != []
    ensures ParseParts(raw + arm, true).Ok? <==> ParseParts(arm, false).Ok?
    ensures ParseParts(arm, false).Err? ==> ParseParts(raw + arm, true).error == ParseParts(arm, false).error
    ensures ParseParts(arm, false).Ok? ==>
              && ParseParts(arm, false).value[0].Part?
              && ParseParts(raw + arm, true).value == MergeFirst(Resolve(raw), ParseParts(arm, false).value)
  {
    hide ParseSegment;
    SegmentBehindLiteral(raw, arm);
    var full, part := ParseSegment(raw + arm), ParseSegment(arm);
    if part.Ok? {
      var rest := part.value.rest;
      assert full.value.rest == rest;
      assert (raw + arm)[..|raw + arm| - |rest|][0] == raw[0];
      if rest != [] && !(|rest| > 1 && rest[1] == SLASH) && ParseParts(rest[1..], true).Ok? {
        var p := ParseParts(arm, false).value;
        assert p[1..] == ParseParts(rest[1..], true).value;
      } else if rest == [] {
        assert ParseParts(arm, false).value[1..] == [];
      }
    }
  }

  lemma MergeFinish(text: Text, p: seq<Part>)
    requires p != [] && p[0].Part?
    ensures Finish(p) != [] && Finish(p)[0].Part? && Finish(MergeFirst(text, p)) == MergeFirst(text, Finish(p))
  {
  }

  lemma MergeMeans(text: Text, p: seq<Part>, path: Text)
    requires p != [] && p[0].Part? && SLASH !in text
    ensures Accepts(MergeFirst(text, p), path) <==> text <= path && Accepts(p, path[|text|..])
  {
    hide S, Split, G;
    var q := MergeFirst(text, p);
    assert p[0..] == p && q[0..] == q && path[0..] == path;
    PartStep(q, path, 0, 0);
    var e := EndOf(path, 0);
    BytesMatch(text, p[0].tokens, path[..e]);
    assert path[0..e] == path[..e];
    assert q[1..] == p[1..];
    if text <= path {
      NoSlashFits(text, path);
      var rest := path[|text|..];
      assert rest[0..] == rest;
      EndBehind(text, path);
      PartStep(p, rest, 0, 0);
      assert path[..e][|text|..] == rest[0..e - |text|];
      if e < |path| { assert rest[e - |text| + 1..] == path[e + 1..]; }
    } else if text <= path[..e] {
      PrefixOfPrefix(text, path, e);
    }
  }

  lemma NoSlashFits(text: Text, path: Text)
    requires text <= path && SLASH !in text
    ensures |text| <= EndOf(path, 0) && text <= path[..EndOf(path, 0)]
  {
    var e := EndOf(path, 0);
    assert forall i :: 0 <= i < |text| ==> text[i] == path[i] && text[i] in text;
  }

  lemma EndBehind(text: Text, path: Text)
    requires text <= path && SLASH !in text && |text| <= EndOf(path, 0)
    ensures EndOf(path[|text|..], 0) == EndOf(path, 0) - |text|
  {
    var e, rest := EndOf(path, 0), path[|text|..];
    assert rest[0..e - |text|] == path[0..e][|text|..];
    EndOfUnique(rest, 0, e - |text|);
  }

  // ----- the text ends with a separator, or goes on behind one

  lemma {:induction false} ConsParse(a: Text, rest: Text)
    requires LiteralRaw(a) && SLASH !in a
    ensures ParseParts(a + [SLASH] + rest, true) ==
            if rest != [] && rest[0] == SLASH then Err(MultipleSlash)
            else ConsPart(Part(Bytes(Resolve(a))), ParseParts(rest, true))
  {
    hide ParseSegment, LiteralRaw, Resolve, Bytes, ParseParts, ConsPart;
    var s, tail := a + [SLASH] + rest, [SLASH] + rest;
    assert s == a + tail;
    SegmentBehindLiteral(a, tail);
    ParseSlash(rest);
    assert Bytes(Resolve(a)) + [] == Bytes(Resolve(a));
    assert tail[1..] == rest && s[..|a|] == a;
    LiteralIsNoGlobstar(a);
    PartsUnfold(s, Bytes(Resolve(a)), tail);
  }

  lemma LiteralIsNoGlobstar(a: Text)
    requires LiteralRaw(a)
    ensures !IsGlobstar(a)
  {
  }

  /** The parts of a text whose first segment, which is no globstar, is read. */
  lemma {:induction false} PartsUnfold(s: Text, tokens: seq<Token>, rest: Text)
    requires ParseSegment(s) == Ok(Reading(tokens, rest)) && rest != [] && |rest| <= |s|
    requires !IsGlobstar(s[..|s| - |rest|])
    ensures ParseParts(s, true) ==
            if |rest| > 1 && rest[1] == SLASH then Err(MultipleSlash)
            else ConsPart(Part(tokens), ParseParts(rest[1..], true))
  {
    hide ParseSegment, IsGlobstar, ConsPart;
    var read := ParseSegment(s);
    assert read.value.rest == rest && read.value.tokens == tokens;
  }

  lemma ParseSlash(rest: Text)
    ensures ParseSegment([SLASH] + rest) == Ok(Reading([], [SLASH] + rest))
  {
  }

  lemma ConsFinish(x: Part, p: seq<Part>)
    requires x.Part? && p != []
    ensures Finish([x] + p) == [x] + Finish(p)
  {
    var n := |p|;
    if n >= 2 {
      assert ([x] + p)[n - 1] == p[n - 2] && ([x] + p)[n] == p[n - 1];
      assert ([x] + p)[..n] == [x] + p[..n - 1];
    }
  }

  lemma ConsMeans(a: Text, p: seq<Part>, path: Text)
    requires SLASH !in a && p != []
    ensures Accepts([Part(Bytes(a))] + p, path) <==> BehindPrefix(a, true, p, path)
  {
    hide S, Split, G, AllGlobstars;
    var q := [Part(Bytes(a))] + p;
    var e := EndOf(path, 0);
    assert q[0..] == q && path[0..] == path && q[1..] == p;
    PartStep(q, path, 0, 0);
    assert Bytes(a) + [] == Bytes(a);
    BytesMatch(a, [], path[0..e]);
    EmptyTokens(path[0..e][if |a| <= e then |a| else 0..]);
    assert G(Bytes(a), path[0..e]) <==> path[0..e] == a by {
      if a <= path[0..e] { assert path[0..e] == a + path[0..e][|a|..]; }
    }
    if e < |path| {
      assert p[0..] == p;
    }
    if a <= path {
      var rest := path[|a|..];
      NoSlashFits(a, path);
      if path[0..e] == a && e < |path| {
        assert rest[0] == path[e] && rest[1..] == path[e + 1..];
      }
      if rest == [] || rest[0] == SLASH {
        assert rest != [] ==> rest[0] == path[|a|];
        assert path[0..|a|] == a;
        EndOfUnique(path, 0, |a|);
      }
    } else if path[0..e] == a {
      PrefixOfPrefix(a, path, e);
    }
  }

  lemma EmptyTokens(s: Text)
    ensures G([], s) <==> s == []
  {
  }

  lemma DeeperMeans(a: Text, text: Text, p: seq<Part>, path: Text)
    requires text != [] && p != [] && WithoutSeparator(text) != []
    ensures BehindPrefix(WithoutSeparator(a + [SLASH] + text), AtSegmentEnd(a + [SLASH] + text), p, path) <==>
            && a + [SLASH] <= path
            && BehindPrefix(WithoutSeparator(text), AtSegmentEnd(text), p, path[|a| + 1..])
  {
    hide Accepts, AllGlobstars;
    var whole := a + [SLASH] + text;
    var inner := WithoutSeparator(text);
    assert whole[|whole| - 1] == text[|text| - 1];
    assert WithoutSeparator(whole) == a + [SLASH] + inner;
    var outer := a + [SLASH];
    if outer <= path {
      var rest := path[|a| + 1..];
      PrefixPeel(outer, inner, path);
      if inner <= rest { assert rest[|inner|..] == path[|outer + inner|..]; }
    } else if outer + inner <= path {
      PrefixTrans(outer, inner, path);
    }
  }

  /** Splitting off the literal text before an arm keeps the meaning, the path that stops
      at the text included. */
  lemma {:induction false} PrefixSplits(raw: Text, arm: Text)
    requires LiteralRaw(raw)
    ensures Behind(Resolve(raw), ParsePattern(raw + arm, true), ParsePattern(arm, AtStart(Resolve(raw))),
                   DoubleSlash(raw) || (AtSegmentEnd(raw) && arm != [] && arm[0] == SLASH))
    decreases |raw|
  {
    hide ParseParts, BehindPrefix, Accepts, DoubleSlash, LiteralRaw, Resolve, PrefixMeans;
    var e := SegmentEnd(raw);
    if raw == [] {
      assert raw + arm == arm;
      EmptyPrefix(arm);
    } else if e == |raw| {
      assert raw[..e] == raw;
      ResolveNoSlash(raw);
      MergeParse(raw, arm);
      NoDoubleSlash(raw);
      var text := Resolve(raw);
      if ParseParts(arm, false).Ok? {
        var p := ParseParts(arm, false).value;
        MergeFinish(text, p);
        forall path ensures PrefixMeans(text, Finish(MergeFirst(text, p)), Finish(p), path) {
          MergeMeansPrefix(text, Finish(p), path);
        }
      }
    } else {
      var a, b := raw[..e], raw[e + 1..];
      assert raw == a + [SLASH] + b;
      LiteralRawSplits(a, b);
      PrefixSplits(b, arm);
      assert raw + arm == a + [SLASH] + (b + arm);
      ConsParse(a, b + arm);
      PrefixStep(a, b, arm);
    }
  }

  lemma EmptyPrefix(arm: Text)
    ensures Resolve([]) == [] && !DoubleSlash([])
    ensures ParsePattern(arm, true).Ok? ==>
              forall path :: PrefixMeans([], ParsePattern(arm, true).value, ParsePattern(arm, true).value, path)
  {
    hide ParseParts, Accepts;
    if ParsePattern(arm, true).Ok? {
      var p := ParsePattern(arm, true).value;
      forall path ensures PrefixMeans([], p, p, path) {
        assert path[0..] == path;
      }
    }
  }

  lemma NoDoubleSlash(raw: Text)
    requires SLASH !in raw
    ensures !DoubleSlash(raw) && !AtSegmentEnd(raw)
  {
  }

  lemma MergeMeansPrefix(text: Text, p: seq<Part>, path: Text)
    requires p != [] && p[0].Part? && SLASH !in text
    ensures PrefixMeans(text, MergeFirst(text, p), p, path)
  {
    hide Accepts;
    MergeMeans(text, p, path);
    NoDoubleSlash(text);
  }

  lemma DoubleSlashSplits(a: Text, b: Text)
    requires SLASH !in a
    ensures DoubleSlash(a + [SLASH] + b) <==> DoubleSlash(b) || (b != [] && b[0] == SLASH)
    ensures AtSegmentEnd(a + [SLASH] + b) <==> b == [] || AtSegmentEnd(b)
  {
    var s := a + [SLASH] + b;
    var n := |a| + 1;
    assert forall k :: 0 <= k < |a| ==> a[k] in a;
    assert forall k :: 0 <= k < |a| ==> s[k] == a[k];
    assert forall k :: n <= k < |s| ==> s[k] == b[k - n];
    if DoubleSlash(s) {
      var i :| 0 < i < |s| && s[i - 1] == SLASH && s[i] == SLASH;
      if i > n { DoubleSlashAt(b, i - n); }
    }
    if DoubleSlash(b) {
      var i :| 0 < i < |b| && b[i - 1] == SLASH && b[i] == SLASH;
      assert b[i - 1] == s[n + i - 1] && b[i] == s[n + i];
      DoubleSlashAt(s, n + i);
    }
    if b != [] && b[0] == SLASH {
      assert s[n] == b[0];
      DoubleSlashAt(s, n);
    }
  }

  lemma DoubleSlashAt(s: Text, i: int)
    requires 0 < i < |s| && s[i - 1] == SLASH && s[i] == SLASH
    ensures DoubleSlash(s)
  {
  }

  lemma {:induction false} ResolveEnd(raw: Text)
    requires LiteralRaw(raw)
    ensures AtSegmentEnd(Resolve(raw)) <==> AtSegmentEnd(raw)
    ensures raw != [] && raw[0] == SLASH <==> raw != [] && Resolve(raw)[0] == SLASH
    decreases |raw|
  {
    if raw != [] {
      var n := if raw[0] == BACKSLASH then 2 else 1;
      ResolveEnd(raw[n..]);
      if |raw| > n { assert raw[n..][|raw| - n - 1] == raw[|raw| - 1]; }
    }
  }

  /** One more directory in front. */
  lemma {:induction false} PrefixStep(a: Text, b: Text, arm: Text)
    requires LiteralRaw(a) && LiteralRaw(b) && SLASH !in a && SLASH !in Resolve(a)
    requires LiteralRaw(a + [SLASH] + b) && Resolve(a + [SLASH] + b) == Resolve(a) + [SLASH] + Resolve(b)
    requires Behind(Resolve(b), ParsePattern(b + arm, true), ParsePattern(arm, AtStart(Resolve(b))),
                    DoubleSlash(b) || (AtSegmentEnd(b) && arm != [] && arm[0] == SLASH))
    requires ParseParts(a + [SLASH] + (b + arm), true) ==
             if b + arm != [] && (b + arm)[0] == SLASH then Err(MultipleSlash)
             else ConsPart(Part(Bytes(Resolve(a))), ParseParts(b + arm, true))
    ensures Behind(Resolve(a + [SLASH] + b), ParsePattern(a + [SLASH] + (b + arm), true),
                   ParsePattern(arm, AtStart(Resolve(a + [SLASH] + b))),
                   DoubleSlash(a + [SLASH] + b) || (AtSegmentEnd(a + [SLASH] + b) && arm != [] && arm[0] == SLASH))
  {
    hide ParseParts, BehindPrefix, Accepts, DoubleSlash, LiteralRaw, Resolve, Bytes, PrefixMeans, AllGlobstars,
         AtSegmentEnd, ConsPart, Finish;
    DoubleSlashSplits(a, b);
    ResolveEnd(b);
    ResolveEnd(a + [SLASH] + b);
    EmptyLiteral();
    var A, B := Resolve(a), Resolve(b);
    var text := A + [SLASH] + B;
    assert b != [] ==> (b + arm)[0] == b[0];
    assert b == [] ==> b + arm == arm;
    EndOfText(A, B);
    ConsPattern(Part(Bytes(A)), ParseParts(b + arm, true), ParsePattern(b + arm, true));
    if ParsePattern(b + arm, true).Ok? && !(b + arm != [] && (b + arm)[0] == SLASH) {
      var inner := ParsePattern(b + arm, true).value;
      var armParts := ParsePattern(arm, AtStart(text)).value;
      forall path ensures PrefixMeans(text, [Part(Bytes(A))] + inner, armParts, path) {
        PrefixStepMeans(A, B, inner, armParts, path);
      }
    }
  }

  lemma EndOfText(A: Text, B: Text)
    ensures AtSegmentEnd(A + [SLASH] + B) <==> B == [] || AtSegmentEnd(B)
    ensures AtStart(B) ==> AtSegmentEnd(A + [SLASH] + B)
  {
  }

  /** A literal part in front of what parses, before and after the rule for its end. */
  lemma ConsPattern(x: Part, parts: Result<seq<Part>>, pattern: Result<seq<Part>>)
    requires x.Part? && (parts.Ok? ==> parts.value != [])
    requires pattern == if parts.Ok? then Ok(Finish(parts.value)) else Err(parts.error)
    ensures ConsPart(x, parts).Ok? <==> pattern.Ok?
    ensures pattern.Ok? ==> Finish(ConsPart(x, parts).value) == [x] + pattern.value
    ensures pattern.Err? ==> ConsPart(x, parts) == Err(pattern.error)
  {
    hide Finish;
    if parts.Ok? { ConsFinish(x, parts.value); }
  }

  lemma {:induction false} PrefixStepMeans(A: Text, B: Text, inner: seq<Part>, arm: seq<Part>, path: Text)
    requires SLASH !in A && inner != [] && arm != []
    requires B == [] || (B[0] != SLASH && inner[0].Part?)
    requires forall p :: PrefixMeans(B, inner, arm, p)
    requires B == [] ==> inner == arm
    ensures PrefixMeans(A + [SLASH] + B, [Part(Bytes(A))] + inner, arm, path)
  {
    hide Accepts, Bytes;
    ConsMeans(A, inner, path);
    var text := A + [SLASH] + B;
    if B == [] {
      assert text == A + [SLASH] && WithoutSeparator(text) == A;
    } else {
      assert AtSegmentEnd(B) ==> |B| > 1;
      DeeperMeans(A, B, arm, path);
      if A <= path && |path| > |A| {
        assert path[|A|..][1..] == path[|A| + 1..];
        assert path[|A|] == SLASH <==> A + [SLASH] <= path by { assert path[..|A|] == A; }
        assert PrefixMeans(B, inner, arm, path[|A| + 1..]);
      } else if A + [SLASH] <= path {
        PrefixTrans(A, [SLASH], path);
      }
    }
  }
}
