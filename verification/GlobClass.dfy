/** Bracket expressions: the members as written, and the ranges they are compiled to. */
module GlobClass {
  import opened GlobText
  import opened GlobSpec
  import opened GlobTokens

  datatype GlobError =
    | UnmatchedBracket | StrayBackslash | NestedBrace | EmptyBrace | IncompleteBrace | InvalidRange
    | MultipleSlash | MultipleStar | TooManyExpansions | InvalidUTF8 | InvalidEscape

  datatype Result<T> = Ok(value: T) | Err(error: GlobError)

  const BACKSLASH: byte := 0x5C
  const DASH: byte := 0x2D

  // ---------- the members as written ----------

  /** The member at the start of a class body, a leading escape resolved. */
  function MemberText(s: Text): (t: Text)
    requires s != []
    ensures t != [] && |t| <= |s|
  {
    if s[0] == BACKSLASH && |s| > 1 then s[1..] else s
  }

  function MemberRest(s: Text): (r: Text)
    requires s != []
    ensures |r| < |s|
  {
    MemberText(s)[AtomLen(MemberText(s))..]
  }

  function Member(s: Text): int
    requires s != []
  {
    AtomValue(MemberText(s))
  }

  function Cons(r: Range, rest: Result<seq<Range>>): Result<seq<Range>> {
    match rest
    case Ok(rs) => Ok([r] + rs)
    case Err(e) => Err(e)
  }

  /** The ranges a class body lists, in order: a member, or two with a dash between. */
  function Members(s: Text): Result<seq<Range>>
    decreases |s|, 1
  {
    if s == [] then Ok([]) else MembersAfter(Member(s), MemberRest(s))
  }

  /** The same once the member `c` has been read. */
  function MembersAfter(c: int, rest: Text): Result<seq<Range>>
    decreases |rest|, 2
  {
    if |rest| >= 2 && rest[0] == DASH then
      var hi := Member(rest[1..]);
      if c > hi then Err(InvalidRange) else Cons((c, hi), Members(MemberRest(rest[1..])))
    else
      Cons((c, c), Members(rest))
  }

  // ---------- sorted and coalesced ----------

  predicate Ordered(rs: seq<Range>) {
    forall i :: 0 <= i < |rs| ==> rs[i].0 <= rs[i].1
  }

  predicate SortedByStart(rs: seq<Range>) {
    forall i, j :: 0 <= i < j < |rs| ==> rs[i].0 <= rs[j].0
  }

  /** std::ranges::sort. */
  function SortRanges(rs: seq<Range>): (r: seq<Range>)
    ensures multiset(r) == multiset(rs) && SortedByStart(r)
  {
    if rs == [] then []
    else
      assert rs == [rs[0]] + rs[1..];
      InsertRange(rs[0], SortRanges(rs[1..]))
  }

  function InsertRange(x: Range, rs: seq<Range>): (r: seq<Range>)
    requires SortedByStart(rs)
    ensures multiset(r) == multiset(rs) + multiset{x} && SortedByStart(r)
  {
    if rs == [] then [x]
    else if x.0 < rs[0].0 || (x.0 == rs[0].0 && x.1 < rs[0].1) then [x] + rs
    else
      assert rs == [rs[0]] + rs[1..];
      var r := InsertRange(x, rs[1..]);
      SmallestFirst(rs[0], x, rs[1..], r);
      [rs[0]] + r
  }

  lemma SmallestFirst(first: Range, x: Range, rest: seq<Range>, r: seq<Range>)
    requires SortedByStart([first] + rest) && first.0 <= x.0
    requires SortedByStart(r) && multiset(r) == multiset(rest) + multiset{x}
    ensures SortedByStart([first] + r)
  {
    forall i | 0 <= i < |r| ensures first.0 <= r[i].0 {
      assert r[i] in multiset(r);
      if r[i] in rest {
        var j :| 0 <= j < |rest| && rest[j] == r[i];
        assert ([first] + rest)[j + 1] == r[i] && ([first] + rest)[0] == first;
      }
    }
  }

  /** Each range starts more than one past the end of the one before it. */
  predicate Coalesced(rs: seq<Range>) {
    Ordered(rs) && forall i, j :: 0 <= i < j < |rs| ==> rs[i].1 + 1 < rs[j].0
  }

  predicate SameSet(a: seq<Range>, b: seq<Range>, v: int) {
    InRanges(a, v) <==> InRanges(b, v)
  }

  lemma InRangesConcat(a: seq<Range>, b: seq<Range>, v: int)
    ensures InRanges(a + b, v) <==> InRanges(a, v) || InRanges(b, v)
  {
    if InRanges(a, v) {
      var i :| 0 <= i < |a| && a[i].0 <= v <= a[i].1;
      assert (a + b)[i] == a[i];
    }
    if InRanges(b, v) {
      var i :| 0 <= i < |b| && b[i].0 <= v <= b[i].1;
      assert (a + b)[|a| + i] == b[i];
    }
  }

  lemma InRangesMultiset(a: seq<Range>, b: seq<Range>, v: int)
    requires multiset(a) == multiset(b) && InRanges(a, v)
    ensures InRanges(b, v)
  {
    var i :| 0 <= i < |a| && a[i].0 <= v <= a[i].1;
    assert a[i] in multiset(b);
    var j :| 0 <= j < |b| && b[j] == a[i];
  }

  lemma InRangesOne(r: Range, v: int)
    ensures InRanges([r], v) <==> r.0 <= v <= r.1
  {
    assert [r][0] == r;
  }

  /** Joining two ranges that touch covers what both do. */
  lemma JoinCovers(m: seq<Range>, range: Range, v: int)
    requires m != [] && Ordered(m) && range.0 <= range.1
    requires m[|m| - 1].0 <= range.0 <= m[|m| - 1].1 + 1
    ensures var back := m[|m| - 1];
            var joined := (back.0, if back.1 < range.1 then range.1 else back.1);
            InRanges(m[..|m| - 1] + [joined], v) <==> InRanges(m, v) || range.0 <= v <= range.1
  {
    hide InRanges;
    var back := m[|m| - 1];
    var joined := (back.0, if back.1 < range.1 then range.1 else back.1);
    assert m == m[..|m| - 1] + [back];
    InRangesConcat(m[..|m| - 1], [back], v);
    InRangesConcat(m[..|m| - 1], [joined], v);
    InRangesOne(back, v);
    InRangesOne(joined, v);
  }

  method Coalesce(ranges: seq<Range>) returns (merged: seq<Range>)
    requires Ordered(ranges) && SortedByStart(ranges)
    ensures Coalesced(merged)
    ensures forall v :: SameSet(merged, ranges, v)
  {
    hide InRanges;
    merged := [];
    assert ranges[..0] == [];
    for i := 0 to |ranges|
      invariant Coalesced(merged)
      invariant merged != [] ==> i > 0 && merged[|merged| - 1].0 <= ranges[i - 1].0
      invariant forall v :: SameSet(merged, ranges[..i], v)
    {
      var range := ranges[i];
      ghost var before := merged;
      if merged != [] && range.0 <= merged[|merged| - 1].1 + 1 {
        var back := merged[|merged| - 1];
        assert i > 0 && ranges[i - 1].0 <= ranges[i].0;
        merged := merged[..|merged| - 1] + [(back.0, if back.1 < range.1 then range.1 else back.1)];
      } else {
        merged := merged + [range];
        assert before != [] ==> before[|before| - 1].1 + 1 < range.0;
      }
      ghost var upTo := ranges[..i + 1];
      assert upTo == ranges[..i] + [range];
      forall v ensures SameSet(merged, upTo, v) {
        assert SameSet(before, ranges[..i], v);
        InRangesConcat(ranges[..i], [range], v);
        InRangesOne(range, v);
        if before != [] && range.0 <= before[|before| - 1].1 + 1 {
          JoinCovers(before, range, v);
        } else {
          InRangesConcat(before, [range], v);
        }
      }
    }
    assert ranges[..|ranges|] == ranges;
  }

  // ---------- parse_bracket_charset ----------

  function Prepend(done: seq<Range>, rest: Result<seq<Range>>): Result<seq<Range>> {
    match rest
    case Ok(rs) => Ok(done + rs)
    case Err(e) => Err(e)
  }

  /** What is still to come: the pending member, if any, and the rest of the body. */
  function Remaining(pending: seq<int>, rest: Text): Result<seq<Range>> {
    if pending == [] then Members(rest) else MembersAfter(pending[0], rest)
  }

  lemma PrependCons(done: seq<Range>, r: Range, rest: Result<seq<Range>>)
    ensures Prepend(done, Cons(r, rest)) == Prepend(done + [r], rest)
  {
    if rest.Ok? { assert done + ([r] + rest.value) == done + [r] + rest.value; }
  }

  /** The loop that holds a member back one step, in case a dash follows. */
  method ReadMembers(s: Text) returns (r: Result<seq<Range>>)
    ensures r == Members(s)
    ensures r.Ok? ==> Ordered(r.value)
  {
    hide MemberText, Member, MemberRest;
    var ranges: seq<Range>, rest := [], s;
    var pending: seq<int> := [];
    assert Prepend([], Members(s)) == Members(s) by {
      if Members(s).Ok? { assert [] + Members(s).value == Members(s).value; }
    }
    while rest != []
      invariant |pending| <= 1 && Ordered(ranges)
      invariant Members(s) == Prepend(ranges, Remaining(pending, rest))
      decreases |rest|
    {
      if rest[0] == DASH && pending != [] && |rest| > 1 {
        var hi := Member(rest[1..]);
        if pending[0] > hi {
          return Err(InvalidRange);
        }
        PrependCons(ranges, (pending[0], hi), Members(MemberRest(rest[1..])));
        ranges := ranges + [(pending[0], hi)];
        rest := MemberRest(rest[1..]);
        pending := [];
        continue;
      }
      var value := Member(rest);
      if pending != [] {
        PrependCons(ranges, (pending[0], pending[0]), Members(rest));
        ranges := ranges + [(pending[0], pending[0])];
      }
      pending := [value];
      rest := MemberRest(rest);
    }
    if pending != [] {
      PrependCons(ranges, (pending[0], pending[0]), Members([]));
      ranges := ranges + [(pending[0], pending[0])];
    }
    assert ranges + [] == ranges;
    r := Ok(ranges);
  }

  /** The compiled ranges hold exactly what the written ones do, ready for one binary
      search. */
  method ParseBracketCharset(s: Text) returns (r: Result<seq<Range>>)
    ensures r.Err? ==> r == Members(s)
    ensures r.Ok? ==>
              && Members(s).Ok? && SortedRanges(r.value)
              && forall v :: SameSet(r.value, Members(s).value, v)
  {
    hide Members, InRanges;
    var read := ReadMembers(s);
    if read.Err? {
      return read;
    }
    var ranges := SortRanges(read.value);
    forall i | 0 <= i < |ranges| ensures ranges[i].0 <= ranges[i].1 {
      assert ranges[i] in multiset(read.value);
    }
    var merged := Coalesce(ranges);
    forall v ensures SameSet(merged, read.value, v) {
      assert SameSet(merged, ranges, v);
      if InRanges(ranges, v) { InRangesMultiset(ranges, read.value, v); }
      if InRanges(read.value, v) { InRangesMultiset(read.value, ranges, v); }
    }
    r := Ok(merged);
  }
}
