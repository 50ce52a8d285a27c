/** The whole compiled pattern: a literal prefix, arms behind it, and a mode that decides
    some of them at once. */
module GlobPattern {
  import opened GlobText
  import opened GlobSpec
  import opened GlobTokens
  import opened GlobExecute
  import opened GlobPlans

  const DOT: byte := 0x2E

  // ---------- a sorted set of extensions ----------

  /** The number a machine word holds, its first byte the least. */
  function Value(w: seq<byte>): nat {
    if w == [] then 0 else (w[0] as int) + 256 * Value(w[1..])
  }

  lemma {:induction false} ValueInjective(a: seq<byte>, b: seq<byte>)
    requires |a| == |b| && Value(a) == Value(b)
    ensures a == b
  {
    if a != [] {
      ValueInjective(a[1..], b[1..]);
      assert a == [a[0]] + a[1..] && b == [b[0]] + b[1..];
    }
  }

  /** A dot and no other one, at most eight bytes. */
  predicate Extension(text: Text) {
    |text| <= 8 && text != [] && text[0] == DOT && DOT !in text[1..]
  }

  datatype Key = Key(size: nat, word: nat)

  predicate Below(a: Key, b: Key) {
    a.size < b.size || (a.size == b.size && a.word < b.word)
  }

  function KeyOf(text: Text): Key { Key(|text|, Value(Pack(text).word)) }

  predicate SortedKeys(texts: seq<Text>) {
    forall i, j :: 0 <= i < j < |texts| ==> !Below(KeyOf(texts[j]), KeyOf(texts[i]))
  }

  /** Where the last dot of `s` is, or -1. */
  function LastDot(s: Text): (d: int)
    ensures -1 <= d < |s|
    ensures d >= 0 ==> s[d] == DOT
    ensures forall i :: d < i < |s| ==> s[i] != DOT
  {
    if s == [] then -1
    else if s[|s| - 1] == DOT then |s| - 1
    else LastDot(s[..|s| - 1])
  }

  /** The last eight bytes of the input, with zeros before a shorter one. */
  function TailWord(str: Text): (w: seq<byte>)
    ensures |w| == 8
  {
    if |str| >= 8 then str[|str| - 8..] else Zeros(8 - |str|) + str
  }

  lemma TailWordMatches(text: Text, str: Text)
    requires |text| <= 8 && |text| <= |str|
    ensures Masked(TailWord(str), Pack(text).mask) == Pack(text).word <==> EndsWith(str, text)
  {
    hide EndsWith;
    SameTailEndsWith(text, str);
    var n, k, p, w := |str|, |text|, Pack(text), TailWord(str);
    assert forall i :: 0 <= i < 8 ==> p.mask[i] == (i >= 8 - k);
    if Masked(w, p.mask) == p.word {
      forall j | 0 <= j < k ensures text[j] == str[n - k + j] {
        assert Masked(w, p.mask)[8 - k + j] == p.word[8 - k + j];
      }
    }
    if SameTail(text, str) {
      forall i | 0 <= i < 8 ensures Masked(w, p.mask)[i] == p.word[i] {
        if i >= 8 - k { assert text[i + k - 8] == w[i]; }
      }
    }
  }

  /** An extension is a suffix of the input only as what follows its last dot. */
  lemma ExtensionSize(text: Text, str: Text)
    requires Extension(text) && EndsWith(str, text)
    ensures LastDot(str) >= 0 && |text| == |str| - LastDot(str)
  {
    var n := |str| - |text|;
    assert str[n..][0] == str[n];
    forall i | n < i < |str| ensures str[i] != DOT {
      assert str[i] == str[n..][i - n] == text[1..][i - n - 1];
    }
  }

  /** What the search looks for: the size, and the word under the mask of that size. */
  function Target(str: Text, length: nat): Key
    requires length <= 8
  {
    Key(length, Value(Masked(TailWord(str), Pack(Zeros(length)).mask)))
  }

  lemma MaskBySize(a: Text, b: Text)
    requires |a| == |b| <= 16
    ensures Pack(a).mask == Pack(b).mask
  {
  }

  /** A probe masked by the arm it meets compares as the target does. */
  lemma ProbeCompares(text: Text, str: Text, length: nat)
    requires |text| <= 8 && length <= 8
    ensures var probe := Key(length, Value(Masked(TailWord(str), Pack(text).mask)));
            && (probe == KeyOf(text) <==> Target(str, length) == KeyOf(text))
            && (Below(probe, KeyOf(text)) <==> Below(Target(str, length), KeyOf(text)))
  {
    hide Pack, TailWord, Value;
    if length == |text| { MaskBySize(text, Zeros(length)); }
  }

  lemma TargetMatches(text: Text, str: Text, length: nat)
    requires Extension(text) && length <= 8 && length == |str| - LastDot(str) && LastDot(str) >= 0
    ensures Target(str, length) == KeyOf(text) <==> EndsWith(str, text)
  {
    hide Pack, TailWord, Value, Extension, LastDot;
    if EndsWith(str, text) { ExtensionSize(text, str); }
    if length == |text| {
      MaskBySize(text, Zeros(length));
      TailWordMatches(text, str);
      if Target(str, length) == KeyOf(text) {
        ValueInjective(Masked(TailWord(str), Pack(text).mask), Pack(text).word);
      }
    }
  }

  /** Binary search, with a mask that depends on the probed arm, finds what a linear scan
      of the suffixes does. */
  method MatchExtensionSet(texts: seq<Text>, str: Text) returns (r: bool)
    requires SortedKeys(texts) && forall i :: 0 <= i < |texts| ==> Extension(texts[i])
    ensures r <==> exists i :: 0 <= i < |texts| && EndsWith(str, texts[i])
  {
    hide Pack, TailWord, Value, Extension, EndsWith, LastDot;
    var dot := LastDot(str);
    if dot == -1 || |str| - dot > 8 {
      forall i | 0 <= i < |texts| ensures !EndsWith(str, texts[i]) {
        ShortExtension(texts[i]);
        if EndsWith(str, texts[i]) { ExtensionSize(texts[i], str); }
      }
      return false;
    }
    var length := |str| - dot;
    ghost var target := Target(str, length);
    var word := TailWord(str);
    var first, last := 0, |texts|;
    while first < last
      invariant 0 <= first <= last <= |texts|
      invariant forall i :: 0 <= i < first ==> Below(KeyOf(texts[i]), target)
      invariant forall i :: last <= i < |texts| ==> Below(target, KeyOf(texts[i]))
    {
      var middle := first + (last - first) / 2;
      var literal := texts[middle];
      ShortExtension(literal);
      ProbeCompares(literal, str, length);
      var candidate := Key(length, Value(Masked(word, Pack(literal).mask)));
      var key := KeyOf(literal);
      if candidate == key {
        TargetMatches(literal, str, length);
        return true;
      }
      if Below(candidate, key) {
        last := middle;
      } else {
        first := middle + 1;
      }
    }
    forall i | 0 <= i < |texts| ensures !EndsWith(str, texts[i]) {
      assert Below(KeyOf(texts[i]), target) || Below(target, KeyOf(texts[i]));
      TargetMatches(texts[i], str, length);
    }
    return false;
  }

  lemma ShortExtension(text: Text)
    requires Extension(text)
    ensures |text| <= 8
  {
  }

  // ---------- sorting the arms ----------

  function Insert(arm: Arm, arms: seq<Arm>): (r: seq<Arm>)
    requires SortedKeys(Literals(arms))
    ensures multiset(r) == multiset(arms) + multiset{arm}
    ensures SortedKeys(Literals(r))
  {
    if arms == [] then [arm]
    else if Below(KeyOf(arms[0].literal), KeyOf(arm.literal)) then
      SortedTail(arms);
      var inserted := Insert(arm, arms[1..]);
      FirstStaysFirst(arms[0], arm, arms[1..], inserted);
      MultisetOfCons(arms, inserted, arm);
      [arms[0]] + inserted
    else
      FirstIsLeast(arm, arms);
      [arm] + arms
  }

  lemma MultisetOfCons(arms: seq<Arm>, inserted: seq<Arm>, arm: Arm)
    requires arms != [] && multiset(inserted) == multiset(arms[1..]) + multiset{arm}
    ensures multiset([arms[0]] + inserted) == multiset(arms) + multiset{arm}
  {
    assert arms == [arms[0]] + arms[1..];
  }

  function Literals(arms: seq<Arm>): (r: seq<Text>)
    ensures |r| == |arms|
  {
    seq(|arms|, i requires 0 <= i < |arms| => arms[i].literal)
  }

  lemma SortedTail(arms: seq<Arm>)
    requires arms != [] && SortedKeys(Literals(arms))
    ensures SortedKeys(Literals(arms[1..]))
    ensures forall x :: x in arms[1..] ==> !Below(KeyOf(x.literal), KeyOf(arms[0].literal))
  {
    hide KeyOf;
    var all, rest := Literals(arms), Literals(arms[1..]);
    assert forall i :: 0 <= i < |rest| ==> rest[i] == all[i + 1];
    forall x | x in arms[1..] ensures !Below(KeyOf(x.literal), KeyOf(arms[0].literal)) {
      var i :| 0 <= i < |arms[1..]| && arms[1..][i] == x;
      assert all[i + 1] == x.literal && all[0] == arms[0].literal;
    }
  }

  lemma SortedCons(arm: Arm, arms: seq<Arm>)
    requires SortedKeys(Literals(arms))
    requires forall x :: x in arms ==> !Below(KeyOf(x.literal), KeyOf(arm.literal))
    ensures SortedKeys(Literals([arm] + arms))
  {
    hide KeyOf;
    var all, rest := Literals([arm] + arms), Literals(arms);
    assert forall i :: 0 < i < |all| ==>
                         all[i] == rest[i - 1] && rest[i - 1] == arms[i - 1].literal && arms[i - 1] in arms;
  }

  lemma FirstStaysFirst(first: Arm, arm: Arm, rest: seq<Arm>, inserted: seq<Arm>)
    requires SortedKeys(Literals(inserted)) && multiset(inserted) == multiset(rest) + multiset{arm}
    requires Below(KeyOf(first.literal), KeyOf(arm.literal))
    requires forall x :: x in rest ==> !Below(KeyOf(x.literal), KeyOf(first.literal))
    ensures SortedKeys(Literals([first] + inserted))
  {
    hide KeyOf;
    forall x | x in inserted ensures !Below(KeyOf(x.literal), KeyOf(first.literal)) {
      assert x in multiset(inserted);
    }
    SortedCons(first, inserted);
  }

  lemma FirstIsLeast(arm: Arm, arms: seq<Arm>)
    requires arms != [] && SortedKeys(Literals(arms)) && !Below(KeyOf(arms[0].literal), KeyOf(arm.literal))
    ensures SortedKeys(Literals([arm] + arms))
  {
    hide KeyOf;
    SortedTail(arms);
    forall x | x in arms ensures !Below(KeyOf(x.literal), KeyOf(arm.literal)) {
      assert x == arms[0] || x in arms[1..];
    }
    SortedCons(arm, arms);
  }

  function Sort(arms: seq<Arm>): (r: seq<Arm>)
    ensures multiset(r) == multiset(arms)
    ensures SortedKeys(Literals(r))
  {
    if arms == [] then []
    else
      assert arms == [arms[0]] + arms[1..];
      Insert(arms[0], Sort(arms[1..]))
  }

  // ---------- patterns ----------

  datatype Mode =
    | LiteralMode | AnyMode | PrefixTreeMode | SuffixMode | PathSuffixMode | SegmentSuffixMode
    | ArmsMode | SuffixArms | SegmentSuffixArms | ExtensionArms

  /** `atSegmentEnd`: a separator follows the prefix. No arms: the prefix is all. */
  datatype Pattern = Pattern(prefix: Text, atSegmentEnd: bool, mode: Mode, arms: seq<Arm>)

  /** The path is the prefix, then what the parts match; a separator between the two may
      be missing when the path stops at the prefix and all parts are `**`. */
  ghost predicate BehindPrefix(prefix: Text, atSegmentEnd: bool, p: seq<Part>, s: Text)
    requires p != []
  {
    && prefix <= s
    && var rest := s[|prefix|..];
    if !atSegmentEnd then Accepts(p, rest)
    else if rest == [] then AllGlobstars(p)
    else rest[0] == SLASH && Accepts(p, rest[1..])
  }

  ghost predicate GoodArm(arm: Arm) {
    CompiledArm(arm.segs) && arm == MakeArm(arm.segs)
  }

  ghost predicate GoodArms(arms: seq<Arm>) {
    forall i :: 0 <= i < |arms| ==> GoodArm(arms[i])
  }

  /** What a pattern means, whatever its mode. */
  ghost predicate Means(pat: Pattern, s: Text)
    requires GoodArms(pat.arms)
  {
    if pat.arms == [] then s == pat.prefix
    else exists i :: 0 <= i < |pat.arms| && BehindPrefix(pat.prefix, pat.atSegmentEnd, Parts(pat.arms[i].segs), s)
  }

  predicate AllPlans(arms: seq<Arm>, plan: Plan) {
    forall i :: 0 <= i < |arms| ==> arms[i].plan == plan
  }

  predicate MatchesAnything(p: seq<Part>) {
    p == [Globstar] || p == [Globstar, Part([Star])]
  }

  /** The mode is one its arms allow. */
  ghost predicate ModeFits(pat: Pattern) {
    var one := |pat.arms| == 1;
    var root := pat.prefix == [] && !pat.atSegmentEnd;
    match pat.mode
    case LiteralMode => pat.arms == []
    case AnyMode => root && exists i :: 0 <= i < |pat.arms| && MatchesAnything(Parts(pat.arms[i].segs))
    case PrefixTreeMode => one && pat.atSegmentEnd && Parts(pat.arms[0].segs) == [Globstar]
    case SuffixMode => one && root && pat.arms[0].plan.Suffix?
    case PathSuffixMode => one && root && pat.arms[0].plan.PathSuffix?
    case SegmentSuffixMode => one && root && pat.arms[0].plan.SegmentSuffix?
    case ArmsMode => pat.arms != []
    case SuffixArms => pat.arms != [] && AllPlans(pat.arms, Suffix)
    case SegmentSuffixArms => pat.arms != [] && AllPlans(pat.arms, SegmentSuffix)
    case ExtensionArms =>
      && pat.arms != [] && AllPlans(pat.arms, Suffix) && SortedKeys(Literals(pat.arms))
      && forall i :: 0 <= i < |pat.arms| ==> Extension(pat.arms[i].literal)
  }

  ghost predicate ValidPattern(pat: Pattern) {
    GoodArms(pat.arms) && ModeFits(pat)
  }

  /** Choosing the mode, after all arms are compiled. It changes nothing of the meaning,
      though it may put the arms in another order. */
  method ChooseMode(prefix: Text, atSegmentEnd: bool, arms: seq<Arm>, matchAll: bool) returns (pat: Pattern)
    requires GoodArms(arms) && arms != []
    requires matchAll ==> prefix == [] && !atSegmentEnd &&
                          exists i :: 0 <= i < |arms| && MatchesAnything(Parts(arms[i].segs))
    ensures ValidPattern(pat) && pat.prefix == prefix && pat.atSegmentEnd == atSegmentEnd
    ensures multiset(pat.arms) == multiset(arms)
  {
    hide GoodArm, KeyOf, Extension, MatchesAnything, Sort, SortedKeys;
    pat := Pattern(prefix, atSegmentEnd, ArmsMode, arms);
    var root := prefix == [] && !atSegmentEnd;
    var arm := arms[0];
    if matchAll {
      pat := pat.(mode := AnyMode);
    } else if |arms| == 1 && atSegmentEnd && |arm.segs| == 1 && arm.segs[0].kind.Recursive? {
      assert Parts(arm.segs) == [Globstar];
      pat := pat.(mode := PrefixTreeMode);
    } else if |arms| == 1 && root && arm.plan.Suffix? {
      pat := pat.(mode := SuffixMode);
    } else if |arms| == 1 && root && arm.plan.PathSuffix? {
      pat := pat.(mode := PathSuffixMode);
    } else if |arms| == 1 && root && arm.plan.SegmentSuffix? {
      pat := pat.(mode := SegmentSuffixMode);
    } else if AllPlans(arms, Suffix) {
      pat := pat.(mode := SuffixArms);
      if |arms| >= 16 && forall i :: 0 <= i < |arms| ==> Extension(arms[i].literal) {
        SortedArms(arms);
        pat := pat.(mode := ExtensionArms, arms := Sort(arms));
      }
    } else if AllPlans(arms, SegmentSuffix) {
      pat := pat.(mode := SegmentSuffixArms);
    }
  }

  lemma SortedArms(arms: seq<Arm>)
    requires GoodArms(arms) && AllPlans(arms, Suffix) && arms != []
    requires forall i :: 0 <= i < |arms| ==> Extension(arms[i].literal)
    ensures var r := Sort(arms);
            && GoodArms(r) && AllPlans(r, Suffix) && r != []
            && forall i :: 0 <= i < |r| ==> Extension(r[i].literal)
  {
    hide GoodArm, Extension, Sort, SortedKeys;
    var r := Sort(arms);
    SameMembers(arms, r);
    SameMembers(r, arms);
    assert arms[0] in multiset(r);
  }

  /** The meaning does not depend on the order of the arms. */
  lemma MeansByMembers(pat: Pattern, arms: seq<Arm>, s: Text)
    requires GoodArms(pat.arms) && multiset(pat.arms) == multiset(arms) && arms != []
    ensures GoodArms(arms)
    ensures Means(pat, s) <==>
            exists i :: 0 <= i < |arms| && BehindPrefix(pat.prefix, pat.atSegmentEnd, Parts(arms[i].segs), s)
  {
    hide GoodArm, BehindPrefix, Parts;
    SameMembers(pat.arms, arms);
    SameMembers(arms, pat.arms);
    SegsNotEmpty(pat.arms);
    SegsNotEmpty(arms);
    assert pat.arms != [] by { assert arms[0] in multiset(pat.arms); }
    if Means(pat, s) { MeansAmong(pat.prefix, pat.atSegmentEnd, pat.arms, arms, s); }
    if exists i :: 0 <= i < |arms| && BehindPrefix(pat.prefix, pat.atSegmentEnd, Parts(arms[i].segs), s) {
      MeansAmong(pat.prefix, pat.atSegmentEnd, arms, pat.arms, s);
    }
  }

  lemma SameMembers(a: seq<Arm>, b: seq<Arm>)
    requires multiset(a) == multiset(b)
    ensures forall i :: 0 <= i < |a| ==> a[i] in b
    ensures GoodArms(a) ==> GoodArms(b)
  {
    hide GoodArm;
    forall i | 0 <= i < |a| ensures a[i] in b { assert a[i] in multiset(b); }
    if GoodArms(a) {
      forall i | 0 <= i < |b| ensures GoodArm(b[i]) { assert b[i] in multiset(a); }
    }
  }

  lemma MeansAmong(prefix: Text, atSegmentEnd: bool, a: seq<Arm>, b: seq<Arm>, s: Text)
    requires GoodArms(a) && GoodArms(b) && forall i :: 0 <= i < |a| ==> a[i] in b
    requires exists i :: 0 <= i < |a| && Parts(a[i].segs) != [] &&
               BehindPrefix(prefix, atSegmentEnd, Parts(a[i].segs), s)
    ensures exists i :: 0 <= i < |b| && Parts(b[i].segs) != [] &&
              BehindPrefix(prefix, atSegmentEnd, Parts(b[i].segs), s)
  {
    hide GoodArm, BehindPrefix, Parts;
    var i :| 0 <= i < |a| && Parts(a[i].segs) != [] && BehindPrefix(prefix, atSegmentEnd, Parts(a[i].segs), s);
    var j :| 0 <= j < |b| && b[j] == a[i];
  }

  lemma SegsNotEmpty(arms: seq<Arm>)
    requires GoodArms(arms)
    ensures forall i :: 0 <= i < |arms| ==> Parts(arms[i].segs) != []
  {
    hide RightBits, NoEmptyAfterGlobstar, CompiledSegments, MakeArm;
  }

  // ---------- matching ----------

  /** Some arm matches the rest of the path. */
  ghost predicate SomeArm(arms: seq<Arm>, str: Text)
    requires GoodArms(arms)
  {
    exists i :: 0 <= i < |arms| && Accepts(Parts(arms[i].segs), str)
  }

  method MatchArms(pat: Pattern, s: Text) returns (r: bool)
    requires ValidPattern(pat) && pat.arms != []
    requires pat.mode in {ArmsMode, SuffixArms, SegmentSuffixArms, ExtensionArms}
    ensures r <==> Means(pat, s)
  {
    hide GoodArm, GoodArms, Accepts, AllGlobstars, SomeArm, ModeFits, Means;
    var str := s;
    if pat.prefix != [] {
      if !(pat.prefix <= str) {
        MeansBehindPrefix(pat, s);
        return false;
      }
      str := str[|pat.prefix|..];
    }
    MeansBehindPrefix(pat, s);
    assert pat.prefix <= s && str == s[|pat.prefix|..];
    if pat.atSegmentEnd {
      if str == [] {
        AnyAbsorbs(pat.arms);
        return exists i :: 0 <= i < |pat.arms| && pat.arms[i].absorbsSeparator;
      }
      if str[0] != SLASH {
        return false;
      }
      str := str[1..];
    }
    r := MatchSomeArm(pat, str);
  }

  /** What the prefix leaves for the arms. */
  lemma MeansBehindPrefix(pat: Pattern, s: Text)
    requires GoodArms(pat.arms) && pat.arms != []
    ensures !(pat.prefix <= s) ==> !Means(pat, s)
    ensures pat.prefix <= s ==>
              var str := s[|pat.prefix|..];
              && (!pat.atSegmentEnd ==> (Means(pat, s) <==> SomeArm(pat.arms, str)))
              && (pat.atSegmentEnd && str == [] ==>
                    (Means(pat, s) <==> exists i :: 0 <= i < |pat.arms| && AllGlobstars(Parts(pat.arms[i].segs))))
              && (pat.atSegmentEnd && str != [] && str[0] != SLASH ==> !Means(pat, s))
              && (pat.atSegmentEnd && str != [] && str[0] == SLASH ==> (Means(pat, s) <==> SomeArm(pat.arms, str[1..])))
  {
    hide Accepts, Parts, AllGlobstars, GoodArm;
    SegsNotEmpty(pat.arms);
  }

  lemma AnyAbsorbs(arms: seq<Arm>)
    requires GoodArms(arms)
    ensures (exists i :: 0 <= i < |arms| && arms[i].absorbsSeparator) <==>
            (exists i :: 0 <= i < |arms| && AllGlobstars(Parts(arms[i].segs)))
  {
    hide AllGlobstars, CompiledArm, MakeArm;
    forall i | 0 <= i < |arms|
      ensures arms[i].absorbsSeparator <==> AllGlobstars(Parts(arms[i].segs))
    {
      AbsorbsMeansAllGlobstars(arms[i].segs);
    }
  }

  /** The arms are tried in turn, or all at once where the mode can. */
  method MatchSomeArm(pat: Pattern, str: Text) returns (r: bool)
    requires ValidPattern(pat) && pat.arms != []
    requires pat.mode in {ArmsMode, SuffixArms, SegmentSuffixArms, ExtensionArms}
    ensures r <==> SomeArm(pat.arms, str)
  {
    hide Accepts, MakeArm, CompiledArm, Parts, KeyOf, Extension, EndsWith;
    var arms := pat.arms;
    match pat.mode {
      case ExtensionArms =>
        SuffixArmsMatch(arms, str);
        r := MatchExtensionSet(Literals(arms), str);
        assert forall i :: 0 <= i < |arms| ==> Literals(arms)[i] == arms[i].literal;
      case SegmentSuffixArms =>
        SegmentSuffixArmsMatch(arms, str);
        if SLASH in str {
          return false;
        }
        r := MatchSuffixes(arms, str);
      case SuffixArms =>
        SuffixArmsMatch(arms, str);
        r := MatchSuffixes(arms, str);
      case _ =>
        r := MatchOneByOne(arms, str);
    }
  }

  method MatchSuffixes(arms: seq<Arm>, str: Text) returns (r: bool)
    ensures r <==> exists i :: 0 <= i < |arms| && EndsWith(str, arms[i].literal)
  {
    hide EndsWith;
    for i := 0 to |arms|
      invariant forall j :: 0 <= j < i ==> !EndsWith(str, arms[j].literal)
    {
      if PackedMatches(arms[i].literal, str) {
        return true;
      }
    }
    return false;
  }

  method MatchOneByOne(arms: seq<Arm>, str: Text) returns (r: bool)
    requires GoodArms(arms)
    ensures r <==> SomeArm(arms, str)
  {
    hide Accepts, MakeArm, CompiledArm, Parts;
    SegsNotEmpty(arms);
    for i := 0 to |arms|
      invariant forall j :: 0 <= j < i ==> !Accepts(Parts(arms[j].segs), str)
    {
      assert GoodArm(arms[i]);
      var hit := MatchArm(arms[i], str);
      if hit {
        return true;
      }
    }
    return false;
  }

  lemma SuffixArmsMatch(arms: seq<Arm>, str: Text)
    requires GoodArms(arms) && AllPlans(arms, Suffix)
    ensures SomeArm(arms, str) <==> exists i :: 0 <= i < |arms| && EndsWith(str, arms[i].literal)
  {
    hide Accepts, MakeArm, CompiledArm, Parts, EndsWith;
    SegsNotEmpty(arms);
    forall i | 0 <= i < |arms|
      ensures Accepts(Parts(arms[i].segs), str) <==> EndsWith(str, arms[i].literal)
    {
      assert GoodArm(arms[i]);
      SuffixArm(arms[i].segs, str);
    }
  }

  lemma SegmentSuffixArmsMatch(arms: seq<Arm>, str: Text)
    requires GoodArms(arms) && AllPlans(arms, SegmentSuffix)
    ensures SomeArm(arms, str) <==>
            SLASH !in str && exists i :: 0 <= i < |arms| && EndsWith(str, arms[i].literal)
  {
    hide Accepts, MakeArm, CompiledArm, Parts, EndsWith;
    SegsNotEmpty(arms);
    forall i | 0 <= i < |arms|
      ensures Accepts(Parts(arms[i].segs), str) <==> EndsWith(str, arms[i].literal) && SLASH !in str
    {
      assert GoodArm(arms[i]);
      SegmentSuffixArm(arms[i].segs, str);
    }
  }

  /** Every mode gives the answer of the arms' meanings. */
  method Match(pat: Pattern, s: Text) returns (r: bool)
    requires ValidPattern(pat)
    ensures r <==> Means(pat, s)
  {
    hide GoodArm, Accepts, MakeArm, CompiledArm, Parts, EndsWith, BehindPrefix, MatchesAnything, GoodArms, Means;
    match pat.mode {
      case LiteralMode =>
        MeansLiteral(pat, s);
        r := s == pat.prefix;
      case AnyMode =>
        MeansAnything(pat, s);
        r := true;
      case PrefixTreeMode =>
        MeansTree(pat, s);
        r := pat.prefix <= s && (|s| == |pat.prefix| || s[|pat.prefix|] == SLASH);
      case SuffixMode =>
        MeansOne(pat, s);
        GoodArmParts(pat.arms[0]);
        SuffixArm(pat.arms[0].segs, s);
        r := PackedMatches(pat.arms[0].literal, s);
      case PathSuffixMode =>
        MeansOne(pat, s);
        GoodArmParts(pat.arms[0]);
        PathSuffixArm(pat.arms[0].segs, s);
        var size := |pat.arms[0].literal|;
        r := PackedMatches(pat.arms[0].literal, s);
        if r {
          EndsWithSize(s, pat.arms[0].literal);
          r := |s| == size || s[|s| - size - 1] == SLASH;
        }
      case SegmentSuffixMode =>
        MeansOne(pat, s);
        GoodArmParts(pat.arms[0]);
        SegmentSuffixArm(pat.arms[0].segs, s);
        r := PackedMatches(pat.arms[0].literal, s) && SLASH !in s;
      case ArmsMode => r := MatchArms(pat, s);
      case SuffixArms => r := MatchArms(pat, s);
      case SegmentSuffixArms => r := MatchArms(pat, s);
      case ExtensionArms => r := MatchArms(pat, s);
    }
  }

  lemma EndsWithSize(s: Text, text: Text)
    requires EndsWith(s, text)
    ensures |text| <= |s|
  {
  }

  lemma GoodArmParts(arm: Arm)
    requires GoodArm(arm)
    ensures CompiledArm(arm.segs) && arm == MakeArm(arm.segs)
  {
  }

  lemma MeansLiteral(pat: Pattern, s: Text)
    requires ValidPattern(pat) && pat.mode.LiteralMode?
    ensures Means(pat, s) <==> s == pat.prefix
  {
  }

  lemma MeansOne(pat: Pattern, s: Text)
    requires ValidPattern(pat) && |pat.arms| == 1 && pat.prefix == [] && !pat.atSegmentEnd
    ensures GoodArm(pat.arms[0]) && Parts(pat.arms[0].segs) != []
    ensures Means(pat, s) <==> Accepts(Parts(pat.arms[0].segs), s)
  {
    hide Accepts, MakeArm, CompiledArm, Parts, ModeFits;
    SegsNotEmpty(pat.arms);
    assert s[0..] == s;
  }

  lemma MeansAnything(pat: Pattern, s: Text)
    requires ValidPattern(pat) && pat.mode.AnyMode?
    ensures Means(pat, s)
  {
    hide Accepts, MakeArm, CompiledArm, MatchesAnything;
    SegsNotEmpty(pat.arms);
    assert s[0..] == s;
    var i :| 0 <= i < |pat.arms| && MatchesAnything(Parts(pat.arms[i].segs));
    AcceptsAnything(Parts(pat.arms[i].segs), s);
    assert BehindPrefix(pat.prefix, pat.atSegmentEnd, Parts(pat.arms[i].segs), s);
  }

  lemma AcceptsAnything(p: seq<Part>, s: Text)
    requires MatchesAnything(p)
    ensures Accepts(p, s)
  {
    hide Split;
    if |p| == 2 {
      FinalSegment(p, s);
      StarTakesAll(Basename(s));
    }
  }

  lemma MeansTree(pat: Pattern, s: Text)
    requires ValidPattern(pat) && pat.mode.PrefixTreeMode?
    ensures Means(pat, s) <==> pat.prefix <= s && (|s| == |pat.prefix| || s[|pat.prefix|] == SLASH)
  {
    hide Accepts, MakeArm, CompiledArm, Split;
    var p := Parts(pat.arms[0].segs);
    if pat.prefix <= s {
      var rest := s[|pat.prefix|..];
      if rest != [] { AcceptsAnything(p, rest[1..]); }
    }
    assert Means(pat, s) <==> BehindPrefix(pat.prefix, pat.atSegmentEnd, p, s);
  }
}
