/** Byte strings as the glob matcher reads them: UTF-8 characters, where a byte that
    belongs to no character stands for itself, and path segments between slashes. */
module GlobText {

  type byte = b: int | 0 <= b < 256
  type Text = seq<byte>

  const SLASH: byte := 0x2F
  const INVALID_ATOM_BASE := 0x110000

  // ---------- UTF-8 ----------

  /** How many bytes the character led by `lead` takes; 0 when none is led by it. */
  function Need(lead: byte): nat {
    if lead < 0x80 then 1
    else if 0xC2 <= lead <= 0xDF then 2
    else if 0xE0 <= lead <= 0xEF then 3
    else if 0xF0 <= lead <= 0xF4 then 4
    else 0
  }

  function SecondLow(lead: byte): byte {
    if lead == 0xE0 then 0xA0 else if lead == 0xF0 then 0x90 else 0x80
  }

  function SecondHigh(lead: byte): byte {
    if lead == 0xED then 0x9F else if lead == 0xF4 then 0x8F else 0xBF
  }

  predicate Continues(b: byte) { 0x80 <= b <= 0xBF }

  /** `s` starts with a well-formed character (table 3-7 of the Unicode Standard). */
  predicate StartsCharacter(s: Text) {
    && s != []
    && var n := Need(s[0]);
    && 0 < n <= |s|
    && (n > 1 ==> SecondLow(s[0]) <= s[1] <= SecondHigh(s[0]))
    && (n > 2 ==> Continues(s[2]))
    && (n > 3 ==> Continues(s[3]))
  }

  function CodePoint(s: Text): int
    requires StartsCharacter(s)
  {
    match Need(s[0])
    case 1 => s[0]
    case 2 => Bits(s[0], 0xC0) * 64 + Bits(s[1], 0x80)
    case 3 => (Bits(s[0], 0xE0) * 64 + Bits(s[1], 0x80)) * 64 + Bits(s[2], 0x80)
    case _ => ((Bits(s[0], 0xF0) * 64 + Bits(s[1], 0x80)) * 64 + Bits(s[2], 0x80)) * 64 + Bits(s[3], 0x80)
  }

  /** What a byte of a character adds to the code point: its value without the mark. */
  function Bits(b: byte, mark: int): int { b - mark }

  function LeadMark(need: nat): int {
    if need == 2 then 0xC0 else if need == 3 then 0xE0 else 0xF0
  }

  /** The matching unit at the start of `s`: its size in bytes, and its value. */
  function AtomLen(s: Text): (n: nat)
    requires s != []
    ensures 1 <= n <= |s| && n <= 4
  {
    if StartsCharacter(s) then Need(s[0]) else 1
  }

  function AtomValue(s: Text): int
    requires s != []
  {
    if StartsCharacter(s) then CodePoint(s) else INVALID_ATOM_BASE + s[0]
  }

  /** All matching units of `s`. */
  function Atoms(s: Text): seq<int> {
    if s == [] then [] else [AtomValue(s)] + Atoms(s[AtomLen(s)..])
  }

  predicate IsUtf8(s: Text) {
    s == [] || (StartsCharacter(s) && IsUtf8(s[AtomLen(s)..]))
  }

  /** `t` starts some character and is no more than it. */
  ghost predicate Begins(t: Text) {
    exists u: Text :: StartsCharacter(t + u) && |t| <= AtomLen(t + u)
  }

  /** The same, told by the bytes. */
  predicate Fits(t: Text) {
    && t != [] && |t| <= Need(t[0])
    && (|t| > 1 ==> SecondLow(t[0]) <= t[1] <= SecondHigh(t[0]))
    && (|t| > 2 ==> Continues(t[2]))
    && (|t| > 3 ==> Continues(t[3]))
  }

  lemma FitsBegins(t: Text)
    ensures t != [] ==> (Begins(t) <==> Fits(t))
  {
    if Fits(t) {
      var missing := Need(t[0]) - |t|;
      var u: Text := seq(missing, i => if |t| == 1 && i == 0 then SecondLow(t[0]) else 0x80);
      assert StartsCharacter(t + u) && |t| <= AtomLen(t + u);
    }
  }

  /** The longest start of a character at the start of the text, and at least one byte. */
  ghost predicate MaximalSubpart(text: Text, length: nat) {
    && 1 <= length <= |text| && (length == 1 || Begins(text[..length]))
    && forall n :: length < n <= |text| ==> !Begins(text[..n])
  }

  lemma SubpartIs(text: Text, length: nat)
    requires 1 <= length <= |text| && (length == 1 || Fits(text[..length]))
    requires length < |text| ==> !Fits(text[..length + 1])
    ensures MaximalSubpart(text, length)
  {
    FitsBegins(text[..length]);
    forall n | length < n <= |text| ensures !Begins(text[..n]) {
      FitsBegins(text[..n]);
      var shorter, longer := text[..length + 1], text[..n];
      assert forall i :: 0 <= i <= length ==> shorter[i] == longer[i];
    }
  }

  /** The decoder's loop: it reads continuation bytes as long as they fit, and the
      sequence is valid when it got all its lead asks for. */
  method DecodeSequence(text: Text) returns (codePoint: int, length: nat, valid: bool)
    requires text != []
    ensures valid <==> StartsCharacter(text)
    ensures valid ==> codePoint == CodePoint(text) == AtomValue(text) && length == AtomLen(text)
    ensures !valid ==> codePoint == 0xFFFD && MaximalSubpart(text, length)
  {
    hide MaximalSubpart;
    var lead := text[0];
    if lead < 0x80 {
      return lead, 1, true;
    }
    var need, low: int, high: int := 0, 0x80, 0xBF;
    codePoint := 0;
    if 0xC2 <= lead <= 0xDF {
      need, codePoint := 2, lead - 0xC0;
    } else if 0xE0 <= lead <= 0xEF {
      need, codePoint := 3, lead - 0xE0;
      low := if lead == 0xE0 then 0xA0 else low;
      high := if lead == 0xED then 0x9F else high;
    } else if 0xF0 <= lead <= 0xF4 {
      need, codePoint := 4, lead - 0xF0;
      low := if lead == 0xF0 then 0x90 else low;
      high := if lead == 0xF4 then 0x8F else high;
    } else {
      SubpartIs(text, 1);
      return 0xFFFD, 1, false;
    }
    length := 1;
    while length < need && length < |text|
      invariant need == Need(lead) && 1 <= length <= need && length <= |text|
      invariant low == if length == 1 then SecondLow(lead) else 0x80
      invariant high == if length == 1 then SecondHigh(lead) else 0xBF
      invariant length > 1 ==> SecondLow(lead) <= text[1] <= SecondHigh(lead)
      invariant length > 2 ==> Continues(text[2])
      invariant length > 3 ==> Continues(text[3])
      invariant length == 1 ==> codePoint == Bits(lead, LeadMark(need))
      invariant length == 2 ==> codePoint == Bits(lead, LeadMark(need)) * 64 + Bits(text[1], 0x80)
      invariant length == 3 ==>
                  codePoint == (Bits(lead, LeadMark(need)) * 64 + Bits(text[1], 0x80)) * 64 + Bits(text[2], 0x80)
      invariant length == 4 ==> StartsCharacter(text) && codePoint == CodePoint(text)
      invariant Fits(text[..length])
    {
      var next := text[length];
      if next < low || next > high {
        break;
      }
      codePoint := codePoint * 64 + Bits(next, 0x80);
      low, high, length := 0x80, 0xBF, length + 1;
    }
    if length != need {
      SubpartIs(text, length);
      return 0xFFFD, length, false;
    }
    valid := true;
  }

  /** A character is told by its own bytes alone. */
  lemma AtomOfPrefix(t: Text, s: Text)
    requires StartsCharacter(t) && t <= s
    ensures StartsCharacter(s) && AtomLen(s) == AtomLen(t) && AtomValue(s) == AtomValue(t)
  {
  }

  /** Past the first one, the bytes of an atom are no character's first byte. */
  lemma InsideAtom(s: Text, i: nat)
    requires s != [] && 0 < i < AtomLen(s)
    ensures Continues(s[i]) && !StartsCharacter(s[i..])
  {
  }

  /** Equal atoms are spelled alike. */
  lemma AtomInjective(s: Text, t: Text)
    requires s != [] && t != [] && AtomValue(s) == AtomValue(t)
    ensures AtomLen(s) == AtomLen(t) && s[..AtomLen(s)] == t[..AtomLen(t)]
    ensures StartsCharacter(s) == StartsCharacter(t)
  {
    AtomRange(s);
    AtomRange(t);
    if StartsCharacter(s) {
      SameBytes(s, t);
    }
  }

  lemma SameBytes(s: Text, t: Text)
    requires StartsCharacter(s) && StartsCharacter(t)
    requires Need(s[0]) == Need(t[0]) && CodePoint(s) == CodePoint(t)
    ensures s[..Need(s[0])] == t[..Need(s[0])]
  {
    var n := Need(s[0]);
    if n == 3 {
      LastDigit(Bits(s[0], 0xE0) * 64 + Bits(s[1], 0x80), Bits(s[2], 0x80),
                Bits(t[0], 0xE0) * 64 + Bits(t[1], 0x80), Bits(t[2], 0x80));
    } else if n == 4 {
      var hs := Bits(s[0], 0xF0) * 64 + Bits(s[1], 0x80);
      var ht := Bits(t[0], 0xF0) * 64 + Bits(t[1], 0x80);
      LastDigit(hs * 64 + Bits(s[2], 0x80), Bits(s[3], 0x80), ht * 64 + Bits(t[2], 0x80), Bits(t[3], 0x80));
      LastDigit(hs, Bits(s[2], 0x80), ht, Bits(t[2], 0x80));
    }
    assert s[0] == t[0] && (n > 1 ==> s[1] == t[1]) && (n > 2 ==> s[2] == t[2]) && (n > 3 ==> s[3] == t[3]);
  }

  lemma LastDigit(a: int, b: int, c: int, d: int)
    requires 0 <= b < 64 && 0 <= d < 64 && a * 64 + b == c * 64 + d
    ensures a == c && b == d
  {
  }

  lemma AtomRange(s: Text)
    requires s != []
    ensures StartsCharacter(s) <==> AtomValue(s) < INVALID_ATOM_BASE
    ensures StartsCharacter(s) ==>
              match AtomLen(s)
              case 1 => 0 <= AtomValue(s) < 0x80
              case 2 => 0x80 <= AtomValue(s) < 0x800
              case 3 => 0x800 <= AtomValue(s) < 0x10000
              case _ => 0x10000 <= AtomValue(s) < 0x110000
  {
  }

  lemma {:induction false} AtomsConcat(t: Text, s: Text)
    requires IsUtf8(t)
    ensures Atoms(t + s) == Atoms(t) + Atoms(s)
  {
    hide StartsCharacter, AtomLen, AtomValue, Atoms;
    if t == [] {
      assert t + s == s;
      AtomsOfNothing(s);
    } else {
      var n := AtomLen(t);
      AtomOfPrefix(t, t + s);
      assert (t + s)[n..] == t[n..] + s;
      AtomsConcat(t[n..], s);
      AtomsUnfold(t);
      AtomsUnfold(t + s);
    }
  }

  lemma {:induction false} AtomsUnfold(s: Text)
    requires s != []
    ensures Atoms(s) == [AtomValue(s)] + Atoms(s[AtomLen(s)..])
  {
    hide AtomLen, AtomValue;
  }

  lemma AtomsOfNothing(s: Text)
    ensures Atoms([]) + Atoms(s) == Atoms(s)
  {
    hide AtomLen, AtomValue;
  }

  /** A text whose characters come first in `s` comes first in `s`. */
  lemma {:induction false} AtomsPrefix(t: Text, s: Text)
    requires IsUtf8(t) && Atoms(t) <= Atoms(s)
    ensures t <= s
  {
    hide StartsCharacter, AtomLen, AtomValue;
    if t != [] {
      assert s != [];
      var n := AtomLen(t);
      assert Atoms(t)[0] == Atoms(s)[0];
      AtomInjective(t, s);
      assert Atoms(t[n..]) == Atoms(t)[1..];
      assert Atoms(s[n..]) == Atoms(s)[1..];
      AtomsPrefix(t[n..], s[n..]);
      assert t == t[..n] + t[n..] && s == s[..n] + s[n..];
    }
  }

  lemma {:induction false} Utf8Concat(a: Text, b: Text)
    requires IsUtf8(a) && IsUtf8(b)
    ensures IsUtf8(a + b)
  {
    hide StartsCharacter, AtomLen, AtomValue;
    if a == [] {
      assert a + b == b;
    } else {
      AtomOfPrefix(a, a + b);
      assert (a + b)[AtomLen(a)..] == a[AtomLen(a)..] + b;
      Utf8Concat(a[AtomLen(a)..], b);
    }
  }

  // ---------- atom boundaries ----------

  /** `n` bytes of `s` are whole atoms. */
  predicate Reaches(s: Text, n: nat) {
    n == 0 || (s != [] && AtomLen(s) <= n && Reaches(s[AtomLen(s)..], n - AtomLen(s)))
  }

  lemma {:induction false} ReachesBetween(s: Text, a: nat, b: nat)
    requires Reaches(s, a) && Reaches(s, b) && a <= b
    ensures a <= |s| && Reaches(s[a..], b - a)
  {
    hide StartsCharacter, AtomLen;
    if a == 0 {
      assert s[0..] == s;
    } else {
      var n := AtomLen(s);
      ReachesBetween(s[n..], a - n, b - n);
      assert s[n..][a - n..] == s[a..] && (b - n) - (a - n) == b - a;
    }
  }

  lemma {:induction false} ReachesThrough(s: Text, a: nat, b: nat)
    requires Reaches(s, a) && a <= |s| && Reaches(s[a..], b)
    ensures Reaches(s, a + b)
  {
    hide StartsCharacter, AtomLen;
    if a == 0 {
      assert s[0..] == s;
    } else {
      var n := AtomLen(s);
      assert s[n..][a - n..] == s[a..];
      ReachesThrough(s[n..], a - n, b);
      assert a + b - n == a - n + b && n <= a + b;
    }
  }

  lemma {:induction false} ReachesText(t: Text, s: Text)
    requires IsUtf8(t) && t <= s
    ensures Reaches(s, |t|)
  {
    hide StartsCharacter, AtomLen, AtomValue;
    if t != [] {
      AtomOfPrefix(t, s);
      assert t[AtomLen(t)..] <= s[AtomLen(t)..];
      ReachesText(t[AtomLen(t)..], s[AtomLen(t)..]);
    }
  }

  /** UTF-8 synchronizes itself: wherever a character starts among the bytes of `s`, an
      atom of `s` starts. */
  lemma {:induction false} Synchronizes(s: Text, at: nat)
    requires at <= |s| && (at == |s| || StartsCharacter(s[at..]))
    ensures Reaches(s, at)
  {
    hide StartsCharacter, AtomLen;
    if at != 0 {
      var n := AtomLen(s);
      if at < n { InsideAtom(s, at); }
      assert s[n..][at - n..] == s[at..];
      Synchronizes(s[n..], at - n);
    }
  }

  // ---------- path segments ----------

  /** Where the first slash of `s` is, or its size. */
  function SegmentEnd(s: Text): (e: nat)
    ensures e <= |s|
    ensures SLASH !in s[..e]
    ensures e < |s| ==> s[e] == SLASH
  {
    if s == [] || s[0] == SLASH then 0
    else
      var e := 1 + SegmentEnd(s[1..]);
      assert s[..e] == [s[0]] + s[1..][..e - 1];
      e
  }

  /** The segments of a path: what its slashes separate, at least one. */
  function Split(s: Text): (r: seq<Text>)
    ensures |r| >= 1
  {
    var e := SegmentEnd(s);
    if e == |s| then [s] else [s[..e]] + Split(s[e + 1..])
  }

  lemma SegmentEndUnique(s: Text, e: nat)
    requires e <= |s| && SLASH !in s[..e] && (e < |s| ==> s[e] == SLASH)
    ensures SegmentEnd(s) == e
  {
  }

  lemma SplitAt(a: Text, s: Text)
    requires SLASH !in a
    ensures Split(a) == [a]
    ensures Split(a + [SLASH] + s) == [a] + Split(s)
  {
    SegmentEndUnique(a, |a|);
    var t := a + [SLASH] + s;
    assert t[..|a|] == a && t[|a| + 1..] == s;
    SegmentEndUnique(t, |a|);
  }
}
