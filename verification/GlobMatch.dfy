/** Patterns from text to answer, and literals as patterns. */
module GlobMatch {
  import opened GlobText
  import opened GlobSpec
  import opened GlobClass
  import opened GlobSyntax
  import opened GlobPattern
  import opened GlobBraces
  import opened GlobCreate

  /** A pattern created and asked for a path: it answers whether some choice of its brace
      terms spells a pattern that accepts the path. */
  method CreateAndMatch(s: Text, maxArms: nat, path: Text) returns (r: Result<bool>)
    ensures r.Ok? <==> Compiles(s, maxArms)
    ensures r.Ok? ==> (r.value <==> Matches(s, maxArms, path))
    ensures r.Err? ==> Wrong(s, maxArms, r.error)
  {
    hide Compiles, Matches, ValidPattern, Means, Wrong;
    var pattern := Create(s, maxArms);
    if pattern.Err? {
      return Err(pattern.error);
    }
    var answer := Match(pattern.value, path);
    return Ok(answer);
  }

  // ---------- escaping ----------

  predicate Special(b: byte) {
    b == BACKSLASH || Wildcard(b) || b == CLOSE || b == RBRACE || b == COMMA
  }

  function Escaped(t: Text): Text {
    if t == [] then [] else (if Special(t[0]) then [BACKSLASH, t[0]] else [t[0]]) + Escaped(t[1..])
  }

  method Escape(literal: Text) returns (escaped: Text)
    ensures escaped == Escaped(literal)
  {
    hide Special;
    escaped := [];
    assert literal[0..] == literal && [] + Escaped(literal) == Escaped(literal);
    for i := 0 to |literal|
      invariant escaped + Escaped(literal[i..]) == Escaped(literal)
    {
      var c := literal[i];
      EscapedStep(escaped, literal[i..]);
      assert literal[i..][1..] == literal[i + 1..];
      if Special(c) {
        escaped := escaped + [BACKSLASH];
      }
      escaped := escaped + [c];
    }
  }

  lemma EscapedStep(before: Text, t: Text)
    requires t != []
    ensures Special(t[0]) ==> before + Escaped(t) == before + [BACKSLASH] + [t[0]] + Escaped(t[1..])
    ensures !Special(t[0]) ==> before + Escaped(t) == before + [t[0]] + Escaped(t[1..])
  {
    hide Special;
    var rest := Escaped(t[1..]);
    assert before + ([BACKSLASH, t[0]] + rest) == before + [BACKSLASH] + [t[0]] + rest;
  }

  /** Escaped, a text is all literal and reads as it was. */
  lemma {:induction false} EscapedIsLiteral(t: Text)
    ensures HeadSize(Escaped(t)) == |Escaped(t)| && LiteralRaw(Escaped(t)) && Resolve(Escaped(t)) == t
  {
    if t != [] {
      var rest := Escaped(t[1..]);
      EscapedIsLiteral(t[1..]);
      if Special(t[0]) {
        assert ([BACKSLASH, t[0]] + rest)[2..] == rest;
      } else {
        assert ([t[0]] + rest)[1..] == rest;
      }
      assert t == [t[0]] + t[1..];
    }
  }

  /** A byte that means something in a pattern. */
  predicate Meaningful(b: byte) {
    b == 0x2A || b == 0x3F || b == 0x5B || b == 0x5D || b == 0x7B || b == 0x7D || b == 0x2C || b == 0x5C
  }

  /** Nothing is escaped that need not be. */
  lemma {:induction false} PlainStaysPlain(t: Text)
    requires forall i :: 0 <= i < |t| ==> !Meaningful(t[i])
    ensures Escaped(t) == t
  {
    if t != [] {
      PlainStaysPlain(t[1..]);
      assert !Special(t[0]) && t == [t[0]] + t[1..];
    }
  }

  lemma DoubleSlashFirst(b: byte, s: Text)
    ensures DoubleSlash([b] + s) <==> (b == SLASH && s != [] && s[0] == SLASH) || DoubleSlash(s)
  {
    var t := [b] + s;
    if DoubleSlash(s) {
      var i :| 0 < i < |s| && s[i - 1] == SLASH && s[i] == SLASH;
      assert t[i] == SLASH && t[i + 1] == SLASH && t[(i + 1) - 1] == SLASH;
    }
    if b == SLASH && s != [] && s[0] == SLASH { assert t[1 - 1] == SLASH && t[1] == SLASH; }
    if DoubleSlash(t) {
      var i :| 0 < i < |t| && t[i - 1] == SLASH && t[i] == SLASH;
      if i > 1 { assert s[(i - 1) - 1] == SLASH && s[i - 1] == SLASH; }
    }
  }

  lemma {:induction false} EscapedSlashes(t: Text)
    ensures DoubleSlash(Escaped(t)) <==> DoubleSlash(t)
  {
    hide DoubleSlash;
    if t == [] {
      assert Escaped(t) == t;
    } else {
      var rest := Escaped(t[1..]);
      EscapedSlashes(t[1..]);
      assert t == [t[0]] + t[1..];
      DoubleSlashFirst(t[0], t[1..]);
      DoubleSlashFirst(t[0], rest);
      assert t[1..] != [] ==> ((rest[0] == SLASH) <==> (t[1..][0] == SLASH));
      if Special(t[0]) {
        DoubleSlashFirst(BACKSLASH, [t[0]] + rest);
        assert [BACKSLASH] + ([t[0]] + rest) == [BACKSLASH, t[0]] + rest;
      }
    }
  }

  lemma AsciiCut(a: Text, x: byte, b: Text)
    requires x < 0x80
    ensures IsUtf8(a + [x] + b) <==> IsUtf8(a) && IsUtf8(b)
  {
    hide IsUtf8, StartsCharacter, AtomLen;
    var s := a + [x] + b;
    assert s[..|a|] == a && s[|a| + 1..] == b;
    if IsUtf8(s) { CutUtf8(s, |a|); }
    if IsUtf8(a) && IsUtf8(b) {
      OneAscii(x);
      Utf8Concat(a, [x]);
      Utf8Concat(a + [x], b);
    }
  }

  lemma OneAscii(x: byte)
    requires x < 0x80
    ensures IsUtf8([x])
  {
  }

  lemma {:induction false} EscapedUtf8(a: Text, t: Text)
    ensures IsUtf8(a + Escaped(t)) <==> IsUtf8(a + t)
    decreases |t|
  {
    hide IsUtf8, Special, Escaped;
    if t == [] {
      EscapedNone();
    } else {
      var c, rest := t[0], Escaped(t[1..]);
      EscapedStep(a, t);
      assert a + t == a + [c] + t[1..];
      if Special(c) {
        SpecialIsAscii(c);
        EscapedUtf8([], t[1..]);
        assert [] + rest == rest && [] + t[1..] == t[1..];
        EscapeCut(a, c, rest);
        AsciiCut(a, c, t[1..]);
      } else {
        EscapedUtf8(a + [c], t[1..]);
      }
    }
  }

  lemma EscapedNone()
    ensures Escaped([]) == []
  {
  }

  lemma SpecialIsAscii(c: byte)
    requires Special(c)
    ensures c < 0x80
  {
  }

  lemma EscapeCut(a: Text, c: byte, rest: Text)
    requires c < 0x80
    ensures IsUtf8(a + [BACKSLASH] + [c] + rest) <==> IsUtf8(a) && IsUtf8(rest)
  {
    hide IsUtf8;
    AsciiCut(a, BACKSLASH, []);
    AsciiCut(a + [BACKSLASH], c, rest);
    EmptyIsUtf8();
    assert a + [BACKSLASH] + [] == a + [BACKSLASH];
  }

  lemma EmptyIsUtf8()
    ensures IsUtf8([])
  {
  }

  /** An escaped literal is a pattern that matches the literal and nothing else, exactly when
      the literal is UTF-8 without `//`; any other compiles to no pattern. */
  lemma EscapeRoundTrip(t: Text, maxArms: nat)
    ensures Compiles(Escaped(t), maxArms) <==> IsUtf8(t) && !DoubleSlash(t)
    ensures Compiles(Escaped(t), maxArms) ==> forall path :: Matches(Escaped(t), maxArms, path) <==> path == t
    ensures !Compiles(Escaped(t), maxArms) ==>
              forall e :: Wrong(Escaped(t), maxArms, e) <==> e == if IsUtf8(t) then MultipleSlash else InvalidUTF8
  {
    hide IsUtf8, DoubleSlash, Compiles, Matches, HeadSize, LiteralRaw, Resolve, Escaped;
    var s := Escaped(t);
    EscapedIsLiteral(t);
    EscapedSlashes(t);
    EscapedUtf8([], t);
    assert [] + s == s && [] + t == t && s[..|s|] == s;
    if !IsUtf8(t) {
      NotUtf8(s, maxArms);
    } else if DoubleSlash(t) {
      DoubleSlashFails(s, maxArms);
    } else {
      LiteralPattern(s, maxArms);
    }
  }
}
