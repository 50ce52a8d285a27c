/** The operations on paths: reading one, and rewriting one in the buffer it is in. */
module PathBuffer {
  import opened PathSpec

  // ---------- reading ----------

  method FindNameEnd(p: string, at: nat, style: Style, x: Prefix) returns (end: nat)
    requires at <= |p|
    ensures end == NameEnd(p, at, style, x)
  {
    end := at;
    while end < |p| && !Separates(p[end], style, x)
      invariant at <= end <= |p| && NameEnd(p, at, style, x) == NameEnd(p, end, style, x)
    {
      end := end + 1;
    }
  }

  method FindRunEnd(p: string, at: nat, style: Style, x: Prefix) returns (end: nat)
    requires at <= |p|
    ensures end == RunEnd(p, at, style, x)
  {
    end := at;
    while end < |p| && Separates(p[end], style, x)
      invariant at <= end <= |p| && RunEnd(p, at, style, x) == RunEnd(p, end, style, x)
    {
      end := end + 1;
    }
  }

  /** The prefix of a Windows path. Moving back before separators, it never passes the
      start: every prefix holds a character that does not separate. */
  method FindPrefix(p: string) returns (x: Prefix, name: nat)
    ensures x == WindowsStart(p).prefix && name == Trimmed(p, WindowsStart(p).end, Windows, x)
    ensures name <= |p| && (x.NoPrefix? <==> name == 0)
  {
    var end: nat := 0;
    if |p| >= 4 && p[..4] == "\\\\?\\" {
      if |p| >= 7 && Lower(p[4]) == 'u' && Lower(p[5]) == 'n' && Lower(p[6]) == 'c' && (|p| == 7 || p[7] == '\\') {
        x := VerbatimUNC;
        end := FindNameEnd(p, if |p| < 8 then |p| else 8, Windows, Verbatim);
        if end < |p| {
          end := FindNameEnd(p, end + 1, Windows, Verbatim);
        }
      } else if |p| >= 6 && IsLetter(p[4]) && p[5] == ':' && (|p| == 6 || p[6] == '\\') {
        x, end := VerbatimDrive, 6;
      } else {
        x := Verbatim;
        end := FindNameEnd(p, 4, Windows, Verbatim);
      }
    } else if |p| >= 4 && Slash(p[0]) && Slash(p[1]) && (p[2] == '.' || p[2] == '?') && Slash(p[3]) {
      x := Device;
      end := FindNameEnd(p, 4, Windows, Device);
    } else if |p| >= 3 && Slash(p[0]) && Slash(p[1]) && !Slash(p[2]) {
      x := UNC;
      end := FindNameEnd(p, 2, Windows, UNC);
      if end + 1 < |p| && !Slash(p[end + 1]) {
        end := FindNameEnd(p, end + 1, Windows, UNC);
      }
    } else if |p| >= 2 && IsLetter(p[0]) && p[1] == ':' {
      x, end := Drive, 2;
    } else {
      return NoPrefix, 0;
    }
    assert WindowsStart(p) == Start(x, end);
    name := TrimPrefix(p, end, x);
  }

  method TrimPrefix(p: string, end: nat, x: Prefix) returns (name: nat)
    requires end <= |p| && exists i :: 0 <= i < end && !Separates(p[i], Windows, x)
    ensures name == Trimmed(p, end, Windows, x) && name > 0
  {
    name := end;
    while Separates(p[name - 1], Windows, x)
      invariant 0 < name <= end && exists i :: 0 <= i < name && !Separates(p[i], Windows, x)
      invariant Trimmed(p, end, Windows, x) == Trimmed(p, name, Windows, x)
      decreases name
    {
      name := name - 1;
    }
  }

  method FindRoot(p: string, style: Style) returns (r: Root)
    ensures r == RootOf(p, style)
  {
    hide NameEnd, WindowsStart;
    var x, name := NoPrefix, 0;
    if style == Windows {
      x, name := FindPrefix(p);
    }
    var end := FindRunEnd(p, name, style, x);
    r := Root(x, name, end);
  }

  /** The names of a path, one at a time, as places in it. */
  class ComponentIterator {
    const path: string
    const style: Style
    const prefix: Prefix
    var start: nat
    var end: nat

    ghost predicate Valid()
      reads this
    {
      start <= end <= |path| && end == NameEnd(path, start, style, prefix) && (start == end ==> start == |path|)
    }

    /** The name at hand and those after it. */
    ghost function Remaining(): seq<string>
      reads this
      requires Valid()
    {
      Names(path, start, style, prefix)
    }

    constructor (path: string, style: Style, prefix: Prefix, at: nat)
      requires at <= |path|
      ensures Valid() && this.path == path && this.style == style && this.prefix == prefix
      ensures Remaining() == Names(path, at, style, prefix) && start >= at
    {
      this.path, this.style, this.prefix := path, style, prefix;
      var first := FindNameStart(path, at, style, prefix);
      var last := FindNameEnd(path, first, style, prefix);
      this.start, this.end := first, last;
    }

    method Advance()
      requires Valid() && start < |path|
      modifies this
      ensures Valid() && Remaining() == old(Remaining())[1..]
      ensures old(end) <= start && (old(end) < start || start == |path|)
    {
      var next := FindNameStart(path, end, style, prefix);
      start := next;
      next := FindNameEnd(path, start, style, prefix);
      end := next;
    }
  }

  method FindNameStart(p: string, at: nat, style: Style, x: Prefix) returns (start: nat)
    requires at <= |p|
    ensures at <= start <= |p| && (start < |p| ==> !Separates(p[start], style, x))
    ensures Names(p, start, style, x) == Names(p, at, style, x)
    ensures at < |p| && Separates(p[at], style, x) ==> start > at
  {
    start := at;
    while start < |p| && Separates(p[start], style, x)
      invariant at <= start <= |p| && Names(p, start, style, x) == Names(p, at, style, x)
      invariant at < |p| && Separates(p[at], style, x) ==> start > at || start == at
    {
      start := start + 1;
    }
  }

  method CollectNames(p: string, r: Root, style: Style) returns (names: seq<string>)
    requires r == RootOf(p, style)
    ensures names == NamesOf(p, style)
  {
    hide Names, NameEnd, RootOf;
    var it := new ComponentIterator(p, style, r.prefix, r.end);
    names := [];
    ghost var target := it.Remaining();
    assert [] + target == target;
    while it.start < |p|
      invariant fresh(it) && it.Valid() && it.path == p && names + it.Remaining() == target
      decreases |p| - it.start
    {
      RemainingIs(p, Span(it.start, it.end), it.style, it.prefix);
      var name := p[it.start..it.end];
      MoreNames(names, name, Names(p, it.end, it.style, it.prefix));
      names := names + [name];
      it.Advance();
    }
    RemainingNone(p, it.style, it.prefix);
  }

  method FindSeparator(p: string, x: Prefix, style: Style, fallback: char) returns (c: char)
    ensures c == SeparatorOf(p, x, style, fallback)
  {
    if IsVerbatim(x) {
      return '\\';
    }
    assert p[0..] == p;
    for i := 0 to |p|
      invariant FirstSeparator(p, style, fallback) == FirstSeparator(p[i..], style, fallback)
    {
      if IsSeparator(p[i], style) {
        return p[i];
      }
      assert p[i..][1..] == p[i + 1..];
    }
    return fallback;
  }

  // ---------- places kept while the buffer is overwritten ----------

  datatype Span = Span(start: nat, end: nat)

  /** Names in order, each behind the last with a separator between them. */
  predicate Spaced(kept: seq<Span>, low: nat, limit: nat) {
    forall i :: 0 <= i < |kept| ==>
      low <= kept[i].start < kept[i].end < limit && (i > 0 ==> kept[i - 1].end < kept[i].start)
  }

  function Texts(p: string, kept: seq<Span>): (names: seq<string>)
    requires forall i :: 0 <= i < |kept| ==> kept[i].start <= kept[i].end <= |p|
    ensures |names| == |kept| && forall i :: 0 <= i < |kept| ==> names[i] == p[kept[i].start..kept[i].end]
  {
    seq(|kept|, i requires 0 <= i < |kept| => p[kept[i].start..kept[i].end])
  }

  /** The places of the names normalize() keeps. */
  method KeepSpans(p: string, r: Root, mode: DotDot, style: Style) returns (kept: seq<Span>)
    requires r == RootOf(p, style)
    ensures Spaced(kept, r.end, |p| + 1)
    ensures Texts(p, kept) == KeepAll([], NamesOf(p, style), mode, Rooted(r))
  {
    hide Names, RootOf, NameEnd;
    var it := new ComponentIterator(p, style, r.prefix, r.end);
    kept := [];
    ghost var target := KeepAll([], it.Remaining(), mode, Rooted(r));
    while it.start < |p|
      invariant fresh(it) && it.Valid() && it.path == p && r.end <= it.start
      invariant Spaced(kept, r.end, if it.start < |p| then it.start else |p| + 1)
      invariant target == KeepAll(Texts(p, kept), it.Remaining(), mode, Rooted(r))
      decreases |p| - it.start
    {
      var at := Span(it.start, it.end);
      kept := KeepSpan(p, kept, at, mode, Rooted(r), r.end);
      RemainingIs(p, at, it.style, it.prefix);
      it.Advance();
    }
    RemainingNone(p, it.style, it.prefix);
  }

  lemma RemainingIs(p: string, at: Span, style: Style, x: Prefix)
    requires at.start < |p| && at.end == NameEnd(p, at.start, style, x) > at.start
    ensures at.end <= |p|
    ensures Names(p, at.start, style, x) == [p[at.start..at.end]] + Names(p, at.end, style, x)
  {
  }

  lemma MoreNames(a: seq<string>, name: string, b: seq<string>)
    ensures a + ([name] + b) == a + [name] + b
  {
  }

  lemma RemainingNone(p: string, style: Style, x: Prefix)
    ensures Names(p, |p|, style, x) == []
  {
  }

  method KeepSpan(p: string, kept: seq<Span>, at: Span, mode: DotDot, stops: bool, ghost low: nat)
    returns (r: seq<Span>)
    requires low <= at.start < at.end <= |p| && Spaced(kept, low, at.start)
    ensures Spaced(r, low, at.end + 1)
    ensures Texts(p, r) == KeepName(Texts(p, kept), p[at.start..at.end], mode, stops)
  {
    hide Texts;
    var name := p[at.start..at.end];
    if name == "." {
      return kept;
    }
    TextsLess(p, kept);
    if name == ".." && mode == Fold {
      if kept != [] && p[kept[|kept| - 1].start..kept[|kept| - 1].end] != ".." {
        return kept[..|kept| - 1];
      }
      if stops {
        return kept;
      }
    }
    TextsMore(p, kept, at);
    return kept + [at];
  }

  lemma TextsLess(p: string, kept: seq<Span>)
    requires Spaced(kept, 0, |p| + 1)
    ensures kept != [] ==> Texts(p, kept[..|kept| - 1]) == Texts(p, kept)[..|kept| - 1]
  {
  }

  lemma TextsMore(p: string, kept: seq<Span>, at: Span)
    requires Spaced(kept, 0, |p| + 1) && at.start <= at.end <= |p|
    ensures Texts(p, kept + [at]) == Texts(p, kept) + [p[at.start..at.end]]
  {
  }

  lemma {:induction false} JoinedMore(names: seq<string>, name: string, sep: char)
    ensures Joined(names + [name], sep) == Joined(names, sep) + (if names == [] then [] else [sep]) + name
    decreases |names|
  {
    if names == [] {
      assert [] + [name] == [name];
    } else {
      assert (names + [name])[1..] == names[1..] + [name];
      JoinedMore(names[1..], name, sep);
      if |names| == 1 { assert names[1..] == []; }
    }
  }

  // ---------- the buffer ----------

  class Buffer {
    var chars: array<char>
    var size: nat

    ghost predicate Valid()
      reads this
    {
      size <= chars.Length
    }

    ghost function Contents(): string
      reads this, chars
      requires Valid()
    {
      chars[..size]
    }

    /** From `from` on, the buffer still holds the path `p` it held. */
    ghost predicate Unread(p: string, from: nat)
      reads this, chars
      requires Valid()
    {
      size == |p| && forall j :: from <= j < size ==> chars[j] == p[j]
    }

    constructor (text: string)
      ensures Valid() && fresh(chars) && Contents() == text
    {
      chars := new char[|text|](i requires 0 <= i < |text| => text[i]);
      size := |text|;
    }

    method Resize(n: nat)
      requires Valid() && n <= size
      modifies this`size
      ensures Valid() && size == n && Contents() == old(Contents())[..n]
    {
      size := n;
    }

    method Append(text: string)
      requires Valid()
      modifies this, chars
      ensures Valid() && (chars == old(chars) || fresh(chars))
      ensures Contents() == old(Contents()) + text
    {
      var was := chars[..size];
      if size + |text| > chars.Length {
        var all := was + text;
        chars := new char[|all|](i requires 0 <= i < |all| => all[i]);
        size := |all|;
      } else {
        forall i | 0 <= i < |text| {
          chars[size + i] := text[i];
        }
        size := size + |text|;
        assert chars[..size] == was + text;
      }
    }

    method Assign(text: string)
      requires Valid()
      modifies this, chars
      ensures Valid() && (chars == old(chars) || fresh(chars))
      ensures Contents() == text
      ensures |text| <= old(chars.Length) ==> chars == old(chars)
    {
      if |text| <= chars.Length {
        forall i | 0 <= i < |text| {
          chars[i] := text[i];
        }
        size := |text|;
        assert chars[..size] == text;
      } else {
        chars := new char[|text|](i requires 0 <= i < |text| => text[i]);
        size := |text|;
      }
    }

    /** Writes the root over the start of the path it was read from. */
    method WriteRoot(p: string, r: Root, style: Style, sep: char) returns (length: nat)
      requires Valid() && Contents() == p && r.name <= r.end <= |p|
      modifies chars
      ensures length <= r.end && chars[..length] == RootText(p, r, style, sep)
      ensures Unread(p, length)
    {
      length := 0;
      ghost var text := PrefixText(p[..r.name], r.prefix, style, sep);
      while length < r.name
        invariant length <= r.name
        invariant forall j :: 0 <= j < length ==> chars[j] == text[j]
        invariant forall j :: length <= j < size ==> chars[j] == p[j]
      {
        var c := chars[length];
        chars[length] := if !IsVerbatim(r.prefix) && IsSeparator(c, style) then sep else c;
        length := length + 1;
      }
      assert chars[..length] == text;
      if r.end > r.name {
        chars[length] := sep;
        length := length + 1;
        assert chars[..length] == text + [sep];
      }
    }

    method WriteSeparator(p: string, length: nat, sep: char)
      requires Valid() && length < size && Unread(p, length)
      modifies chars
      ensures Unread(p, length + 1) && chars[..length + 1] == old(chars[..length]) + [sep]
    {
      chars[length] := sep;
    }

    /** Moves the text of one name down to `length`. */
    method WriteName(p: string, at: Span, length: nat) returns (after: nat)
      requires Valid() && at.start < at.end <= |p| && length <= at.start && Unread(p, length)
      modifies chars
      ensures after <= at.end && Unread(p, after)
      ensures chars[..after] == old(chars[..length]) + p[at.start..at.end]
    {
      assert chars[at.start..at.end] == p[at.start..at.end];
      Move(length, at.start, at.end - at.start);
      after := length + at.end - at.start;
      assert chars[..after] == chars[..length] + chars[length..after];
    }

    /** memmove within the buffer. */
    method Move(to: nat, from: nat, count: nat)
      requires Valid() && to + count <= size && from + count <= size
      modifies chars
      ensures chars[..to] == old(chars[..to])
      ensures chars[to..to + count] == old(chars[from..from + count])
      ensures forall j :: to + count <= j < size ==> chars[j] == old(chars[j])
    {
      forall k | 0 <= k < count {
        chars[to + k] := chars[from + k];
      }
    }

    method WriteNames(p: string, kept: seq<Span>, length: nat, low: nat, sep: char) returns (after: nat)
      requires Valid() && size == |p| && length <= low <= |p| && Spaced(kept, low, |p| + 1)
      requires Unread(p, length)
      modifies chars
      ensures after <= size && chars[..after] == old(chars[..length]) + Joined(Texts(p, kept), sep)
    {
      hide Joined, Unread, Spaced, Texts;
      after := length;
      SpacedWithin(p, kept, low);
      ghost var names := Texts(p, kept);
      JoinedNone(sep);
      assert names[..0] == [];
      for i := 0 to |kept|
        invariant after <= if i == 0 then low else kept[i - 1].end
        invariant after <= size
        invariant chars[..after] == old(chars[..length]) + Joined(names[..i], sep)
        invariant Unread(p, after)
      {
        SpacedAt(kept, i, low, |p| + 1);
        JoinedNext(old(chars[..length]), names, i, sep);
        if i != 0 {
          WriteSeparator(p, after, sep);
          after := after + 1;
        }
        after := WriteName(p, kept[i], after);
      }
      assert names[..|kept|] == names;
    }

    /** Rewrites the path in its normal form, over the text it is still being read from. */
    method Normalize(mode: DotDot, style: Style)
      requires Valid()
      modifies this, chars
      ensures Valid() && chars == old(chars)
      ensures Contents() == Normal(old(Contents()), mode, style)
    {
      hide KeepAll, NamesOf, RootOf, Joined, RootText;
      var p := chars[..size];
      if p == [] {
        return;
      }
      var r := FindRoot(p, style);
      var kept := KeepSpans(p, r, mode, style);
      var sep := FindSeparator(p, r.prefix, style, '/');
      var length := WriteRoot(p, r, style, sep);
      length := WriteNames(p, kept, length, r.end, sep);
      if length == 0 {
        Assign(".");
        return;
      }
      Resize(length);
    }
  }

  lemma JoinedNext(head: string, names: seq<string>, i: nat, sep: char)
    requires i < |names|
    ensures head + Joined(names[..i + 1], sep) ==
            head + Joined(names[..i], sep) + (if i != 0 then [sep] else []) + names[i]
  {
    hide Joined;
    assert names[..i + 1] == names[..i] + [names[i]];
    JoinedMore(names[..i], names[i], sep);
  }

  lemma SpacedWithin(p: string, kept: seq<Span>, low: nat)
    requires Spaced(kept, low, |p| + 1)
    ensures forall i :: 0 <= i < |kept| ==> kept[i].start <= kept[i].end <= |p|
  {
  }

  lemma SpacedAt(kept: seq<Span>, i: nat, low: nat, limit: nat)
    requires Spaced(kept, low, limit) && i < |kept|
    ensures kept[i].start < kept[i].end < limit
    ensures (if i == 0 then low else kept[i - 1].end + 1) <= kept[i].start
  {
  }

  lemma JoinedNone(sep: char)
    ensures Joined([], sep) == []
  {
  }
}
