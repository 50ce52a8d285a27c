/** How Windows paths somebody wrote read: every kind of volume, the separators behind it,
    and the names. The laws are told by the texts. */
module PathVolumes {
  import opened PathSpec

  // ---------- what is written ----------

  predicate AnySlash(c: char) { c == '/' || c == '\\' }

  /** What a path starts with. */
  datatype Volume =
    | Bare
    | OnDrive(letter: char)
    | OnServer(a: char, b: char, server: string)
    | OnShare(a: char, b: char, server: string, c: char, share: string)
    | OnDevice(a: char, b: char, mark: char, c: char, device: string)
    | LongDrive(letter: char)
    | LongShare(unc: string, server: string, share: string)
    | LongName(name: string)

  predicate Long(v: Volume) { v.LongDrive? || v.LongShare? || v.LongName? }

  function VolumeText(v: Volume): string {
    match v
    case Bare => ""
    case OnDrive(l) => [l, ':']
    case OnServer(a, b, server) => [a, b] + server
    case OnShare(a, b, server, c, share) => [a, b] + server + [c] + share
    case OnDevice(a, b, mark, c, device) => [a, b, mark, c] + device
    case LongDrive(l) => "\\\\?\\" + [l, ':']
    case LongShare(unc, server, share) => "\\\\?\\" + unc + "\\" + server + "\\" + share
    case LongName(name) => "\\\\?\\" + name
  }

  function Kind(v: Volume): Prefix {
    match v
    case Bare => NoPrefix
    case OnDrive(_) => Drive
    case OnServer(_, _, _) => UNC
    case OnShare(_, _, _, _, _) => UNC
    case OnDevice(_, _, _, _, _) => Device
    case LongDrive(_) => VerbatimDrive
    case LongShare(_, _, _) => VerbatimUNC
    case LongName(_) => Verbatim
  }

  predicate Letter(c: char) { 'a' <= c <= 'z' || 'A' <= c <= 'Z' }

  /** Something, with no slash in it; behind a long prefix only a backslash is one. */
  predicate Word(s: string, long: bool) {
    s != [] && forall i :: 0 <= i < |s| ==> s[i] != '\\' && (long || s[i] != '/')
  }

  predicate SpellsUnc(s: string) {
    |s| == 3 && (s[0] == 'u' || s[0] == 'U') && (s[1] == 'n' || s[1] == 'N') && (s[2] == 'c' || s[2] == 'C')
  }

  predicate LooksLikeDrive(s: string) { |s| >= 2 && Letter(s[0]) && s[1] == ':' }

  predicate LooksLikeShare(s: string) { |s| >= 3 && AnySlash(s[0]) && AnySlash(s[1]) && !AnySlash(s[2]) }

  /** May the volume stand before `rest`? */
  predicate VolumeFits(v: Volume, rest: string) {
    match v
    case Bare => !LooksLikeDrive(rest) && !LooksLikeShare(rest)
    case OnDrive(l) => Letter(l)
    case OnServer(a, b, server) =>
      && AnySlash(a) && AnySlash(b) && Word(server, false) && server != "." && server != "?"
      && (rest != [] ==> AnySlash(rest[0]) && (|rest| > 1 ==> AnySlash(rest[1])))
    case OnShare(a, b, server, c, share) =>
      && AnySlash(a) && AnySlash(b) && AnySlash(c) && Word(server, false) && Word(share, false)
      && server != "." && server != "?" && (rest == [] || AnySlash(rest[0]))
    case OnDevice(a, b, mark, c, device) =>
      && AnySlash(a) && AnySlash(b) && AnySlash(c) && (mark == '.' || mark == '?') && Word(device, false)
      && [a, b, mark, c] != "\\\\?\\" && (rest == [] || AnySlash(rest[0]))
    case LongDrive(l) => Letter(l) && (rest == [] || rest[0] == '\\')
    case LongShare(unc, server, share) =>
      SpellsUnc(unc) && Word(server, true) && Word(share, true) && (rest == [] || rest[0] == '\\')
    case LongName(name) =>
      && Word(name, true) && !SpellsUnc(name) && !(|name| == 2 && LooksLikeDrive(name))
      && (rest == [] || rest[0] == '\\')
  }

  /** Separators alone. */
  predicate Gap(s: string, long: bool) { forall i :: 0 <= i < |s| ==> s[i] == '\\' || (!long && s[i] == '/') }

  /** The names, each with the separators after it. */
  type Spelling = seq<(string, string)>

  predicate SpellingFits(names: Spelling, long: bool) {
    forall i :: 0 <= i < |names| ==>
      Word(names[i].0, long) && Gap(names[i].1, long) && (i < |names| - 1 ==> names[i].1 != [])
  }

  function SpellingText(names: Spelling): string {
    if names == [] then "" else names[0].0 + names[0].1 + SpellingText(names[1..])
  }

  function SpelledNames(names: Spelling): seq<string> {
    if names == [] then [] else [names[0].0] + SpelledNames(names[1..])
  }

  /** A whole path: what it starts with, the separators behind that, and the names. */
  datatype Path = Path(volume: Volume, gap: string, names: Spelling)

  function PathText(p: Path): string { VolumeText(p.volume) + p.gap + SpellingText(p.names) }

  predicate PathFits(p: Path) {
    && VolumeFits(p.volume, p.gap + SpellingText(p.names)) && Gap(p.gap, Long(p.volume))
    && SpellingFits(p.names, Long(p.volume))
  }

  // ---------- separators and ends ----------

  lemma SeparatesIs(c: char, v: Volume)
    ensures Separates(c, Windows, Kind(v)) <==> c == '\\' || (!Long(v) && c == '/')
  {
  }

  lemma {:induction false} WordEnds(a: string, w: string, rest: string, x: Prefix)
    requires Word(w, IsVerbatim(x)) || w == []
    requires rest == [] || Separates(rest[0], Windows, x)
    ensures NameEnd(a + w + rest, |a|, Windows, x) == |a| + |w|
    decreases |w|
  {
    var p := a + w + rest;
    if w == [] {
      if rest != [] { assert p[|a|] == rest[0]; }
    } else {
      assert p[|a|] == w[0];
      assert p == (a + [w[0]]) + w[1..] + rest;
      WordEnds(a + [w[0]], w[1..], rest, x);
    }
  }

  lemma {:induction false} GapEnds(a: string, gap: string, rest: string, x: Prefix)
    requires Gap(gap, IsVerbatim(x)) && (rest == [] || !Separates(rest[0], Windows, x))
    ensures RunEnd(a + gap + rest, |a|, Windows, x) == |a| + |gap|
    decreases |gap|
  {
    var p := a + gap + rest;
    if gap == [] {
      if rest != [] { assert p[|a|] == rest[0]; }
    } else {
      assert p[|a|] == gap[0];
      assert p == (a + [gap[0]]) + gap[1..] + rest;
      GapEnds(a + [gap[0]], gap[1..], rest, x);
    }
  }

  // ---------- how it starts ----------

  lemma ShareStarts(v: Volume, rest: string)
    requires v.OnShare? && VolumeFits(v, rest)
    ensures WindowsStart(VolumeText(v) + rest) == Start(UNC, |VolumeText(v)|)
  {
    hide NameEnd, WindowsStart, VolumeText, VolumeFits, Word, Separates, LooksLikeShare;
    var p := VolumeText(v) + rest;
    ShareText(v, rest);
    WordEnds([v.a, v.b], v.server, [v.c] + v.share + rest, UNC);
    WordEnds([v.a, v.b] + v.server + [v.c], v.share, rest, UNC);
    ShareLooks(v, rest);
    TwoNamesStart(p, 2 + |v.server|, |VolumeText(v)|);
  }

  lemma ShareText(v: Volume, rest: string)
    requires v.OnShare? && VolumeFits(v, rest)
    ensures Word(v.server, false) && Word(v.share, false)
    ensures Separates(v.c, Windows, UNC) && (rest == [] || Separates(rest[0], Windows, UNC))
    ensures VolumeText(v) + rest == [v.a, v.b] + v.server + ([v.c] + v.share + rest)
    ensures VolumeText(v) + rest == ([v.a, v.b] + v.server + [v.c]) + v.share + rest
    ensures |VolumeText(v)| == 3 + |v.server| + |v.share|
  {
    hide Word;
  }

  lemma ShareLooks(v: Volume, rest: string)
    requires v.OnShare? && VolumeFits(v, rest)
    ensures var p := VolumeText(v) + rest;
            && LooksLikeShare(p) && !(|p| >= 4 && (p[2] == '.' || p[2] == '?') && AnySlash(p[3]))
            && 3 + |v.server| < |p| && !AnySlash(p[3 + |v.server|])
  {
    var p, n := VolumeText(v) + rest, |v.server|;
    assert p[0] == v.a && p[1] == v.b && p[2] == v.server[0] && p[3 + n] == v.share[0];
    if n > 1 { assert p[3] == v.server[1]; } else { assert v.server == [v.server[0]] && p[3] == v.c; }
  }

  lemma TwoNamesStart(p: string, server: nat, end: nat)
    requires LooksLikeShare(p) && !(|p| >= 4 && (p[2] == '.' || p[2] == '?') && AnySlash(p[3]))
    requires NameEnd(p, 2, Windows, UNC) == server && server + 1 < |p| && !AnySlash(p[server + 1])
    requires NameEnd(p, server + 1, Windows, UNC) == end
    ensures WindowsStart(p) == Start(UNC, end)
  {
    hide NameEnd, VerbatimStart;
    LongHead(p);
  }

  lemma ServerStarts(v: Volume, rest: string)
    requires v.OnServer? && VolumeFits(v, rest)
    ensures WindowsStart(VolumeText(v) + rest) == Start(UNC, |VolumeText(v)|)
  {
    hide NameEnd, VerbatimStart;
    var p, n := VolumeText(v) + rest, |v.server|;
    assert p == [v.a, v.b] + v.server + rest;
    WordEnds([v.a, v.b], v.server, rest, UNC);
    assert p[0] == v.a && p[1] == v.b && p[2] == v.server[0];
    if n > 1 { assert p[3] == v.server[1]; } else { assert v.server == [v.server[0]]; }
    if |rest| > 1 { assert p[2 + n + 1] == rest[1]; }
    LongHead(p);
  }

  lemma LongHead(p: string)
    ensures |p| >= 4 && p[..4] == "\\\\?\\" <==>
            |p| >= 4 && p[0] == '\\' && p[1] == '\\' && p[2] == '?' && p[3] == '\\'
  {
    if |p| >= 4 { assert p[..4] == [p[0], p[1], p[2], p[3]]; }
  }

  lemma DeviceStarts(v: Volume, rest: string)
    requires v.OnDevice? && VolumeFits(v, rest)
    ensures WindowsStart(VolumeText(v) + rest) == Start(Device, |VolumeText(v)|)
  {
    hide NameEnd, VerbatimStart;
    var p := VolumeText(v) + rest;
    var a := [v.a, v.b, v.mark, v.c];
    assert p == a + v.device + rest && p[..4] == a;
    WordEnds(a, v.device, rest, Device);
  }

  lemma LongStarts(v: Volume, rest: string)
    requires Long(v) && VolumeFits(v, rest)
    ensures WindowsStart(VolumeText(v) + rest) == Start(Kind(v), |VolumeText(v)|)
  {
    hide VerbatimStart;
    var p := VolumeText(v) + rest;
    assert p[..4] == "\\\\?\\";
    match v
    case LongDrive(_) => LongDriveStarts(v, rest);
    case LongShare(_, _, _) => LongShareStarts(v, rest);
    case LongName(_) => LongNameStarts(v, rest);
  }

  lemma LongDriveStarts(v: Volume, rest: string)
    requires v.LongDrive? && VolumeFits(v, rest)
    ensures VerbatimStart(VolumeText(v) + rest) == Start(VerbatimDrive, |VolumeText(v)|)
  {
    hide NameEnd;
    var p := VolumeText(v) + rest;
    assert p[4] == v.letter && p[5] == ':';
    if rest != [] { assert p[6] == rest[0]; }
  }

  lemma LongShareStarts(v: Volume, rest: string)
    requires v.LongShare? && VolumeFits(v, rest)
    ensures VerbatimStart(VolumeText(v) + rest) == Start(VerbatimUNC, |VolumeText(v)|)
  {
    hide NameEnd, VerbatimStart, SpellsUnc;
    var p, a := VolumeText(v) + rest, "\\\\?\\" + v.unc + "\\";
    UncHas(v.unc);
    var tail := "\\" + v.share + rest;
    assert p == a + v.server + tail;
    WordEnds(a, v.server, tail, Verbatim);
    assert p == (a + v.server + "\\") + v.share + rest;
    WordEnds(a + v.server + "\\", v.share, rest, Verbatim);
    assert p[4..8] == v.unc + "\\";
    UncStarts(p, v.unc, |a| + |v.server|, |VolumeText(v)|);
  }

  lemma UncHas(unc: string)
    requires SpellsUnc(unc)
    ensures |unc| == 3
  {
  }

  lemma UncStarts(p: string, unc: string, server: nat, end: nat)
    requires SpellsUnc(unc) && |p| > 8 && p[4..8] == unc + "\\"
    requires NameEnd(p, 8, Windows, Verbatim) == server < |p| && NameEnd(p, server + 1, Windows, Verbatim) == end
    ensures VerbatimStart(p) == Start(VerbatimUNC, end)
  {
    hide NameEnd;
    var t := p[4..8];
    assert t[0] == p[4] && t[1] == p[5] && t[2] == p[6] && t[3] == p[7];
  }

  lemma LongNameStarts(v: Volume, rest: string)
    requires v.LongName? && VolumeFits(v, rest)
    ensures VerbatimStart(VolumeText(v) + rest) == Start(Verbatim, |VolumeText(v)|)
  {
    hide NameEnd;
    var p, n := VolumeText(v) + rest, |v.name|;
    assert p == "\\\\?\\" + v.name + rest;
    WordEnds("\\\\?\\", v.name, rest, Verbatim);
    assert forall i :: 0 <= i < n ==> p[4 + i] == v.name[i];
    if |p| > 4 + n { assert p[4 + n] == rest[0]; }
  }

  lemma DriveStarts(v: Volume, rest: string)
    requires v.OnDrive? && VolumeFits(v, rest)
    ensures WindowsStart(VolumeText(v) + rest) == Start(Drive, 2)
  {
    hide NameEnd, VerbatimStart;
    var p := VolumeText(v) + rest;
    assert p[0] == v.letter && p[1] == ':';
    if |p| >= 4 { assert p[..4][0] == p[0]; }
  }

  lemma BareStarts(rest: string)
    requires VolumeFits(Bare, rest)
    ensures WindowsStart(rest) == Start(NoPrefix, 0)
  {
    hide NameEnd, VerbatimStart;
    LongHead(rest);
  }

  lemma VolumeStarts(v: Volume, rest: string)
    requires VolumeFits(v, rest)
    ensures WindowsStart(VolumeText(v) + rest) == Start(Kind(v), |VolumeText(v)|)
  {
    hide WindowsStart;
    match v
    case Bare =>
      assert VolumeText(v) + rest == rest;
      BareStarts(rest);
    case OnDrive(_) => DriveStarts(v, rest);
    case OnServer(_, _, _) => ServerStarts(v, rest);
    case OnShare(_, _, _, _, _) => ShareStarts(v, rest);
    case OnDevice(_, _, _, _, _) => DeviceStarts(v, rest);
    case _ => LongStarts(v, rest);
  }

  lemma VolumeEndsInName(v: Volume, rest: string)
    requires VolumeFits(v, rest) && !v.Bare?
    ensures VolumeText(v) != [] && !Separates(VolumeText(v)[|VolumeText(v)| - 1], Windows, Kind(v))
  {
    hide SpellsUnc;
    var t := VolumeText(v);
    match v
    case OnServer(_, _, server) => assert t[|t| - 1] == server[|server| - 1];
    case OnShare(_, _, _, _, share) => assert t[|t| - 1] == share[|share| - 1];
    case OnDevice(_, _, _, _, device) => assert t[|t| - 1] == device[|device| - 1];
    case LongShare(_, _, share) => assert t[|t| - 1] == share[|share| - 1];
    case LongName(name) => assert t[|t| - 1] == name[|name| - 1];
    case _ =>
  }

  lemma VerbatimIsLong(v: Volume)
    ensures IsVerbatim(Kind(v)) <==> Long(v)
  {
  }

  lemma SpellingStarts(names: Spelling, v: Volume)
    requires SpellingFits(names, Long(v))
    ensures var t := SpellingText(names); t == [] || !Separates(t[0], Windows, Kind(v))
    ensures names == [] <==> SpellingText(names) == []
  {
    hide Separates, Kind;
    if names != [] {
      assert Word(names[0].0, Long(v));
      var t := SpellingText(names);
      assert t[0] == names[0].0[0];
      SeparatesIs(t[0], v);
    }
  }

  /** The root of a path is its volume and the separators behind it. */
  lemma RootReads(p: Path)
    requires PathFits(p)
    ensures RootOf(PathText(p), Windows) ==
            Root(Kind(p.volume), |VolumeText(p.volume)|, |VolumeText(p.volume)| + |p.gap|)
  {
    hide WindowsStart, VolumeFits, Kind, Separates, SpellingText, SpellingFits, VolumeText, RunEnd, Long, IsVerbatim;
    var v, t := p.volume, VolumeText(p.volume);
    var rest := p.gap + SpellingText(p.names);
    var s := PathText(p);
    assert s == t + rest && s == t + p.gap + SpellingText(p.names);
    VolumeStarts(v, rest);
    VerbatimIsLong(v);
    SpellingStarts(p.names, v);
    GapEnds(t, p.gap, SpellingText(p.names), Kind(v));
    if v.Bare? {
      NoVolume();
    } else {
      VolumeEndsInName(v, rest);
      assert s[|t| - 1] == t[|t| - 1];
    }
  }

  lemma NoVolume()
    ensures VolumeText(Bare) == [] && Kind(Bare) == NoPrefix
  {
  }

  // ---------- the names ----------

  lemma {:induction false} SkipGap(s: string, at: nat, end: nat, x: Prefix)
    requires at <= end <= |s| && forall i :: at <= i < end ==> Separates(s[i], Windows, x)
    ensures Names(s, at, Windows, x) == Names(s, end, Windows, x)
    decreases end - at
  {
    hide Separates;
    if at < end { SkipGap(s, at + 1, end, x); }
  }

  lemma GapSeparates(gap: string, v: Volume, i: nat)
    requires Gap(gap, Long(v)) && i < |gap|
    ensures Separates(gap[i], Windows, Kind(v))
  {
    SeparatesIs(gap[i], v);
  }

  lemma SkipWritten(a: string, gap: string, rest: string, v: Volume)
    requires Gap(gap, Long(v))
    ensures Names(a + gap + rest, |a|, Windows, Kind(v)) == Names(a + gap + rest, |a| + |gap|, Windows, Kind(v))
  {
    hide Names, Separates, Kind, Long, Gap;
    var s := a + gap + rest;
    forall i | |a| <= i < |a| + |gap| ensures Separates(s[i], Windows, Kind(v)) {
      assert s[i] == gap[i - |a|];
      GapSeparates(gap, v, i - |a|);
    }
    SkipGap(s, |a|, |a| + |gap|, Kind(v));
  }

  lemma NamesStep(s: string, at: nat, end: nat, x: Prefix)
    requires at < end <= |s| && !Separates(s[at], Windows, x) && NameEnd(s, at, Windows, x) == end
    ensures Names(s, at, Windows, x) == [s[at..end]] + Names(s, end, Windows, x)
  {
    hide Separates, NameEnd;
  }

  lemma NameHere(a: string, name: string, tail: string, v: Volume)
    requires Word(name, Long(v)) && (tail == [] || Separates(tail[0], Windows, Kind(v)))
    ensures var s := a + name + tail;
            Names(s, |a|, Windows, Kind(v)) == [name] + Names(s, |a| + |name|, Windows, Kind(v))
  {
    hide Names, Separates, NameEnd, Kind, Long, IsVerbatim;
    var s, x := a + name + tail, Kind(v);
    VerbatimIsLong(v);
    WordEnds(a, name, tail, x);
    SeparatesIs(name[0], v);
    assert s[|a|] == name[0] && s[|a|..|a| + |name|] == name;
    NamesStep(s, |a|, |a| + |name|, x);
  }

  lemma SpellingFirst(names: Spelling, long: bool)
    requires names != [] && SpellingFits(names, long)
    ensures Word(names[0].0, long) && Gap(names[0].1, long) && SpellingFits(names[1..], long)
  {
    hide Word, Gap;
  }

  /** The names read are those spelled. */
  lemma {:induction false} NamesRead(a: string, names: Spelling, v: Volume)
    requires SpellingFits(names, Long(v))
    ensures Names(a + SpellingText(names), |a|, Windows, Kind(v)) == SpelledNames(names)
    decreases |names|
  {
    hide Names, Separates, Kind, Long, Gap, Word, SpellingFits;
    var s := a + SpellingText(names);
    if names == [] {
      NoMore(s, Kind(v));
    } else {
      var name, gap, rest := names[0].0, names[0].1, names[1..];
      SpellingFirst(names, Long(v));
      TailEnds(names, v);
      assert s == a + name + (gap + SpellingText(rest));
      NameHere(a, name, gap + SpellingText(rest), v);
      assert s == (a + name) + gap + SpellingText(rest);
      SkipWritten(a + name, gap, SpellingText(rest), v);
      NamesRead(a + name + gap, rest, v);
    }
  }

  lemma NoMore(s: string, x: Prefix)
    ensures Names(s, |s|, Windows, x) == []
  {
  }

  /** A name ends where it was written to. */
  lemma TailEnds(names: Spelling, v: Volume)
    requires names != [] && SpellingFits(names, Long(v))
    ensures var tail := names[0].1 + SpellingText(names[1..]); tail == [] || Separates(tail[0], Windows, Kind(v))
  {
    hide Separates, Kind, Long;
    var gap := names[0].1;
    if gap != [] {
      GapSeparates(gap, v, 0);
    } else {
      assert names[1..] == [];
    }
  }

  lemma PathNames(p: Path)
    requires PathFits(p)
    ensures NamesOf(PathText(p), Windows) == SpelledNames(p.names)
  {
    hide VolumeFits, Kind, SpellingText, SpellingFits, VolumeText, RootOf, Names, Long;
    RootReads(p);
    NamesRead(VolumeText(p.volume) + p.gap, p.names, p.volume);
  }

  // ---------- normal forms ----------

  /** `c` is the first slash of `s`, or a `/` when it has none. */
  predicate IsFirstSlash(s: string, c: char) {
    if s == [] then c == '/' else if AnySlash(s[0]) then c == s[0] else IsFirstSlash(s[1..], c)
  }

  lemma {:induction false} FirstSlashIs(s: string, c: char)
    requires IsFirstSlash(s, c)
    ensures FirstSeparator(s, Windows, '/') == c
  {
    if s != [] && !AnySlash(s[0]) { FirstSlashIs(s[1..], c); }
  }

  /** The volume with one separator throughout; a long one stays as it is. */
  function Unified(v: Volume, sep: char): string {
    match v
    case OnServer(_, _, server) => [sep, sep] + server
    case OnShare(_, _, server, _, share) => [sep, sep] + server + [sep] + share
    case OnDevice(_, _, mark, _, device) => [sep, sep, mark, sep] + device
    case _ => VolumeText(v)
  }

  lemma PrefixUnified(v: Volume, rest: string, sep: char)
    requires VolumeFits(v, rest)
    ensures PrefixText(VolumeText(v), Kind(v), Windows, sep) == Unified(v, sep)
  {
    hide SpellsUnc;
    var t := PrefixText(VolumeText(v), Kind(v), Windows, sep);
    assert |t| == |Unified(v, sep)|;
    forall i | 0 <= i < |t| ensures t[i] == Unified(v, sep)[i] {
      UnifiedAt(v, rest, sep, i);
    }
  }

  lemma UnifiedAt(v: Volume, rest: string, sep: char, i: nat)
    requires VolumeFits(v, rest) && i < |VolumeText(v)| == |Unified(v, sep)|
    ensures Unified(v, sep)[i] ==
            if !IsVerbatim(Kind(v)) && IsSeparator(VolumeText(v)[i], Windows) then sep else VolumeText(v)[i]
  {
    match v
    case OnServer(_, _, server) =>
      if i >= 2 { assert VolumeText(v)[i] == server[i - 2] == Unified(v, sep)[i]; }
    case OnShare(_, _, server, _, share) =>
      var n := |server|;
      if 2 <= i < 2 + n {
        assert VolumeText(v)[i] == server[i - 2] == Unified(v, sep)[i];
      } else if i > 2 + n {
        assert VolumeText(v)[i] == share[i - 3 - n] == Unified(v, sep)[i];
      }
    case OnDevice(_, _, _, _, device) =>
      if i >= 4 { assert VolumeText(v)[i] == device[i - 4] == Unified(v, sep)[i]; }
    case _ =>
  }

  /** A path nothing goes above: it has separators behind its volume, or a volume that is
      more than a drive. */
  predicate FromTop(p: Path) { p.gap != [] || !(p.volume.Bare? || p.volume.OnDrive?) }

  /** The normal form of a Windows path, as text: its volume, one separator for the gap, and
      the names kept, all with the separator it was first written with. */
  lemma WindowsNormal(p: Path, mode: DotDot, sep: char)
    requires PathFits(p) && PathText(p) != []
    requires if Long(p.volume) then sep == '\\' else IsFirstSlash(PathText(p), sep)
    ensures var kept := KeepAll([], SpelledNames(p.names), mode, FromTop(p));
            var text := Unified(p.volume, sep) + (if p.gap != [] then [sep] else []) + Joined(kept, sep);
            Normal(PathText(p), mode, Windows) == if text == [] then "." else text
  {
    hide VolumeFits, Kind, SpellingText, SpellingFits, VolumeText, RootOf, NamesOf, Long, PathText, KeepAll, Joined,
      IsFirstSlash, Unified, PrefixText, IsVerbatim;
    var s, v := PathText(p), p.volume;
    RootReads(p);
    PathNames(p);
    VerbatimIsLong(v);
    if !Long(v) { FirstSlashIs(s, sep); }
    VolumeFirst(p);
    PrefixUnified(v, p.gap + SpellingText(p.names), sep);
    TopIs(p);
  }

  lemma VolumeFirst(p: Path)
    ensures |VolumeText(p.volume)| <= |PathText(p)| && PathText(p)[..|VolumeText(p.volume)|] == VolumeText(p.volume)
  {
    hide SpellingText, VolumeText;
    assert PathText(p) == VolumeText(p.volume) + (p.gap + SpellingText(p.names));
  }

  lemma TopIs(p: Path)
    ensures FromTop(p) <==> ImpliesRoot(Kind(p.volume)) || p.gap != []
  {
  }
}
