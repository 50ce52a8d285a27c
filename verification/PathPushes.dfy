/** What joining written Windows paths gives, as text. */
module PathPushes {
  import opened PathSpec
  import opened PathVolumes

  /** A path that stands where it stands, whatever it is joined onto. */
  predicate Fixed(p: Path) { !p.volume.Bare? && FromTop(p) }

  lemma AbsoluteReads(p: Path)
    requires PathFits(p)
    ensures IsAbsolute(PathText(p), Windows) <==> Fixed(p)
  {
    hide PathFits, PathText, RootOf, VolumeText;
    RootReads(p);
  }

  /** An absolute path takes the place of what it is joined onto. */
  lemma AbsolutePushed(base: string, p: Path)
    requires PathFits(p) && Fixed(p)
    ensures Pushed(base, PathText(p), Windows) == PathText(p)
  {
    hide PathFits, PathText, RootOf, Fixed, IsAbsolute, Between, SamePrefix;
    AbsoluteReads(p);
  }

  predicate SameLetter(a: char, b: char) {
    a == b || ('a' <= a <= 'z' && b as int + 32 == a as int) || ('a' <= b <= 'z' && a as int + 32 == b as int)
  }

  predicate OnTheSameDrive(b: Volume, p: Volume) { b.OnDrive? && p.OnDrive? && SameLetter(b.letter, p.letter) }

  lemma DriveCompares(b: Path, p: Path)
    requires PathFits(b) && PathFits(p) && p.volume.OnDrive?
    ensures SamePrefix(PathText(p), RootOf(PathText(p), Windows), PathText(b), RootOf(PathText(b), Windows), Windows)
            <==> OnTheSameDrive(b.volume, p.volume)
  {
    hide RootOf, SpellingText, SpellingFits;
    RootReads(b);
    RootReads(p);
    VolumeFirst(b);
    VolumeFirst(p);
    var s, t := PathText(p), PathText(b);
    assert s[0] == s[..2][0] == p.volume.letter && s[1] == s[..2][1] == ':';
    if b.volume.OnDrive? {
      assert t[0] == t[..2][0] == b.volume.letter && t[1] == t[..2][1] == ':';
      LettersCompare(p.volume.letter, b.volume.letter);
      assert SameCharacter(':', ':', Windows, Drive);
    } else {
      OtherKind(b.volume);
    }
  }

  lemma OtherKind(v: Volume)
    requires !v.OnDrive?
    ensures Kind(v) != Drive
  {
  }

  lemma LettersCompare(a: char, b: char)
    requires Letter(a) && Letter(b)
    ensures SameCharacter(a, b, Windows, Drive) <==> SameLetter(b, a)
  {
  }

  /** So does one on another drive. */
  lemma OtherDrivePushed(b: Path, p: Path)
    requires PathFits(b) && PathFits(p) && p.volume.OnDrive? && !OnTheSameDrive(b.volume, p.volume)
    ensures Pushed(PathText(b), PathText(p), Windows) == PathText(p)
  {
    hide PathFits, PathText, RootOf, IsAbsolute, Between, SamePrefix, OnTheSameDrive;
    RootReads(p);
    DriveCompares(b, p);
  }

  /** What a path is behind a volume: a long one knows no `/`. */
  function Behind(v: Volume, rest: string): string {
    if Long(v) then seq(|rest|, i requires 0 <= i < |rest| => if rest[i] == '/' then '\\' else rest[i]) else rest
  }

  lemma BehindIs(v: Volume, rest: string)
    ensures Behind(v, rest) == if IsVerbatim(Kind(v)) then Backslashed(rest) else rest
  {
    VerbatimIsLong(v);
  }

  /** A path from the top without a volume goes behind the other's volume. */
  lemma RootedPushed(b: Path, p: Path)
    requires PathFits(b) && PathFits(p) && PathText(b) != [] && p.volume.Bare? && p.gap != []
    ensures Pushed(PathText(b), PathText(p), Windows) == VolumeText(b.volume) + Behind(b.volume, PathText(p))
  {
    hide PathFits, PathText, RootOf, Between, SamePrefix, VolumeText, Kind, IsVerbatim, IsAbsolute, Behind;
    RootReads(b);
    RootReads(p);
    VolumeFirst(b);
    AbsoluteReads(p);
    NoVolume();
    assert PathText(p)[0..] == PathText(p);
    BehindIs(b.volume, PathText(p));
  }

  /** `c` is the last slash of `s`, or when it has none, the first of `rest`. */
  predicate IsNearestSlash(s: string, rest: string, c: char) {
    if s == [] then IsFirstSlash(rest, c)
    else if AnySlash(s[|s| - 1]) then c == s[|s| - 1]
    else IsNearestSlash(s[..|s| - 1], rest, c)
  }

  lemma {:induction false} NearestSlashIs(s: string, rest: string, c: char)
    requires IsNearestSlash(s, rest, c)
    ensures LastSeparator(s, Windows, FirstSeparator(rest, Windows, '/')) == c
  {
    if s == [] {
      FirstSlashIs(rest, c);
    } else if !AnySlash(s[|s| - 1]) {
      NearestSlashIs(s[..|s| - 1], rest, c);
    }
  }

  /** Another name can follow at once: the text ends in separators, or is a drive alone. */
  predicate EndsOpen(b: Path) {
    if b.names == [] then b.gap != [] || b.volume.Bare? || b.volume.OnDrive? else b.names[|b.names| - 1].1 != []
  }

  lemma {:induction false} SpellingEnds(names: Spelling, long: bool)
    requires SpellingFits(names, long) && names != []
    ensures var t := SpellingText(names);
            && t != []
            && (names[|names| - 1].1 != [] <==> t[|t| - 1] == '\\' || (!long && t[|t| - 1] == '/'))
    decreases |names|
  {
    hide SpellingFits;
    SpellingFirst(names, long);
    var t := SpellingText(names);
    if |names| == 1 {
      assert names[1..] == [] && SpellingText(names[1..]) == "";
      assert t == names[0].0 + names[0].1;
    } else {
      var more := SpellingText(names[1..]);
      SpellingEnds(names[1..], long);
      assert t[|t| - 1] == more[|more| - 1] && names[1..][|names| - 2] == names[|names| - 1];
    }
  }

  lemma TextEnds(b: Path)
    requires PathFits(b) && PathText(b) != []
    ensures var s := PathText(b);
            var n := |VolumeText(b.volume)|;
            EndsOpen(b) <==>
            (|s| > n && Separates(s[|s| - 1], Windows, Kind(b.volume))) || (|s| == n && !ImpliesRoot(Kind(b.volume)))
  {
    hide VolumeFits, VolumeText, Separates, SpellingFits;
    var s, n, t := PathText(b), |VolumeText(b.volume)|, SpellingText(b.names);
    SpellingStarts(b.names, b.volume);
    if b.names != [] {
      SpellingEnds(b.names, Long(b.volume));
      assert s[|s| - 1] == t[|t| - 1];
      SeparatesIs(s[|s| - 1], b.volume);
    } else if b.gap != [] {
      assert s[|s| - 1] == b.gap[|b.gap| - 1];
      GapSeparates(b.gap, b.volume, |b.gap| - 1);
    } else {
      assert s == VolumeText(b.volume);
      VolumeKinds(b.volume);
    }
  }

  lemma VolumeKinds(v: Volume)
    ensures ImpliesRoot(Kind(v)) <==> !v.Bare? && !v.OnDrive?
  {
  }

  lemma GoesAfter(base: string, p: string)
    requires base != [] && !IsAbsolute(p, Windows)
    requires var b, r := RootOf(base, Windows), RootOf(p, Windows);
             r.end == r.name && (r.prefix.NoPrefix? || SamePrefix(p, r, base, b, Windows))
    ensures var b, r := RootOf(base, Windows), RootOf(p, Windows);
            Pushed(base, p, Windows) ==
            base + Between(base, b, p, r, Windows)
            + if IsVerbatim(b.prefix) then Backslashed(p[r.name..]) else p[r.name..]
  {
    hide RootOf, SamePrefix, IsAbsolute, Between, IsVerbatim;
  }

  lemma BetweenIs(b: Path, p: Path, sep: char)
    requires PathFits(b) && PathFits(p) && PathText(b) != [] && p.gap == [] && p.names != []
    requires p.volume.Bare? || p.volume.OnDrive?
    requires if Long(b.volume) then sep == '\\' else IsNearestSlash(PathText(b), SpellingText(p.names), sep)
    ensures Between(PathText(b), RootOf(PathText(b), Windows), PathText(p), RootOf(PathText(p), Windows), Windows)
            == if EndsOpen(b) then [] else [sep]
  {
    hide PathFits, RootOf, PathText, VolumeText, Kind, IsVerbatim, EndsOpen, SpellingText, IsNearestSlash,
      LastSeparator, Separates, ImpliesRoot, Long;
    RootReads(b);
    RootReads(p);
    TextEnds(b);
    RestIs(p);
    VolumeFirst(b);
    VerbatimIsLong(b.volume);
    if !Long(b.volume) { NearestSlashIs(PathText(b), SpellingText(p.names), sep); }
  }

  /** A relative path goes after the other, behind one separator if it needs one: the nearest
      that either was written with. */
  lemma RelativePushed(b: Path, p: Path, sep: char)
    requires PathFits(b) && PathFits(p) && PathText(b) != [] && p.gap == [] && p.names != []
    requires p.volume.Bare? || OnTheSameDrive(b.volume, p.volume)
    requires if Long(b.volume) then sep == '\\' else IsNearestSlash(PathText(b), SpellingText(p.names), sep)
    ensures Pushed(PathText(b), PathText(p), Windows) ==
            PathText(b) + (if EndsOpen(b) then [] else [sep]) + Behind(b.volume, SpellingText(p.names))
  {
    hide PathFits, PathText, RootOf, SamePrefix, VolumeText, IsVerbatim, IsAbsolute, Behind, EndsOpen, SpellingText,
      IsNearestSlash, Between, Pushed, SameLetter, Long;
    RootReads(b);
    RootReads(p);
    AbsoluteReads(p);
    RestIs(p);
    BehindIs(b.volume, SpellingText(p.names));
    if p.volume.OnDrive? { DriveCompares(b, p); } else { NoVolume(); }
    GoesAfter(PathText(b), PathText(p));
    BetweenIs(b, p, sep);
  }

  lemma RestIs(p: Path)
    requires PathFits(p) && p.gap == [] && p.names != [] && (p.volume.Bare? || p.volume.OnDrive?)
    ensures SpellingText(p.names) != [] && PathText(p)[|VolumeText(p.volume)|..] == SpellingText(p.names)
    ensures !IsVerbatim(Kind(p.volume)) && !ImpliesRoot(Kind(p.volume))
  {
    hide SpellingText, SpellingFits, VolumeText;
    SpellingStarts(p.names, p.volume);
    assert PathText(p) == VolumeText(p.volume) + SpellingText(p.names);
  }
}
