/** Paths as text: their roots and names, and the path left once `.` and `..` are removed. */
module PathSpec {

  datatype Style = Posix | Windows

  datatype Prefix = NoPrefix | Drive | UNC | Device | VerbatimDrive | VerbatimUNC | Verbatim

  datatype DotDot = Fold | Keep

  predicate IsVerbatim(x: Prefix) { x.VerbatimDrive? || x.VerbatimUNC? || x.Verbatim? }

  /** All prefixes but a drive are absolute as they stand. */
  predicate ImpliesRoot(x: Prefix) { !x.NoPrefix? && !x.Drive? }

  predicate IsSeparator(c: char, style: Style) { c == '/' || (style.Windows? && c == '\\') }

  predicate Separates(c: char, style: Style, x: Prefix) {
    if IsVerbatim(x) then c == '\\' else IsSeparator(c, style)
  }

  predicate IsLetter(c: char) { 'a' <= c <= 'z' || 'A' <= c <= 'Z' }

  function Lower(c: char): char { if 'A' <= c <= 'Z' then ((c - 'A') as int + 'a' as int) as char else c }

  // ---------- the root ----------

  /** The first separator from `at` on, or the end of the text. */
  function NameEnd(p: string, at: nat, style: Style, x: Prefix): (end: nat)
    requires at <= |p|
    ensures at <= end <= |p|
    ensures forall i :: at <= i < end ==> !Separates(p[i], style, x)
    ensures end == |p| || Separates(p[end], style, x)
    decreases |p| - at
  {
    if at < |p| && !Separates(p[at], style, x) then NameEnd(p, at + 1, style, x) else at
  }

  /** Where the run of separators from `at` ends. */
  function RunEnd(p: string, at: nat, style: Style, x: Prefix): (end: nat)
    requires at <= |p|
    ensures at <= end <= |p|
    ensures forall i :: at <= i < end ==> Separates(p[i], style, x)
    ensures end == |p| || !Separates(p[end], style, x)
    decreases |p| - at
  {
    if at < |p| && Separates(p[at], style, x) then RunEnd(p, at + 1, style, x) else at
  }

  predicate Slash(c: char) { IsSeparator(c, Windows) }

  /** How a Windows path starts, and where that ends as read, an empty last name included. */
  datatype Start = Start(prefix: Prefix, end: nat)

  function VerbatimStart(p: string): (s: Start)
    requires |p| >= 4
    ensures IsVerbatim(s.prefix) && 4 <= s.end <= |p|
    ensures !s.prefix.Verbatim? ==> s.end > 4 && exists i :: 4 <= i < s.end && p[i] != '\\'
  {
    if |p| >= 7 && Lower(p[4]) == 'u' && Lower(p[5]) == 'n' && Lower(p[6]) == 'c' && (|p| == 7 || p[7] == '\\') then
      var server := NameEnd(p, if |p| < 8 then |p| else 8, Windows, Verbatim);
      assert p[4] != '\\';
      Start(VerbatimUNC, if server < |p| then NameEnd(p, server + 1, Windows, Verbatim) else server)
    else if |p| >= 6 && IsLetter(p[4]) && p[5] == ':' && (|p| == 6 || p[6] == '\\') then
      assert p[5] != '\\';
      Start(VerbatimDrive, 6)
    else Start(Verbatim, NameEnd(p, 4, Windows, Verbatim))
  }

  function WindowsStart(p: string): (s: Start)
    ensures s.end <= |p|
    ensures !s.prefix.NoPrefix? ==> exists i :: 0 <= i < s.end && !Separates(p[i], Windows, s.prefix)
    ensures s.prefix.NoPrefix? ==> s.end == 0
  {
    if |p| >= 4 && p[..4] == "\\\\?\\" then
      assert p[2] == '?';
      VerbatimStart(p)
    else if |p| >= 4 && Slash(p[0]) && Slash(p[1]) && (p[2] == '.' || p[2] == '?') && Slash(p[3]) then
      assert !Slash(p[2]);
      Start(Device, NameEnd(p, 4, Windows, Device))
    else if |p| >= 3 && Slash(p[0]) && Slash(p[1]) && !Slash(p[2]) then
      var server := NameEnd(p, 2, Windows, UNC);
      assert server > 2;
      Start(UNC, if server + 1 < |p| && !Slash(p[server + 1]) then NameEnd(p, server + 1, Windows, UNC) else server)
    else if |p| >= 2 && IsLetter(p[0]) && p[1] == ':' then
      assert !Slash(p[1]);
      Start(Drive, 2)
    else Start(NoPrefix, 0)
  }

  /** `end`, moved before the separators it is behind. */
  function Trimmed(p: string, end: nat, style: Style, x: Prefix): (r: nat)
    requires end <= |p|
    ensures r <= end && (r == 0 || !Separates(p[r - 1], style, x))
    ensures forall i :: r <= i < end ==> Separates(p[i], style, x)
  {
    if end > 0 && Separates(p[end - 1], style, x) then Trimmed(p, end - 1, style, x) else end
  }

  /** The root as two lengths: of the prefix's name, and of that and the separators after. */
  datatype Root = Root(prefix: Prefix, name: nat, end: nat)

  function RootOf(p: string, style: Style): (r: Root)
    ensures r.name <= r.end <= |p|
    ensures r.end == |p| || !Separates(p[r.end], style, r.prefix)
    ensures style.Posix? ==> r.prefix.NoPrefix? && r.name == 0
    ensures forall i :: r.name <= i < r.end ==> Separates(p[i], style, r.prefix)
  {
    var s := if style.Windows? then WindowsStart(p) else Start(NoPrefix, 0);
    var name := Trimmed(p, s.end, Windows, s.prefix);
    Root(s.prefix, name, RunEnd(p, name, style, s.prefix))
  }

  /** A path nothing can be put before: it has a separator up front, or such a prefix. */
  predicate Rooted(r: Root) { ImpliesRoot(r.prefix) || r.end > r.name }

  predicate IsAbsolute(p: string, style: Style) {
    var r := RootOf(p, style);
    ImpliesRoot(r.prefix) || ((r.prefix.Drive? || style.Posix?) && r.end > r.name)
  }

  // ---------- the names ----------

  predicate IsName(s: string, style: Style, x: Prefix) {
    s != [] && forall i :: 0 <= i < |s| ==> !Separates(s[i], style, x)
  }

  /** The names from `at` on: what is between separators. */
  function Names(p: string, at: nat, style: Style, x: Prefix): (names: seq<string>)
    requires at <= |p|
    decreases |p| - at
  {
    if at == |p| then []
    else if Separates(p[at], style, x) then Names(p, at + 1, style, x)
    else
      var end := NameEnd(p, at, style, x);
      [p[at..end]] + Names(p, end, style, x)
  }

  function NamesOf(p: string, style: Style): seq<string> {
    var r := RootOf(p, style);
    Names(p, r.end, style, r.prefix)
  }

  /** What is kept of the names so far with one more. */
  function KeepName(kept: seq<string>, name: string, mode: DotDot, stops: bool): seq<string> {
    if name == "." then kept
    else if name == ".." && mode.Fold? && kept != [] && kept[|kept| - 1] != ".." then kept[..|kept| - 1]
    else if name == ".." && mode.Fold? && stops then kept
    else kept + [name]
  }

  function KeepAll(kept: seq<string>, names: seq<string>, mode: DotDot, stops: bool): seq<string>
    decreases |names|
  {
    if names == [] then kept else KeepAll(KeepName(kept, names[0], mode, stops), names[1..], mode, stops)
  }

  // ---------- the text written ----------

  /** The first separator of `p`, or `fallback`. */
  function FirstSeparator(p: string, style: Style, fallback: char): (c: char)
    ensures c == fallback || IsSeparator(c, style)
  {
    if p == [] then fallback else if IsSeparator(p[0], style) then p[0] else FirstSeparator(p[1..], style, fallback)
  }

  function SeparatorOf(p: string, x: Prefix, style: Style, fallback: char): (c: char)
    ensures style.Posix? && fallback == '/' && !IsVerbatim(x) ==> c == '/'
  {
    if IsVerbatim(x) then '\\' else FirstSeparator(p, style, fallback)
  }

  function Joined(names: seq<string>, sep: char): string {
    if names == [] then [] else if |names| == 1 then names[0] else names[0] + [sep] + Joined(names[1..], sep)
  }

  /** The prefix's name with one separator throughout. */
  function PrefixText(name: string, x: Prefix, style: Style, sep: char): (s: string)
    ensures |s| == |name|
    ensures forall i :: 0 <= i < |s| ==>
              s[i] == if !IsVerbatim(x) && IsSeparator(name[i], style) then sep else name[i]
  {
    if name == [] then []
    else
      [if !IsVerbatim(x) && IsSeparator(name[0], style) then sep else name[0]] + PrefixText(name[1..], x, style, sep)
  }

  function RootText(p: string, r: Root, style: Style, sep: char): (s: string)
    requires r.name <= r.end <= |p|
    ensures |s| <= r.end
  {
    PrefixText(p[..r.name], r.prefix, style, sep) + if r.end > r.name then [sep] else []
  }

  /** The normal form of a path: its root, then the names kept. */
  function Normal(p: string, mode: DotDot, style: Style): string {
    if p == [] then []
    else
      var r := RootOf(p, style);
      var sep := SeparatorOf(p, r.prefix, style, '/');
      var text := RootText(p, r, style, sep) + Joined(KeepAll([], NamesOf(p, style), mode, Rooted(r)), sep);
      if text == [] then "." else text
  }

  // ---------- joining and relating paths ----------

  predicate SameCharacter(a: char, b: char, style: Style, x: Prefix) {
    (Separates(a, style, x) && Separates(b, style, x)) || Lower(a) == Lower(b)
  }

  predicate SamePrefix(p: string, r: Root, q: string, s: Root, style: Style)
    requires r.name <= |p| && s.name <= |q|
  {
    r.prefix == s.prefix && r.name == s.name &&
    forall i :: 0 <= i < r.name ==> SameCharacter(p[i], q[i], style, r.prefix)
  }

  predicate SameRoot(p: string, q: string, style: Style) {
    var r, s := RootOf(p, style), RootOf(q, style);
    SamePrefix(p, r, q, s, style) && (Rooted(r) <==> Rooted(s))
  }

  /** The last separator of `p`, or `fallback`. */
  function LastSeparator(p: string, style: Style, fallback: char): (c: char)
    ensures c == fallback || IsSeparator(c, style)
  {
    if p == [] then fallback
    else if IsSeparator(p[|p| - 1], style) then p[|p| - 1]
    else LastSeparator(p[..|p| - 1], style, fallback)
  }

  function Backslashed(s: string): (t: string)
    ensures |t| == |s| && forall i :: 0 <= i < |s| ==> t[i] == if s[i] == '/' then '\\' else s[i]
  {
    seq(|s|, i requires 0 <= i < |s| => if s[i] == '/' then '\\' else s[i])
  }

  /** What stands between `base` and `p` joined onto it. */
  function Between(base: string, b: Root, p: string, r: Root, style: Style): string
    requires b.name <= |base| && r.name <= |p|
  {
    var rest := p[r.name..];
    var ends := |base| > b.name && Separates(base[|base| - 1], style, b.prefix);
    if rest == [] || ends || (|base| == b.name && !ImpliesRoot(b.prefix)) then []
    else if IsVerbatim(b.prefix) then "\\"
    else [LastSeparator(base, style, SeparatorOf(rest, r.prefix, style, '/'))]
  }

  /** `p` joined onto `base`. */
  function Pushed(base: string, p: string, style: Style): string {
    var b, r := RootOf(base, style), RootOf(p, style);
    if base == [] || IsAbsolute(p, style) || (!r.prefix.NoPrefix? && !SamePrefix(p, r, base, b, style)) then p
    else
      var rest := if IsVerbatim(b.prefix) then Backslashed(p[r.name..]) else p[r.name..];
      if r.end > r.name then base[..b.name] + rest
      else base + Between(base, b, p, r, style) + rest
  }

  function Resolved(p: string, base: string, mode: DotDot, style: Style): string {
    Normal(Pushed(base, p, style), mode, style)
  }

  /** How many names two lists start with in common. */
  function Common(a: seq<string>, b: seq<string>): (n: nat)
    ensures n <= |a| && n <= |b| && a[..n] == b[..n]
    ensures n < |a| && n < |b| ==> a[n] != b[n]
  {
    if a == [] || b == [] || a[0] != b[0] then 0
    else
      var n := 1 + Common(a[1..], b[1..]);
      assert a[..n] == [a[0]] + a[1..][..n - 1] && b[..n] == [b[0]] + b[1..][..n - 1];
      n
  }

  /** How many of the names climb down: all but `.`. */
  function Depth(names: seq<string>): nat {
    if names == [] then 0 else (if names[0] == "." then 0 else 1) + Depth(names[1..])
  }

  function Ups(n: nat): (s: seq<string>)
    ensures |s| == n && forall i :: 0 <= i < n ==> s[i] == ".."
  {
    seq(n, _ => "..")
  }

  datatype Way = Way(path: string) | NoWay

  /** What relative() answers: climbs out of what only the base names, then the path's own names. */
  function WayTo(p: string, base: string, style: Style): Way {
    var a, b := NamesOf(p, style), NamesOf(base, style);
    var n := Common(a, b);
    if !SameRoot(p, base, style) || ".." in b[n..] then NoWay
    else
      var names := Ups(Depth(b[n..])) + a[n..];
      var sep := SeparatorOf(p, RootOf(p, style).prefix, style,
                             SeparatorOf(base, RootOf(base, style).prefix, style, '/'));
      Way(if names == [] then "." else Joined(names, sep))
  }
}
