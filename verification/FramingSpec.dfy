/** Content-Length framing (the Base Protocol's Header Part of the Language Server
    Protocol), read one byte at a time: the reference the chunked parser is proved against. */
module FramingSpec {

  type Bytes = string

  const MAX_HEADER_SIZE := 8192
  const SKIPPED_PREFIX_SIZE := 4096
  const SIZE_MAX := 0xFFFF_FFFF_FFFF_FFFF
  const BLANK_LINE := "\r\n\r\n"

  datatype Reason = HeaderTooLong | InvalidLength(value: Bytes) | MissingLength

  /** What ends a frame: its payload, a header nobody can read, or a frame too large. */
  datatype Frame = Message(payload: Bytes) | Malformed(reason: Reason) | Oversized(size: nat, prefix: Bytes)

  datatype Option<T> = None | Some(value: T)

  // ---------- the header block ----------

  predicate Blank(c: char) { c == ' ' || c == '\t' }

  function TrimStart(s: Bytes): Bytes {
    if s != [] && Blank(s[0]) then TrimStart(s[1..]) else s
  }

  function TrimEnd(s: Bytes): Bytes {
    if s != [] && Blank(s[|s| - 1]) then TrimEnd(s[..|s| - 1]) else s
  }

  function Trim(s: Bytes): Bytes { TrimEnd(TrimStart(s)) }

  function Lower(c: char): char {
    if 'A' <= c <= 'Z' then c - 'A' + 'a' else c
  }

  predicate EqualsIgnoringCase(a: Bytes, b: Bytes) {
    |a| == |b| && forall i :: 0 <= i < |a| ==> Lower(a[i]) == Lower(b[i])
  }

  predicate Digit(c: char) { '0' <= c <= '9' }

  function Decimal(s: Bytes): nat
    requires forall i :: 0 <= i < |s| ==> Digit(s[i])
  {
    if s == [] then 0 else Decimal(s[..|s| - 1]) * 10 + DigitValue(s[|s| - 1])
  }

  function DigitValue(c: char): nat
    requires Digit(c)
  {
    c as int - '0' as int
  }

  /** std::from_chars on the whole value: digits alone, and no more than a size holds. */
  function ParseSize(value: Bytes): Option<nat> {
    if value != [] && (forall i :: 0 <= i < |value| ==> Digit(value[i])) && Decimal(value) <= SIZE_MAX
    then Some(Decimal(value)) else None
  }

  /** Where `c` first is in `s`, or the size of `s`. */
  function IndexOf(s: Bytes, c: char): (i: nat)
    ensures i <= |s| && c !in s[..i] && (i < |s| ==> s[i] == c)
  {
    if s == [] || s[0] == c then 0
    else
      var i := 1 + IndexOf(s[1..], c);
      assert s[..i] == [s[0]] + s[1..][..i - 1];
      i
  }

  predicate LineEndAt(s: Bytes, i: nat) {
    i + 2 <= |s| && s[i] == '\r' && s[i + 1] == '\n'
  }

  predicate EndsLine(s: Bytes) { |s| >= 2 && LineEndAt(s, |s| - 2) }

  /** Where the first line ends. */
  function LineEnd(s: Bytes): (e: nat)
    requires EndsLine(s)
    ensures LineEndAt(s, e) && forall i: nat :: i < e ==> !LineEndAt(s, i)
    ensures e + 2 < |s| ==> EndsLine(s[e + 2..])
    decreases |s|
  {
    LineEndFrom(s, 0)
  }

  function LineEndFrom(s: Bytes, from: nat): (e: nat)
    requires EndsLine(s) && from <= |s| - 2
    ensures from <= e && LineEndAt(s, e) && forall i: nat :: from <= i < e ==> !LineEndAt(s, i)
    ensures e + 2 < |s| ==> EndsLine(s[e + 2..])
    decreases |s| - from
  {
    if LineEndAt(s, from) then from else LineEndFrom(s, from + 1)
  }

  datatype Length = Known(size: nat) | Unknown(reason: Reason)

  /** What the line says of the length: nothing, a size, or something else. */
  function LineLength(line: Bytes): Option<Length> {
    var colon := IndexOf(line, ':');
    if colon == |line| || !EqualsIgnoringCase(Trim(line[..colon]), "Content-Length") then None
    else
      var value := Trim(line[colon + 1..]);
      match ParseSize(value)
      case Some(n) => Some(Known(n))
      case None => Some(Unknown(InvalidLength(value)))
  }

  /** The length the first Content-Length line of the block names. */
  function ContentLength(header: Bytes): Length
    requires header == [] || EndsLine(header)
    decreases |header|
  {
    if header == [] then Unknown(MissingLength)
    else
      var e := LineEnd(header);
      match LineLength(header[..e])
      case Some(length) => length
      case None => ContentLength(header[e + 2..])
  }

  predicate EndsBlank(s: Bytes) { |s| >= 4 && s[|s| - 4..] == BLANK_LINE }

  lemma EndsBlankEndsLine(s: Bytes)
    requires EndsBlank(s)
    ensures EndsLine(s)
  {
    var t := s[|s| - 4..];
    assert t[2] == s[|s| - 2] && t[3] == s[|s| - 1];
  }

  // ---------- the reference machine ----------

  datatype Phase = InHeader | InPayload | InSkip | Broken

  /** What the parser holds between two bytes. */
  datatype State = State(
    maxPayload: nat,
    phase: Phase,
    header: Bytes,
    payload: Bytes,
    prefix: Bytes,
    failure: Reason,
    remaining: nat,
    skippedSize: nat)

  function Fresh(maxPayload: nat): State {
    State(maxPayload, InHeader, [], [], [], MissingLength, 0, 0)
  }

  predicate Valid(st: State) {
    && |st.header| <= MAX_HEADER_SIZE && |st.prefix| <= SKIPPED_PREFIX_SIZE
    && (st.phase.InPayload? || st.phase.InSkip? ==> st.remaining > 0)
  }

  function Break(st: State, header: Bytes, reason: Reason): State {
    st.(phase := Broken, header := header, failure := reason)
  }

  /** After the blank line: what comes next, and the frame when nothing does. */
  function AfterHeader(st: State, header: Bytes): (State, Option<Frame>)
    requires EndsBlank(header)
  {
    EndsBlankEndsLine(header);
    match ContentLength(header)
    case Unknown(reason) => (Break(st, header, reason), Some(Malformed(reason)))
    case Known(n) =>
      var next := st.(header := [], payload := [], prefix := [], remaining := n);
      if n > st.maxPayload then (next.(phase := InSkip, skippedSize := n), None)
      else if n == 0 then (next.(phase := InHeader), Some(Message([])))
      else (next.(phase := InPayload), None)
  }

  /** One byte. */
  function StepByte(st: State, b: char): (r: (State, Option<Frame>))
    requires Valid(st) && !st.phase.Broken?
    ensures Valid(r.0) || r.0.phase.Broken?
    ensures r.0.phase.Broken? ==> r.1.Some? && r.1.value == Malformed(r.0.failure)
    ensures r.1.Some? && r.1.value.Malformed? ==> r.0.phase.Broken?
    ensures r.0.maxPayload == st.maxPayload
  {
    match st.phase
    case InHeader =>
      var header := st.header + [b];
      if |header| > MAX_HEADER_SIZE then (Break(st, header, HeaderTooLong), Some(Malformed(HeaderTooLong)))
      else if EndsBlank(header) then AfterHeader(st, header)
      else (st.(header := header), None)
    case InPayload =>
      var payload := st.payload + [b];
      if st.remaining == 1 then (st.(phase := InHeader, payload := [], remaining := 0), Some(Message(payload)))
      else (st.(payload := payload, remaining := st.remaining - 1), None)
    case InSkip =>
      var prefix := if |st.prefix| < SKIPPED_PREFIX_SIZE then st.prefix + [b] else st.prefix;
      if st.remaining == 1 then
        (st.(phase := InHeader, prefix := [], remaining := 0), Some(Oversized(st.skippedSize, prefix)))
      else (st.(prefix := prefix, remaining := st.remaining - 1), None)
    case Broken => (st, None)
  }

  predicate Good(st: State) { Valid(st) || st.phase.Broken? }

  /** What one feed does: the state it leaves, the bytes it takes, the frame they finish. */
  datatype Fed = Fed(state: State, consumed: nat, frame: Option<Frame>)

  function Later(n: nat, f: Fed): Fed { f.(consumed := f.consumed + n) }

  function Feed(st: State, input: Bytes): (r: Fed)
    requires Good(st)
    ensures Good(r.state) && r.consumed <= |input| && r.state.maxPayload == st.maxPayload
    ensures r.frame.None? ==> r.consumed == |input| && !r.state.phase.Broken?
    ensures r.frame.Some? && !st.phase.Broken? ==> r.consumed >= 1
    ensures r.state.phase.Broken? <==> r.frame.Some? && r.frame.value.Malformed?
    ensures r.state.phase.Broken? ==> r.frame == Some(Malformed(r.state.failure))
    decreases |input|
  {
    if st.phase.Broken? then Fed(st, 0, Some(Malformed(st.failure)))
    else if input == [] then Fed(st, 0, None)
    else
      var (next, frame) := StepByte(st, input[0]);
      if frame.Some? then Fed(next, 1, frame) else Later(1, Feed(next, input[1..]))
  }

  /** Feeding the bytes in two pieces is feeding them at once. */
  lemma {:induction false} FeedSplits(st: State, a: Bytes, b: Bytes)
    requires Good(st)
    ensures Feed(st, a).frame.Some? ==> Feed(st, a + b) == Feed(st, a)
    ensures Feed(st, a).frame.None? ==> Feed(st, a + b) == Later(|a|, Feed(Feed(st, a).state, b))
    decreases |a|
  {
    hide StepByte;
    if a == [] {
      assert a + b == b;
    } else if !st.phase.Broken? {
      assert (a + b)[0] == a[0] && (a + b)[1..] == a[1..] + b;
      var (next, frame) := StepByte(st, a[0]);
      if frame.None? { FeedSplits(next, a[1..], b); }
    }
  }

  // ---------- whole streams ----------

  /** All frames of a stream, and the state after it. A malformed header ends it. */
  datatype Outcome = Outcome(frames: seq<Frame>, state: State, consumed: nat)

  function Before(frames: seq<Frame>, n: nat, o: Outcome): Outcome {
    Outcome(frames + o.frames, o.state, n + o.consumed)
  }

  function Run(st: State, s: Bytes): (o: Outcome)
    requires Valid(st) && !st.phase.Broken?
    ensures Good(o.state) && o.consumed <= |s|
    ensures !o.state.phase.Broken? ==> o.consumed == |s|
    ensures o.state.phase.Broken? ==>
              o.frames != [] && o.frames[|o.frames| - 1] == Malformed(o.state.failure)
    decreases |s|
  {
    var fed := Feed(st, s);
    match fed.frame
    case None => Outcome([], fed.state, fed.consumed)
    case Some(frame) =>
      if frame.Malformed? then Outcome([frame], fed.state, fed.consumed)
      else Before([frame], fed.consumed, Run(fed.state, s[fed.consumed..]))
  }

  /** A stream read up to some point, then on from there. */
  function Resume(o: Outcome, s: Bytes): Outcome
    requires Good(o.state)
  {
    if o.state.phase.Broken? then o else Before(o.frames, o.consumed, Run(o.state, s))
  }

  /** However a stream is cut in two, the same frames come out, with the same bytes taken
      up to the first malformed header. */
  lemma {:induction false} RunSplits(st: State, a: Bytes, b: Bytes)
    requires Valid(st) && !st.phase.Broken?
    ensures Run(st, a + b) == Resume(Run(st, a), b)
    decreases |a|
  {
    hide Feed, StepByte;
    FeedSplits(st, a, b);
    var fed := Feed(st, a);
    if fed.frame.None? {
      FeedThenRun(st, a, b);
    } else if !fed.frame.value.Malformed? {
      var n := fed.consumed;
      assert (a + b)[n..] == a[n..] + b;
      RunSplits(fed.state, a[n..], b);
      var inner := Run(fed.state, a[n..]);
      if !inner.state.phase.Broken? {
        var tail := Run(inner.state, b);
        assert [fed.frame.value] + (inner.frames + tail.frames) == [fed.frame.value] + inner.frames + tail.frames;
      }
    }
  }

  lemma {:induction false} FeedThenRun(st: State, a: Bytes, b: Bytes)
    requires Valid(st) && !st.phase.Broken? && Feed(st, a).frame.None?
    ensures Run(st, a + b) == Resume(Run(st, a), b)
  {
    hide Feed, StepByte, Run, Valid;
    FeedSplits(st, a, b);
    var mid := Feed(st, a).state;
    var fed := Feed(mid, b);
    RunByFeed(st, a);
    RunByFeed(st, a + b);
    RunByFeed(mid, b);
    assert [] + Run(mid, b).frames == Run(mid, b).frames;
    assert (a + b)[|a| + fed.consumed..] == b[fed.consumed..];
  }

  lemma RunByFeed(st: State, s: Bytes)
    requires Valid(st) && !st.phase.Broken?
    ensures var fed := Feed(st, s);
            Run(st, s) ==
            match fed.frame
            case None => Outcome([], fed.state, fed.consumed)
            case Some(frame) =>
              if frame.Malformed? then Outcome([frame], fed.state, fed.consumed)
              else Before([frame], fed.consumed, Run(fed.state, s[fed.consumed..]))
  {
  }

  function Flatten(chunks: seq<Bytes>): Bytes {
    if chunks == [] then [] else chunks[0] + Flatten(chunks[1..])
  }

  /** A stream that comes in chunks, each read to its end before the next. */
  function RunChunks(st: State, chunks: seq<Bytes>): Outcome
    requires Valid(st) && !st.phase.Broken?
    decreases |chunks|
  {
    if chunks == [] then Outcome([], st, 0)
    else
      var first := Run(st, chunks[0]);
      if first.state.phase.Broken? then first
      else Before(first.frames, first.consumed, RunChunks(first.state, chunks[1..]))
  }

  /** However a stream is cut into chunks, it is read as if it came at once. */
  lemma {:induction false} ChunksDoNotMatter(st: State, chunks: seq<Bytes>)
    requires Valid(st) && !st.phase.Broken?
    ensures RunChunks(st, chunks) == Run(st, Flatten(chunks))
    decreases |chunks|
  {
    hide Feed, StepByte, Run;
    if chunks == [] {
      RunNothing(st);
    } else {
      RunSplits(st, chunks[0], Flatten(chunks[1..]));
      var first := Run(st, chunks[0]);
      if !first.state.phase.Broken? { ChunksDoNotMatter(first.state, chunks[1..]); }
    }
  }

  lemma RunNothing(st: State)
    requires Valid(st) && !st.phase.Broken?
    ensures Run(st, []) == Outcome([], st, 0)
  {
  }
}
