/** Writing frames and reading them back: the encoder, the two drivers of the parser, and
    the writer that groups frames into few writes. */
module FramingDrivers {
  import opened FramingSpec
  import opened Framing

  // ---------- the encoder ----------

  function DigitChar(d: nat): (c: char)
    requires d < 10
    ensures Digit(c) && DigitValue(c) == d
  {
    ['0', '1', '2', '3', '4', '5', '6', '7', '8', '9'][d]
  }

  function Digits(n: nat): (s: Bytes)
    ensures s != [] && forall i :: 0 <= i < |s| ==> Digit(s[i])
  {
    if n < 10 then [DigitChar(n)] else Digits(n / 10) + [DigitChar(n % 10)]
  }

  lemma {:induction false} DecimalOfDigits(n: nat)
    ensures Decimal(Digits(n)) == n
  {
    var s := Digits(n);
    if n < 10 {
      assert s[..0] == [];
    } else {
      assert s[..|s| - 1] == Digits(n / 10);
      DecimalOfDigits(n / 10);
    }
  }

  function Pow10(k: nat): nat { if k == 0 then 1 else 10 * Pow10(k - 1) }

  lemma {:induction false} DigitsBound(n: nat, k: nat)
    requires k >= 1 && n < Pow10(k)
    ensures |Digits(n)| <= k
  {
    if n >= 10 {
      assert k > 1 by { assert Pow10(0) == 1 && Pow10(1) == 10; }
      DigitsBound(n / 10, k - 1);
    }
  }

  lemma SizeHasFewDigits(n: nat)
    requires n <= SIZE_MAX
    ensures |Digits(n)| <= 20
  {
    assert Pow10(4) == 10000;
    assert Pow10(8) == 10000_0000;
    assert Pow10(12) == 10000_0000_0000;
    assert Pow10(16) == 10000_0000_0000_0000;
    assert Pow10(20) == 10000_0000_0000_0000_0000;
    DigitsBound(n, 20);
  }

  const NAME := "Content-Length"

  function FrameHeader(size: nat): Bytes { NAME + ": " + Digits(size) + BLANK_LINE }

  function EncodeFrame(payload: Bytes): Bytes { FrameHeader(|payload|) + payload }

  function Encode(payloads: seq<Bytes>): Bytes {
    if payloads == [] then [] else EncodeFrame(payloads[0]) + Encode(payloads[1..])
  }

  // ---------- what a written header reads as ----------

  lemma IndexOfUnique(s: Bytes, c: char, i: nat)
    requires i < |s| && s[i] == c && c !in s[..i]
    ensures IndexOf(s, c) == i
  {
    var j := IndexOf(s, c);
    if j < i { InFront(s, j, i); }
    if i < j { InFront(s, i, j); }
  }

  lemma InFront(s: Bytes, i: int, n: int)
    requires 0 <= i < n <= |s|
    ensures s[i] in s[..n]
  {
    assert s[..n][i] == s[i];
  }

  lemma TrimNothing(s: Bytes)
    requires s != [] && !Blank(s[0]) && !Blank(s[|s| - 1])
    ensures Trim(s) == s
  {
  }

  lemma LineOfHeader(digits: Bytes)
    requires digits != [] && forall i :: 0 <= i < |digits| ==> Digit(digits[i])
    ensures LineLength(NAME + ": " + digits) ==
            if Decimal(digits) <= SIZE_MAX then Some(Known(Decimal(digits))) else Some(Unknown(InvalidLength(digits)))
  {
    hide Trim, EqualsIgnoringCase, IndexOf, ParseSize, Decimal;
    var line := NAME + ": " + digits;
    HeaderParts(digits);
    IndexOfUnique(line, ':', 14);
    NameMatches();
    ValueTrims(digits);
    DigitsParse(digits);
  }

  lemma HeaderParts(digits: Bytes)
    ensures var line := NAME + ": " + digits;
            line[..14] == NAME && line[14] == ':' && ':' !in NAME && line[15..] == " " + digits
  {
    var line := NAME + ": " + digits;
    assert line[..14] == NAME && line[15..] == " " + digits;
  }

  lemma NameMatches()
    ensures EqualsIgnoringCase(Trim(NAME), "Content-Length")
  {
    TrimNothing(NAME);
  }

  lemma ValueTrims(digits: Bytes)
    requires digits != [] && forall i :: 0 <= i < |digits| ==> Digit(digits[i])
    ensures Trim(" " + digits) == digits
  {
    assert (" " + digits)[0] == ' ' && (" " + digits)[1..] == digits;
    assert Digit(digits[0]) && Digit(digits[|digits| - 1]);
    assert TrimStart(" " + digits) == digits;
  }

  lemma DigitsParse(digits: Bytes)
    requires digits != [] && forall i :: 0 <= i < |digits| ==> Digit(digits[i])
    ensures ParseSize(digits) == if Decimal(digits) <= SIZE_MAX then Some(Decimal(digits)) else None
  {
  }

  /** Where the carriage returns of a written header are. */
  lemma ReturnsOfHeader(digits: Bytes, i: nat)
    requires forall j :: 0 <= j < |digits| ==> Digit(digits[j])
    requires i < 20 + |digits|
    ensures var h := NAME + ": " + digits + BLANK_LINE;
            |h| == 20 + |digits| && (h[i] == '\r' <==> i == 16 + |digits| || i == 18 + |digits|)
  {
    var h := NAME + ": " + digits + BLANK_LINE;
    if i < 14 {
      assert h[i] == NAME[i];
      assert '\r' !in NAME;
    } else if 16 <= i < 16 + |digits| {
      assert h[i] == digits[i - 16];
      assert Digit(digits[i - 16]);
    } else if i >= 16 + |digits| {
      assert h[i] == BLANK_LINE[i - 16 - |digits|];
    }
  }

  lemma HeaderReadsBack(n: nat)
    requires n <= SIZE_MAX
    ensures var h := FrameHeader(n);
            && |h| <= 40 && EndsBlank(h) && EndsLine(h) && ContentLength(h) == Known(n)
            && forall k :: 0 <= k < |h| ==> !EndsBlank(h[..k])
  {
    hide LineLength, Trim, LineEnd;
    var d := Digits(n);
    var h := FrameHeader(n);
    SizeHasFewDigits(n);
    DecimalOfDigits(n);
    var e := 16 + |d|;
    assert h[e..] == BLANK_LINE;
    EndsBlankEndsLine(h);
    forall k | 0 <= k < |h| ensures !EndsBlank(h[..k]) {
      HeaderQuiet(d, k);
    }
    var f := LineEnd(h);
    ReturnsOfHeader(d, f);
    assert LineEndAt(h, e);
    assert f == e;
    assert h[..e] == NAME + ": " + d;
    LineOfHeader(d);
  }

  lemma HeaderQuiet(d: Bytes, k: nat)
    requires forall j :: 0 <= j < |d| ==> Digit(d[j])
    requires k < 20 + |d|
    ensures !EndsBlank((NAME + ": " + d + BLANK_LINE)[..k])
  {
    var h := NAME + ": " + d + BLANK_LINE;
    if k >= 4 {
      var t := h[..k];
      assert t[k - 4..][0] == h[k - 4] && t[k - 4..][2] == h[k - 2];
      ReturnsOfHeader(d, k - 4);
      ReturnsOfHeader(d, k - 2);
    }
  }

  // ---------- round trip ----------

  /** At a frame boundary: nothing of the next header has been read. */
  predicate InStep(st: State) {
    Valid(st) && st.phase.InHeader? && st.header == []
  }

  /** What a payload comes back as. */
  function Received(payload: Bytes, maxPayload: nat): Frame {
    if |payload| <= maxPayload then Message(payload)
    else Oversized(|payload|, payload[..if |payload| < SKIPPED_PREFIX_SIZE then |payload| else SKIPPED_PREFIX_SIZE])
  }

  /** A frame read from a boundary gives its payload, or tells that it is too large, and
      leaves the parser at the next boundary. */
  lemma FrameReadsBack(st: State, payload: Bytes, rest: Bytes)
    requires InStep(st) && |payload| <= SIZE_MAX
    ensures var fed := Feed(st, EncodeFrame(payload) + rest);
            && fed.frame == Some(Received(payload, st.maxPayload))
            && fed.consumed == |EncodeFrame(payload)|
            && InStep(fed.state) && fed.state.maxPayload == st.maxPayload
  {
    hide Feed, StepByte, EndsBlank, ContentLength, FrameHeader, AfterHeader, Kept;
    var n := |payload|;
    var h := FrameHeader(n);
    var w := EncodeFrame(payload) + rest;
    HeaderReadsBack(n);
    assert w[..|h|] == h && w[|h|..] == payload + rest;
    assert [] + h == h;
    forall k | 1 <= k <= |h| - 1 ensures !EndsBlank(st.header + w[..k]) {
      assert st.header + w[..k] == h[..k];
    }
    HeaderByte(st, w, |h|);
    AfterHeaderIs(st, h, Known(n));
    var next := AfterHeader(st, h).0;
    if n > st.maxPayload {
      SkipFeed(next, payload + rest);
      assert (payload + rest)[..n] == payload;
      KeptFromStart(payload);
    } else if n > 0 {
      PayloadFeed(next, payload + rest);
      assert (payload + rest)[..n] == payload && [] + payload == payload;
    }
  }

  lemma KeptFromStart(payload: Bytes)
    ensures Kept([], payload) ==
            payload[..if |payload| < SKIPPED_PREFIX_SIZE then |payload| else SKIPPED_PREFIX_SIZE]
  {
  }

  function ReceivedAll(payloads: seq<Bytes>, maxPayload: nat): seq<Frame> {
    if payloads == [] then [] else [Received(payloads[0], maxPayload)] + ReceivedAll(payloads[1..], maxPayload)
  }

  predicate Sized(payloads: seq<Bytes>) {
    forall i :: 0 <= i < |payloads| ==> |payloads[i]| <= SIZE_MAX
  }

  /** Whatever is written reads back in order, every frame at its own boundary. */
  lemma {:induction false} RoundTrip(st: State, payloads: seq<Bytes>)
    requires InStep(st) && Sized(payloads)
    ensures var o := Run(st, Encode(payloads));
            && o.frames == ReceivedAll(payloads, st.maxPayload)
            && o.consumed == |Encode(payloads)| && InStep(o.state)
    decreases |payloads|
  {
    hide Feed, StepByte, EncodeFrame, Run, Received;
    if payloads == [] {
      RunNothing(st);
    } else {
      var first, rest := EncodeFrame(payloads[0]), Encode(payloads[1..]);
      FrameReadsBack(st, payloads[0], rest);
      RunByFeed(st, first + rest);
      assert (first + rest)[|first|..] == rest;
      ReceivedIsNotMalformed(payloads[0], st.maxPayload);
      RoundTrip(Feed(st, first + rest).state, payloads[1..]);
    }
  }

  lemma ReceivedIsNotMalformed(payload: Bytes, maxPayload: nat)
    ensures !Received(payload, maxPayload).Malformed?
  {
  }

  /** The same when the bytes arrive in any chunks. */
  lemma RoundTripInChunks(st: State, payloads: seq<Bytes>, chunks: seq<Bytes>)
    requires InStep(st) && Sized(payloads) && Flatten(chunks) == Encode(payloads)
    ensures var o := RunChunks(st, chunks);
            && o.frames == ReceivedAll(payloads, st.maxPayload)
            && o.consumed == |Flatten(chunks)| && InStep(o.state)
  {
    hide Run, RunChunks;
    ChunksDoNotMatter(st, chunks);
    RoundTrip(st, payloads);
  }

  // ---------- reading from a blocking pipe ----------

  datatype ReadResult = Got(frame: Frame) | Closed

  /** Chunks as the other end sends them, none empty; no more of them once it has closed. */
  predicate Chunks(cs: seq<Bytes>) { forall i :: 0 <= i < |cs| ==> cs[i] != [] }

  class BlockingPipe {
    const parser: FrameParser
    var unread: Bytes
    var incoming: seq<Bytes>

    ghost predicate Ready()
      reads this, parser
    {
      parser.Ready() && Chunks(incoming)
    }

    /** All bytes still to be read: what an earlier read left over, and what is to come. */
    ghost function Stream(): Bytes
      reads this
    {
      unread + Flatten(incoming)
    }

    constructor (maxPayload: nat, chunks: seq<Bytes>)
      requires Chunks(chunks)
      ensures Ready() && fresh(parser) && parser.Now() == Fresh(maxPayload) && Stream() == Flatten(chunks)
    {
      parser := new FrameParser(maxPayload);
      unread, incoming := [], chunks;
      new;
      assert [] + Flatten(chunks) == Flatten(chunks);
    }

    /** The next frame of the stream, which loses exactly the bytes up to its end. */
    method Read() returns (r: ReadResult)
      requires Ready()
      modifies this, parser
      ensures Ready()
      ensures var fed := Feed(old(parser.Now()), old(Stream()));
              && parser.Now() == fed.state
              && Stream() == old(Stream())[fed.consumed..]
              && r == match fed.frame case Some(frame) => Got(frame) case None => Closed
    {
      hide Feed, StepByte, Reading, Later;
      ghost var start, all := parser.Now(), Stream();
      ReadingStart(start, unread, Flatten(incoming));
      var step := parser.FeedChunk(unread);
      unread := unread[step.consumed..];
      while step.frame.None?
        invariant Ready()
        invariant step.frame.None? ==> unread == []
        invariant Reading(start, all, parser.Now(), step.frame, unread, Flatten(incoming))
        decreases |incoming| + (if step.frame.None? then 1 else 0)
      {
        if incoming == [] {
          ReadingEnd(start, all, parser.Now());
          return Closed;
        }
        var chunk := incoming[0];
        ReadingOn(start, all, parser.Now(), chunk, Flatten(incoming[1..]));
        incoming := incoming[1..];
        step := parser.FeedChunk(chunk);
        unread := chunk[step.consumed..];
      }
      ReadingDone(start, all, parser.Now(), step.frame, unread, Flatten(incoming));
      r := Got(step.frame.value);
    }
  }

  /** Part of the stream `all` has been fed. Without a frame, the parser stands before the
      bytes to come; with one, it stands at its end, and what follows is unread. */
  ghost predicate Reading(start: State, all: Bytes, now: State, frame: Option<Frame>, unread: Bytes, coming: Bytes) {
    && Good(start) && Good(now)
    && var left := |unread + coming|;
    && left <= |all| && all[|all| - left..] == unread + coming
    && (frame.None? ==> !now.phase.Broken? && Feed(start, all) == Later(|all| - left, Feed(now, unread + coming)))
    && (frame.Some? ==> Feed(start, all) == Fed(now, |all| - left, frame))
  }

  lemma ReadingStart(start: State, unread: Bytes, coming: Bytes)
    requires Good(start)
    ensures var fed := Feed(start, unread);
            Reading(start, unread + coming, fed.state, fed.frame, unread[fed.consumed..], coming)
  {
    hide Feed, StepByte;
    FeedSplits(start, unread, coming);
    var fed := Feed(start, unread);
    assert (unread + coming)[fed.consumed..] == unread[fed.consumed..] + coming;
    if fed.frame.None? { assert unread[fed.consumed..] + coming == coming; }
  }

  lemma ReadingOn(start: State, all: Bytes, now: State, chunk: Bytes, rest: Bytes)
    requires Reading(start, all, now, None, [], chunk + rest)
    ensures var fed := Feed(now, chunk);
            Reading(start, all, fed.state, fed.frame, chunk[fed.consumed..], rest)
  {
    hide Feed, StepByte;
    assert [] + (chunk + rest) == chunk + rest;
    FeedSplits(now, chunk, rest);
    var fed := Feed(now, chunk);
    SuffixSplits(all, chunk, rest, fed.consumed);
    if fed.frame.None? { assert chunk[fed.consumed..] + rest == rest; }
  }

  lemma ReadingEnd(start: State, all: Bytes, now: State)
    requires Reading(start, all, now, None, [], [])
    ensures Feed(start, all) == Fed(now, |all|, None) && all[|all|..] == []
  {
    hide Feed, StepByte;
    var none: Bytes := [];
    assert none + none == none;
    FeedNothing(now);
  }

  lemma ReadingDone(start: State, all: Bytes, now: State, frame: Option<Frame>, unread: Bytes, coming: Bytes)
    requires Reading(start, all, now, frame, unread, coming) && frame.Some?
    ensures Feed(start, all).frame == frame && Feed(start, all).state == now
    ensures Feed(start, all).consumed <= |all| && unread + coming == all[Feed(start, all).consumed..]
  {
    hide Feed, StepByte;
  }

  lemma FeedNothing(st: State)
    requires Valid(st) && !st.phase.Broken?
    ensures Feed(st, []) == Fed(st, 0, None)
  {
  }

  lemma SuffixSplits(all: Bytes, chunk: Bytes, rest: Bytes, n: nat)
    requires |chunk + rest| <= |all| && all[|all| - |chunk + rest|..] == chunk + rest && n <= |chunk|
    ensures all[|all| - |rest|..] == rest
    ensures all[|all| - |chunk + rest| + n..] == chunk[n..] + rest
  {
    var at := |all| - |chunk + rest|;
    assert all[at..][|chunk|..] == all[|all| - |rest|..] && (chunk + rest)[|chunk|..] == rest;
    assert all[at..][n..] == all[at + n..] && (chunk + rest)[n..] == chunk[n..] + rest;
  }

  // ---------- reading from a stream that buffers ----------

  /** The stream hands out what it has buffered, and keeps what is not consumed. */
  class StreamReader {
    const parser: FrameParser
    var buffered: seq<Bytes>

    ghost predicate Ready()
      reads this, parser
    {
      parser.Ready() && Chunks(buffered)
    }

    constructor (maxPayload: nat, chunks: seq<Bytes>)
      requires Chunks(chunks)
      ensures Ready() && fresh(parser) && parser.Now() == Fresh(maxPayload) && buffered == chunks
    {
      parser := new FrameParser(maxPayload);
      buffered := chunks;
    }

    method Consume(n: nat)
      requires buffered != [] && n <= |buffered[0]| && Chunks(buffered)
      modifies this
      ensures Chunks(buffered)
      ensures Flatten(buffered) == old(buffered[0][n..] + Flatten(buffered[1..]))
      ensures n == |old(buffered[0])| ==> |buffered| < |old(buffered)|
    {
      var rest := buffered[0][n..];
      if rest == [] {
        buffered := buffered[1..];
      } else {
        var tail := buffered[1..];
        buffered := [rest] + tail;
        assert buffered[1..] == tail;
      }
    }

    /** The next frame of what is buffered and to come; a parser that is broken says so
        again at the next bytes. */
    method ReadMessage() returns (r: ReadResult)
      requires Ready()
      modifies this, parser
      ensures Ready()
      ensures var all := old(Flatten(buffered));
              var fed := Feed(old(parser.Now()), all);
              && parser.Now() == fed.state
              && if all == [] || fed.frame.None? then r == Closed && Flatten(buffered) == []
                 else r == Got(fed.frame.value) && Flatten(buffered) == all[fed.consumed..]
    {
      hide Feed, StepByte, Reading, Later;
      ghost var start, all := parser.Now(), Flatten(buffered);
      ghost var none: Bytes := [];
      assert none + all == all;
      if !start.phase.Broken? {
        FeedNothing(start);
        ReadingStart(start, none, all);
      }
      while buffered != []
        invariant Ready()
        invariant if start.phase.Broken? then parser.Now() == start && Flatten(buffered) == all
                  else Reading(start, all, parser.Now(), None, none, Flatten(buffered))
        decreases |buffered|
      {
        ghost var chunk, rest := buffered[0], Flatten(buffered[1..]);
        NotEmpty(buffered);
        if start.phase.Broken? {
          FeedBroken(start, chunk);
          FeedBroken(start, all);
        } else {
          ReadingOn(start, all, parser.Now(), chunk, rest);
        }
        var step := parser.FeedChunk(buffered[0]);
        Consume(step.consumed);
        if step.frame.Some? {
          if !start.phase.Broken? {
            ReadingDone(start, all, parser.Now(), step.frame, chunk[step.consumed..], rest);
            assert all != [] by { FeedNothing(start); }
          }
          return Got(step.frame.value);
        }
        assert chunk[step.consumed..] == none;
        assert none + rest == rest;
      }
      if start.phase.Broken? { FeedBroken(start, all); } else { ReadingEnd(start, all, parser.Now()); }
      r := Closed;
    }
  }

  lemma NotEmpty(cs: seq<Bytes>)
    requires cs != [] && Chunks(cs)
    ensures Flatten(cs) != []
  {
  }

  // ---------- writing in few writes ----------

  /** The frames go out in groups; a group is `n` frames from `first` on. */
  function Total(sizes: seq<nat>, first: nat, last: nat): nat
    requires first <= last <= |sizes|
  {
    if first == last then 0 else Total(sizes, first, last - 1) + sizes[last - 1]
  }

  lemma {:induction false} TotalSplits(sizes: seq<nat>, a: nat, b: nat, c: nat)
    requires a <= b <= c <= |sizes|
    ensures Total(sizes, a, c) == Total(sizes, a, b) + Total(sizes, b, c)
    decreases c - b
  {
    if b < c { TotalSplits(sizes, a, b, c - 1); }
  }

  /** A group that may go out as one write: within the limit, or a single frame. */
  predicate Fits(sizes: seq<nat>, first: nat, last: nat, limit: nat)
    requires last <= |sizes|
  {
    first < last && (last == first + 1 || Total(sizes, first, last) <= limit)
  }

  /** `ends` cuts the frames from `first` on into groups that may go out. */
  predicate Grouping(sizes: seq<nat>, first: nat, ends: seq<nat>, limit: nat)
    decreases |ends|
  {
    if ends == [] then first == |sizes|
    else ends[0] <= |sizes| && Fits(sizes, first, ends[0], limit) && Grouping(sizes, ends[0], ends[1..], limit)
  }

  /** Groups that cannot take one frame more, each of them. */
  predicate Greedy(sizes: seq<nat>, first: nat, ends: seq<nat>, limit: nat)
    decreases |ends|
  {
    && Grouping(sizes, first, ends, limit)
    && (ends != [] ==>
          && (ends[0] == |sizes| || !Fits(sizes, first, ends[0] + 1, limit))
          && Greedy(sizes, ends[0], ends[1..], limit))
  }

  /** No grouping, even of more frames, takes fewer writes than the greedy one. */
  lemma {:induction false} GreedyIsLeast(sizes: seq<nat>, i: nat, ends: seq<nat>, j: nat, other: seq<nat>, limit: nat)
    requires j <= i <= |sizes| && Greedy(sizes, i, ends, limit) && Grouping(sizes, j, other, limit)
    ensures |ends| <= |other|
    decreases |other|
  {
    hide Total;
    if ends != [] {
      assert other != [];
      var e, f := ends[0], other[0];
      if f <= e {
        GreedyIsLeast(sizes, e, ends[1..], f, other[1..], limit);
      } else {
        InnerFits(sizes, i, e + 1, j, f, limit);
      }
    }
  }

  lemma InnerFits(sizes: seq<nat>, i: nat, e: nat, j: nat, f: nat, limit: nat)
    requires j <= i < e <= f <= |sizes| && Fits(sizes, j, f, limit)
    ensures Fits(sizes, i, e, limit)
  {
    if e != i + 1 {
      TotalSplits(sizes, j, i, f);
      TotalSplits(sizes, i, e, f);
    }
  }

  function Sizes(payloads: seq<Bytes>): (r: seq<nat>)
    ensures |r| == |payloads|
  {
    seq(|payloads|, i requires 0 <= i < |payloads| => |EncodeFrame(payloads[i])|)
  }

  lemma {:induction false} GroupingExtends(sizes: seq<nat>, first: nat, ends: seq<nat>, mid: nat, last: nat, limit: nat)
    requires first <= mid < last <= |sizes|
    requires GreedyUpTo(sizes, first, ends, mid, limit) && Fits(sizes, mid, last, limit)
    requires last == |sizes| || !Fits(sizes, mid, last + 1, limit)
    ensures GreedyUpTo(sizes, first, ends + [last], last, limit)
    decreases |ends|
  {
    hide Total, Fits;
    var all := ends + [last];
    if ends != [] {
      assert all[1..] == ends[1..] + [last];
      GroupingExtends(sizes, ends[0], ends[1..], mid, last, limit);
    } else {
      assert all[1..] == [];
    }
  }

  /** The groups so far lead from `first` to `mid`. */
  predicate GreedyUpTo(sizes: seq<nat>, first: nat, ends: seq<nat>, mid: nat, limit: nat)
    decreases |ends|
  {
    if ends == [] then first == mid
    else
      && first < ends[0] <= |sizes| && ends[0] <= mid && Fits(sizes, first, ends[0], limit)
      && (ends[0] == |sizes| || !Fits(sizes, first, ends[0] + 1, limit))
      && GreedyUpTo(sizes, ends[0], ends[1..], mid, limit)
  }

  lemma {:induction false} GreedyWhole(sizes: seq<nat>, first: nat, ends: seq<nat>, limit: nat)
    requires GreedyUpTo(sizes, first, ends, |sizes|, limit)
    ensures Greedy(sizes, first, ends, limit)
    decreases |ends|
  {
    hide Total, Fits;
    if ends != [] { GreedyWhole(sizes, ends[0], ends[1..], limit); }
  }

  lemma {:induction false} EncodeConcat(a: seq<Bytes>, b: seq<Bytes>)
    ensures Encode(a + b) == Encode(a) + Encode(b)
  {
    hide EncodeFrame;
    if a == [] {
      assert a + b == b;
    } else {
      assert (a + b)[1..] == a[1..] + b;
      EncodeConcat(a[1..], b);
    }
  }

  lemma {:induction false} FlattenAppends(cs: seq<Bytes>, c: Bytes)
    ensures Flatten(cs + [c]) == Flatten(cs) + c
  {
    if cs == [] {
      assert cs + [c] == [c] && [c][1..] == [];
    } else {
      assert (cs + [c])[1..] == cs[1..] + [c];
      FlattenAppends(cs[1..], c);
    }
  }

  /** Write `k` is the frames between two ends. */
  predicate IsGroup(payloads: seq<Bytes>, writes: seq<Bytes>, ends: seq<nat>, k: nat) {
    && k < |ends| == |writes|
    && var from := if k == 0 then 0 else ends[k - 1];
    from <= ends[k] <= |payloads| && writes[k] == Encode(payloads[from..ends[k]])
  }

  lemma GroupsAppend(payloads: seq<Bytes>, writes: seq<Bytes>, ends: seq<nat>, write: Bytes, next: nat)
    requires |writes| == |ends| && forall k :: 0 <= k < |ends| ==> IsGroup(payloads, writes, ends, k)
    requires var from := if ends == [] then 0 else ends[|ends| - 1];
             from <= next <= |payloads| && write == Encode(payloads[from..next])
    ensures forall k :: 0 <= k <= |ends| ==> IsGroup(payloads, writes + [write], ends + [next], k)
  {
    hide Encode;
    forall k | 0 <= k < |ends| ensures IsGroup(payloads, writes + [write], ends + [next], k) {
      assert IsGroup(payloads, writes, ends, k);
    }
  }

  /** Where the frames of these writes end. */
  function Covered(ends: seq<nat>): nat { if ends == [] then 0 else ends[|ends| - 1] }

  /** Sends exactly the frames' bytes in order, each write within the limit unless it is a
      single frame, in as few writes as any such grouping allows. `fails` tells which of the
      writes fail: the first that does is the last there is. */
  method WriteFrames(payloads: seq<Bytes>, limit: nat, fails: nat -> bool)
    returns (ok: bool, writes: seq<Bytes>, ends: seq<nat>)
    ensures |writes| == |ends| && forall k :: 0 <= k < |ends| ==> IsGroup(payloads, writes, ends, k)
    ensures GreedyUpTo(Sizes(payloads), 0, ends, Covered(ends), limit) && Covered(ends) <= |payloads|
    ensures Flatten(writes) == Encode(payloads[..Covered(ends)])
    ensures forall k :: 0 <= k < |writes| - 1 ==> !fails(k)
    ensures ok <==> writes == [] || !fails(|writes| - 1)
    ensures ok ==>
              && Flatten(writes) == Encode(payloads) && Grouping(Sizes(payloads), 0, ends, limit)
              && forall other :: Grouping(Sizes(payloads), 0, other, limit) ==> |writes| <= |other|
  {
    hide Grouping, Greedy, GreedyUpTo, EncodeFrame, Encode, Fits, Flatten, IsGroup;
    var sizes := Sizes(payloads);
    writes, ends := [], [];
    var first: nat := 0;
    WriteStart(payloads, sizes, limit);
    while first < |payloads|
      invariant first == Covered(ends) <= |payloads| && |writes| == |ends|
      invariant GreedyUpTo(sizes, 0, ends, first, limit)
      invariant Flatten(writes) == Encode(payloads[..first])
      invariant forall k :: 0 <= k < |ends| ==> IsGroup(payloads, writes, ends, k)
      invariant forall k :: 0 <= k < |writes| ==> !fails(k)
      decreases |payloads| - first
    {
      var next, write := NextGroup(payloads, sizes, first, limit);
      GroupingExtends(sizes, 0, ends, first, next, limit);
      FlattenAppends(writes, write);
      EncodeConcat(payloads[..first], payloads[first..next]);
      assert payloads[..first] + payloads[first..next] == payloads[..next];
      GroupsAppend(payloads, writes, ends, write, next);
      writes := writes + [write];
      ends := ends + [next];
      first := next;
      if fails(|writes| - 1) {
        return false, writes, ends;
      }
    }
    ok := true;
    assert payloads[..first] == payloads;
    GreedyWhole(sizes, 0, ends, limit);
    GreedyGroups(sizes, ends, limit);
    forall other | Grouping(sizes, 0, other, limit) ensures |writes| <= |other| {
      GreedyIsLeast(sizes, 0, ends, 0, other, limit);
    }
  }

  lemma GreedyGroups(sizes: seq<nat>, ends: seq<nat>, limit: nat)
    requires Greedy(sizes, 0, ends, limit)
    ensures Grouping(sizes, 0, ends, limit)
  {
  }

  lemma WriteStart(payloads: seq<Bytes>, sizes: seq<nat>, limit: nat)
    ensures GreedyUpTo(sizes, 0, [], 0, limit) && Flatten([]) == Encode(payloads[..0])
  {
    assert payloads[..0] == [];
  }

  /** The inner loop: frames from `first` on, as long as they fit together. */
  method NextGroup(payloads: seq<Bytes>, sizes: seq<nat>, first: nat, limit: nat) returns (next: nat, write: Bytes)
    requires first < |payloads| && sizes == Sizes(payloads)
    ensures first < next <= |payloads| && Fits(sizes, first, next, limit)
    ensures next == |sizes| || !Fits(sizes, first, next + 1, limit)
    ensures write == Encode(payloads[first..next])
  {
    hide EncodeFrame;
    write := [];
    var size: nat := 0;
    next := first;
    assert payloads[first..first] == [];
    while next < |payloads|
      invariant first <= next <= |payloads|
      invariant size == Total(sizes, first, next)
      invariant next > first ==> Fits(sizes, first, next, limit)
      invariant write == Encode(payloads[first..next])
    {
      var frame := |EncodeFrame(payloads[next])|;
      assert sizes[next] == frame;
      assert Total(sizes, first, next + 1) == size + frame;
      if next > first && size + frame > limit {
        break;
      }
      EncodeConcat(payloads[first..next], [payloads[next]]);
      assert payloads[first..next + 1] == payloads[first..next] + [payloads[next]];
      assert Encode([payloads[next]]) == EncodeFrame(payloads[next]) + Encode([]);
      write := write + EncodeFrame(payloads[next]);
      size := size + frame;
      next := next + 1;
    }
  }
}
