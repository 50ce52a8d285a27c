/** The frame parser: it is handed a byte stream in pieces of any size, and takes each
    piece a header, payload or skip at a time. */
module Framing {
  import opened FramingSpec

  // ---------- the end of the header ----------

  /** The header ends with `n` more bytes, and not before. */
  predicate QuietUpTo(header: Bytes, next: Bytes, n: nat)
    requires n <= |next|
  {
    forall k :: 1 <= k <= n ==> !EndsBlank(header + next[..k])
  }

  predicate BlankAt(s: Bytes, i: nat) { i + 4 <= |s| && s[i..i + 4] == BLANK_LINE }

  function FindBlank(s: Bytes, from: nat): (at: int)
    ensures at == -1 || (from <= at && BlankAt(s, at))
    ensures forall i: nat :: from <= i && (at == -1 || i < at) ==> !BlankAt(s, i)
    decreases |s| - from
  {
    if from + 4 > |s| then -1
    else if BlankAt(s, from) then from
    else FindBlank(s, from + 1)
  }

  predicate EndsWith(s: Bytes, t: Bytes) { |t| <= |s| && s[|s| - |t|..] == t }

  /** `before` bytes of a blank line end the header so far, and the rest of it start `next`. */
  predicate Straddles(header: Bytes, next: Bytes, before: nat)
    requires before <= 4
  {
    EndsWith(header, BLANK_LINE[..before]) && BLANK_LINE[before..] <= next
  }

  lemma StraddleEnds(header: Bytes, next: Bytes, before: nat)
    requires 1 <= before <= 3
    ensures Straddles(header, next, before) <==>
            4 - before <= |next| && EndsBlank(header + next[..4 - before]) && before <= |header|
  {
    var n := 4 - before;
    if n <= |next| && before <= |header| {
      var t := header + next[..n];
      assert t[|t| - 4..] == header[|header| - before..] + next[..n];
      assert BLANK_LINE == BLANK_LINE[..before] + BLANK_LINE[before..];
      if EndsBlank(t) {
        assert t[|t| - 4..][..before] == header[|header| - before..];
        assert t[|t| - 4..][before..] == next[..n];
      }
    }
  }

  lemma BlankInside(header: Bytes, next: Bytes, n: nat)
    requires 4 <= n <= |next|
    ensures EndsBlank(header + next[..n]) <==> BlankAt(next, n - 4)
  {
    var t := header + next[..n];
    assert t[|t| - 4..] == next[n - 4..n];
  }

  method HeaderEnd(header: Bytes, next: Bytes) returns (r: Option<nat>)
    ensures r.Some? ==>
              1 <= r.value <= |next| && EndsBlank(header + next[..r.value]) && QuietUpTo(header, next, r.value - 1)
    ensures r.None? ==> QuietUpTo(header, next, |next|)
  {
    hide EndsBlank, FindBlank, Straddles;
    var before: nat := if |header| < 3 then |header| else 3;
    forall k | 1 <= k < 4 - before && k <= |next| ensures !EndsBlank(header + next[..k]) {
      TooShort(header + next[..k]);
    }
    while before > 0
      invariant 0 <= before <= 3 && before <= |header|
      invariant forall k :: 1 <= k < 4 - before && k <= |next| ==> !EndsBlank(header + next[..k])
    {
      StraddleEnds(header, next, before);
      if Straddles(header, next, before) {
        return Some(4 - before);
      }
      before := before - 1;
    }
    var at := FindBlank(next, 0);
    forall k | 4 <= k <= |next| && (at == -1 || k < at + 4) ensures !EndsBlank(header + next[..k]) {
      BlankInside(header, next, k);
      assert !BlankAt(next, k - 4);
    }
    if at != -1 {
      BlankInside(header, next, at + 4);
      return Some(at + 4);
    }
    r := None;
  }

  lemma TooShort(s: Bytes)
    requires |s| < 4
    ensures !EndsBlank(s)
  {
  }

  /** The loop over the header's lines. */
  method ReadContentLength(block: Bytes) returns (r: Length)
    requires block == [] || EndsLine(block)
    ensures r == ContentLength(block)
  {
    hide LineLength;
    var header := block;
    while header != []
      invariant header == [] || EndsLine(header)
      invariant ContentLength(block) == ContentLength(header)
      decreases |header|
    {
      var end := LineEnd(header);
      var line := header[..end];
      header := header[end + 2..];
      var length := LineLength(line);
      if length.Some? {
        return length.value;
      }
    }
    r := Unknown(MissingLength);
  }

  // ---------- many bytes at once ----------

  lemma QuietByte(st: State, input: Bytes)
    requires Valid(st) && st.phase.InHeader? && input != [] && |st.header| < MAX_HEADER_SIZE
    requires !EndsBlank(st.header + [input[0]])
    ensures Feed(st, input) == Later(1, Feed(st.(header := st.header + [input[0]]), input[1..]))
  {
    hide EndsBlank, ContentLength;
  }

  lemma LastHeaderByte(st: State, input: Bytes)
    requires Valid(st) && st.phase.InHeader? && input != []
    ensures |st.header| == MAX_HEADER_SIZE ==>
              Feed(st, input) ==
              Fed(Break(st, st.header + [input[0]], HeaderTooLong), 1, Some(Malformed(HeaderTooLong)))
    ensures |st.header| < MAX_HEADER_SIZE && EndsBlank(st.header + [input[0]]) ==>
              var (next, frame) := AfterHeader(st, st.header + [input[0]]);
              Feed(st, input) == if frame.Some? then Fed(next, 1, frame) else Later(1, Feed(next, input[1..]))
  {
    hide EndsBlank, ContentLength;
  }

  lemma {:induction false} QuietHeader(st: State, w: Bytes, rest: Bytes)
    requires Valid(st) && st.phase.InHeader? && |st.header| + |w| <= MAX_HEADER_SIZE
    requires QuietUpTo(st.header, w, |w|)
    ensures Feed(st, w + rest) == Later(|w|, Feed(st.(header := st.header + w), rest))
    decreases |w|
  {
    hide EndsBlank, Feed, StepByte;
    if w == [] {
      assert w + rest == rest && st.header + w == st.header;
    } else {
      assert (w + rest)[0] == w[0] && (w + rest)[1..] == w[1..] + rest;
      assert w[..1] == [w[0]];
      assert !EndsBlank(st.header + w[..1]);
      var next := st.(header := st.header + [w[0]]);
      QuietByte(st, w + rest);
      forall k | 1 <= k <= |w| - 1 ensures !EndsBlank(next.header + w[1..][..k]) {
        assert next.header + w[1..][..k] == st.header + w[..k + 1];
      }
      QuietHeader(next, w[1..], rest);
      assert next.header + w[1..] == st.header + w;
    }
  }

  /** The header's last byte: too long, or the blank line. */
  lemma HeaderByte(st: State, w: Bytes, end: nat)
    requires Valid(st) && st.phase.InHeader? && 1 <= end <= |w| && |st.header| + end <= MAX_HEADER_SIZE + 1
    requires QuietUpTo(st.header, w, end - 1)
    ensures |st.header| + end > MAX_HEADER_SIZE ==>
              Feed(st, w) == Fed(Break(st, st.header + w[..end], HeaderTooLong), end, Some(Malformed(HeaderTooLong)))
    ensures |st.header| + end <= MAX_HEADER_SIZE && EndsBlank(st.header + w[..end]) ==>
              var (next, frame) := AfterHeader(st, st.header + w[..end]);
              Feed(st, w) ==
              if frame.Some? then Fed(next, end, frame) else Later(end, Feed(next, w[end..]))
  {
    hide EndsBlank, AfterHeader, Feed, StepByte;
    var head, tail := w[..end - 1], w[end - 1..];
    assert w == head + tail;
    forall k | 1 <= k <= end - 1 ensures !EndsBlank(st.header + head[..k]) {
      assert head[..k] == w[..k];
    }
    QuietHeader(st, head, tail);
    var at := st.(header := st.header + head);
    assert at.header + [tail[0]] == st.header + w[..end];
    assert tail[1..] == w[end..];
    LastHeaderByte(at, tail);
    AfterHeaderIgnores(st, at.header, st.header + w[..end]);
  }

  lemma AfterHeaderIgnores(st: State, old_: Bytes, header: Bytes)
    ensures EndsBlank(header) ==> AfterHeader(st.(header := old_), header) == AfterHeader(st, header)
  {
  }

  lemma {:induction false} PayloadFeed(st: State, input: Bytes)
    requires Valid(st) && st.phase.InPayload?
    ensures |input| < st.remaining ==>
              Feed(st, input) ==
              Fed(st.(payload := st.payload + input, remaining := st.remaining - |input|), |input|, None)
    ensures |input| >= st.remaining ==>
              Feed(st, input) == Fed(st.(phase := InHeader, payload := [], remaining := 0), st.remaining,
                                     Some(Message(st.payload + input[..st.remaining])))
    decreases |input|
  {
    if input == [] {
      assert st.payload + input == st.payload;
    } else if st.remaining == 1 {
      assert input[..1] == [input[0]];
    } else {
      var next := st.(payload := st.payload + [input[0]], remaining := st.remaining - 1);
      PayloadFeed(next, input[1..]);
      assert next.payload + input[1..] == st.payload + input;
      if |input| >= st.remaining {
        assert next.payload + input[1..][..st.remaining - 1] == st.payload + input[..st.remaining];
      }
    }
  }

  function Kept(prefix: Bytes, input: Bytes): (r: Bytes)
    requires |prefix| <= SKIPPED_PREFIX_SIZE
    ensures |r| <= SKIPPED_PREFIX_SIZE
  {
    var room := SKIPPED_PREFIX_SIZE - |prefix|;
    prefix + input[..if |input| < room then |input| else room]
  }

  lemma KeptOneByOne(prefix: Bytes, input: Bytes)
    requires |prefix| <= SKIPPED_PREFIX_SIZE && input != []
    ensures var next := if |prefix| < SKIPPED_PREFIX_SIZE then prefix + [input[0]] else prefix;
            Kept(prefix, input) == Kept(next, input[1..])
  {
    if |prefix| < SKIPPED_PREFIX_SIZE {
      var room := SKIPPED_PREFIX_SIZE - |prefix|;
      var n := if |input| < room then |input| else room;
      assert prefix + [input[0]] + input[1..][..n - 1] == prefix + input[..n];
    }
  }

  lemma {:induction false} SkipFeed(st: State, input: Bytes)
    requires Valid(st) && st.phase.InSkip?
    ensures |input| < st.remaining ==>
              Feed(st, input) ==
              Fed(st.(prefix := Kept(st.prefix, input), remaining := st.remaining - |input|), |input|, None)
    ensures |input| >= st.remaining ==>
              Feed(st, input) == Fed(st.(phase := InHeader, prefix := [], remaining := 0), st.remaining,
                                     Some(Oversized(st.skippedSize, Kept(st.prefix, input[..st.remaining]))))
    decreases |input|
  {
    hide Kept;
    if input == [] {
      KeptNothing(st.prefix);
    } else {
      var prefix := if |st.prefix| < SKIPPED_PREFIX_SIZE then st.prefix + [input[0]] else st.prefix;
      KeptOneByOne(st.prefix, input);
      KeptOneByOne(st.prefix, input[..if st.remaining <= |input| then st.remaining else |input|]);
      if st.remaining == 1 {
        assert input[..1][1..] == [];
        KeptNothing(prefix);
      } else {
        var next := st.(prefix := prefix, remaining := st.remaining - 1);
        SkipFeed(next, input[1..]);
        if |input| >= st.remaining { assert input[..st.remaining][1..] == input[1..][..st.remaining - 1]; }
      }
    }
  }

  lemma KeptNothing(prefix: Bytes)
    requires |prefix| <= SKIPPED_PREFIX_SIZE
    ensures Kept(prefix, []) == prefix
  {
    assert prefix + [] == prefix;
  }

  // ---------- the parser ----------

  datatype Step = Step(consumed: nat, frame: Option<Frame>)

  class FrameParser {
    const maxPayload: nat
    var phase: Phase
    var header: Bytes
    var payload: Bytes
    var prefix: Bytes
    var failure: Reason
    var remaining: nat
    var skippedSize: nat

    ghost function Now(): State
      reads this
    {
      State(maxPayload, phase, header, payload, prefix, failure, remaining, skippedSize)
    }

    ghost predicate Ready()
      reads this
    {
      Good(Now())
    }

    constructor (max: nat)
      ensures Now() == Fresh(max) && Ready()
    {
      maxPayload := max;
      phase, header, payload, prefix, failure := InHeader, [], [], [], MissingLength;
      remaining, skippedSize := 0, 0;
    }

    /** The header phase. Without `stop`, the header has ended and the payload follows,
        which may be of no bytes. */
    method TakeHeader(input: Bytes) returns (taken: nat, stop: bool, frame: Option<Frame>)
      requires Ready() && phase.InHeader?
      modifies this
      ensures taken <= |input|
      ensures stop ==> Ready() && Fed(Now(), taken, frame) == Feed(old(Now()), input)
      ensures !stop ==> phase.InPayload? || phase.InSkip?
      ensures !stop && phase.InPayload? && remaining == 0 ==>
                payload == [] && Valid(Now().(phase := InHeader)) &&
                Feed(old(Now()), input) == Fed(Now().(phase := InHeader), taken, Some(Message([])))
      ensures !stop && remaining > 0 ==> Ready() && Feed(old(Now()), input) == Later(taken, Feed(Now(), input[taken..]))
      ensures !stop && phase.InSkip? ==> remaining > 0
    {
      hide Feed, StepByte, EndsBlank, QuietUpTo, AfterHeader, ContentLength;
      var room := MAX_HEADER_SIZE + 1 - |header|;
      var window := input[..if |input| < room then |input| else room];
      var end := HeaderEnd(header, window);
      QuietPrefix(header, window, input, if end.None? then |window| else end.value - 1);
      if end.None? {
        HeaderWindow(Now(), window, input);
        header := header + window;
        taken := |window|;
        if |header| > MAX_HEADER_SIZE {
          phase, failure := Broken, HeaderTooLong;
          return taken, true, Some(Malformed(failure));
        }
        return taken, true, None;
      }
      taken := end.value;
      assert window[..taken] == input[..taken];
      HeaderByte(Now(), input, taken);
      ghost var at := Now();
      header := header + window[..taken];
      if |header| > MAX_HEADER_SIZE {
        phase, failure := Broken, HeaderTooLong;
        return taken, true, Some(Malformed(failure));
      }
      EndsBlankEndsLine(header);
      var length := ReadContentLength(header);
      AfterHeaderIs(at, header, length);
      if length.Unknown? {
        phase, failure := Broken, length.reason;
        return taken, true, Some(Malformed(failure));
      }
      header, payload, prefix, remaining := [], [], [], length.size;
      if length.size > maxPayload {
        phase, skippedSize := InSkip, length.size;
      } else {
        phase := InPayload;
      }
      stop, frame := false, None;
    }

    method TakePayload(input: Bytes) returns (taken: nat, frame: Option<Frame>)
      requires Ready() && phase.InPayload?
      modifies this
      ensures Ready() && Fed(Now(), taken, frame) == Feed(old(Now()), input)
    {
      hide Feed, StepByte;
      PayloadFeed(Now(), input);
      taken := if remaining < |input| then remaining else |input|;
      assert taken == |input| ==> input[..taken] == input;
      payload := payload + input[..taken];
      remaining := remaining - taken;
      if remaining != 0 {
        return taken, None;
      }
      phase := InHeader;
      frame := Some(Message(payload));
      payload := [];
    }

    method TakeSkipped(input: Bytes) returns (taken: nat, frame: Option<Frame>)
      requires Ready() && phase.InSkip?
      modifies this
      ensures Ready() && Fed(Now(), taken, frame) == Feed(old(Now()), input)
    {
      hide Feed, StepByte, Kept;
      SkipFeed(Now(), input);
      taken := if remaining < |input| then remaining else |input|;
      var keep := if taken < SKIPPED_PREFIX_SIZE - |prefix| then taken else SKIPPED_PREFIX_SIZE - |prefix|;
      KeptIs(prefix, input[..taken], keep);
      assert taken == |input| ==> input[..taken] == input;
      assert input[..taken][..keep] == input[..keep];
      prefix := prefix + input[..keep];
      remaining := remaining - taken;
      if remaining != 0 {
        return taken, None;
      }
      phase := InHeader;
      frame := Some(Oversized(skippedSize, prefix));
      prefix := [];
    }

    /** The parser's loop over a whole chunk, equal to the machine that reads one byte at a
        time: it stops with the first frame or error, or at the chunk's end. */
    method FeedChunk(input: Bytes) returns (step: Step)
      requires Ready()
      modifies this
      ensures Ready()
      ensures Fed(Now(), step.consumed, step.frame) == Feed(old(Now()), input)
    {
      hide Feed, StepByte;
      var consumed: nat := 0;
      assert input[0..] == input;
      while true
        invariant consumed <= |input|
        invariant Ready() && Feed(old(Now()), input) == Later(consumed, Feed(Now(), input[consumed..]))
        decreases if phase.InHeader? then 1 else 0
      {
        match phase {
          case Broken =>
            FeedBroken(Now(), input[consumed..]);
            return Step(consumed, Some(Malformed(failure)));
          case InHeader =>
            ghost var rest := input[consumed..];
            var taken, stop, frame := TakeHeader(input[consumed..]);
            consumed := consumed + taken;
            assert rest[taken..] == input[consumed..];
            if stop {
              return Step(consumed, frame);
            }
            if phase.InPayload? && remaining == 0 {
              // A payload of no bytes ends at once.
              phase := InHeader;
              return Step(consumed, Some(Message(payload)));
            }
          case InPayload =>
            var taken, frame := TakePayload(input[consumed..]);
            return Step(consumed + taken, frame);
          case InSkip =>
            var taken, frame := TakeSkipped(input[consumed..]);
            return Step(consumed + taken, frame);
        }
      }
    }
  }

  lemma KeptIs(prefix: Bytes, input: Bytes, keep: nat)
    requires |prefix| <= SKIPPED_PREFIX_SIZE
    requires keep == if |input| < SKIPPED_PREFIX_SIZE - |prefix| then |input| else SKIPPED_PREFIX_SIZE - |prefix|
    ensures Kept(prefix, input) == prefix + input[..keep]
  {
  }

  lemma FeedBroken(st: State, input: Bytes)
    requires st.phase.Broken?
    ensures Feed(st, input) == Fed(st, 0, Some(Malformed(st.failure)))
  {
  }

  lemma QuietPrefix(header: Bytes, window: Bytes, rest: Bytes, n: nat)
    requires window <= rest && n <= |window| && QuietUpTo(header, window, n)
    ensures QuietUpTo(header, rest, n)
  {
    forall k | 1 <= k <= n ensures !EndsBlank(header + rest[..k]) {
      assert rest[..k] == window[..k];
    }
  }

  /** A window without a blank line: all that was left, or one byte too many. */
  lemma HeaderWindow(st: State, window: Bytes, rest: Bytes)
    requires Valid(st) && st.phase.InHeader? && window <= rest && QuietUpTo(st.header, window, |window|)
    requires |st.header| + |window| <= MAX_HEADER_SIZE + 1
    requires window == rest || |st.header| + |window| == MAX_HEADER_SIZE + 1
    ensures |st.header| + |window| <= MAX_HEADER_SIZE ==>
              Feed(st, rest) == Fed(st.(header := st.header + window), |window|, None)
    ensures |st.header| + |window| > MAX_HEADER_SIZE ==>
              Feed(st, rest) ==
              Fed(Break(st, st.header + window, HeaderTooLong), |window|, Some(Malformed(HeaderTooLong)))
  {
    hide EndsBlank, StepByte;
    QuietPrefix(st.header, window, rest, |window|);
    assert rest[..|window|] == window;
    if |st.header| + |window| <= MAX_HEADER_SIZE {
      assert rest == window + [];
      QuietHeader(st, window, []);
    } else {
      assert |window| >= 1;
      HeaderByte(st, rest, |window|);
    }
  }

  lemma AfterHeaderIs(st: State, header: Bytes, length: Length)
    requires EndsBlank(header) && EndsLine(header) && length == ContentLength(header)
    ensures AfterHeader(st, header) ==
            if length.Unknown? then (Break(st, header, length.reason), Some(Malformed(length.reason)))
            else
              var next := st.(header := [], payload := [], prefix := [], remaining := length.size);
              if length.size > st.maxPayload then (next.(phase := InSkip, skippedSize := length.size), None)
              else if length.size == 0 then (next.(phase := InHeader), Some(Message([])))
              else (next.(phase := InPayload), None)
  {
  }
}
