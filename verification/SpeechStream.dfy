/** Streaming synthesised speech: sample encoding, chunks drained at window boundaries, and the busy lock. */
module SpeechStream {
  import opened Bytes
  import opened Options
  import opened Sequences

  // ---------- Samples ----------

  function Clamped(v: real): real {
    if v > 1.0 then 1.0 else if v < -1.0 then -1.0 else v
  }

  /** Conversion to an integer drops the fraction, towards zero. */
  function Truncated(v: real): int {
    if v >= 0.0 then v.Floor else -(-v).Floor
  }

  function Sample(v: real): int {
    Truncated(Clamped(v) * 32767.0)
  }

  /** The two bytes of a 16-bit sample, low byte first. */
  function SampleBytes(v: real): seq<byte> {
    [Sample(v) % 256, (Sample(v) / 256) % 256]
  }

  /** Reads a 16-bit two's complement number, low byte first. */
  function ReadS16(low: byte, high: byte): int {
    var u := low + 256 * high;
    if u >= 32768 then u - 65536 else u
  }

  function Encoded(pcm: seq<real>): (bytes: seq<byte>)
    ensures |bytes| == 2 * |pcm|
  {
    if pcm == [] then [] else Encoded(pcm[..|pcm| - 1]) + SampleBytes(pcm[|pcm| - 1])
  }

  /** The whole number next to x on the side of zero. */
  ghost predicate IsToZero(x: real, n: int) {
    if 0.0 <= x then n as real <= x < n as real + 1.0 else n as real - 1.0 < x <= n as real
  }

  lemma SampleIsClose(v: real)
    ensures -32767 <= Sample(v) <= 32767
    ensures IsToZero(Clamped(v) * 32767.0, Sample(v))
    ensures Clamped(v) == if 1.0 <= v then 1.0 else if v <= -1.0 then -1.0 else v
  {
    assert -32767.0 <= Clamped(v) * 32767.0 <= 32767.0;
  }

  lemma ReadsBack(s: int)
    requires -32768 <= s < 32768
    ensures ReadS16(s % 256, (s / 256) % 256) == s
  {
    assert s == (s / 256) * 256 + s % 256;
    assert -128 <= s / 256 <= 127;
  }

  /** Every encoded sample reads back as the clamped value at full scale, cut off towards zero. */
  lemma {:induction false} EncodedReadsBack(pcm: seq<real>, i: nat)
    requires i < |pcm|
    ensures var s := ReadS16(Encoded(pcm)[2 * i], Encoded(pcm)[2 * i + 1]);
            && -32767 <= s <= 32767
            && IsToZero((if 1.0 <= pcm[i] then 1.0 else if pcm[i] <= -1.0 then -1.0 else pcm[i]) * 32767.0, s)
    decreases |pcm|
  {
    if i < |pcm| - 1 {
      EncodedReadsBack(pcm[..|pcm| - 1], i);
    } else {
      SampleIsClose(pcm[i]);
      ReadsBack(Sample(pcm[i]));
    }
  }

  lemma {:induction false} EncodedConcat(a: seq<real>, b: seq<real>)
    ensures Encoded(a + b) == Encoded(a) + Encoded(b)
    decreases |b|
  {
    if b == [] {
      assert a + b == a;
    } else {
      EncodedConcat(a, b[..|b| - 1]);
      assert (a + b)[..|a + b| - 1] == a + b[..|b| - 1];
    }
  }

  /** Filling in the next sample's bytes. */
  lemma {:induction false} SampleFilled(start: seq<byte>, pcm: seq<real>, i: nat, out: seq<byte>, low: byte, high: byte)
    requires i < |pcm| && |start| + 2 * i + 2 <= |out|
    requires out[..|start| + 2 * i] == start + Encoded(pcm[..i]) && [low, high] == SampleBytes(pcm[i])
    ensures var k := |start| + 2 * i;
            out[k := low][k + 1 := high][..k + 2] == start + Encoded(pcm[..i + 1])
  {
    var k := |start| + 2 * i;
    assert out[k := low][k + 1 := high][..k + 2] == out[..k] + [low, high];
    assert pcm[..i + 1][..i] == pcm[..i];
    Regroup(start, Encoded(pcm[..i]), [low, high]);
  }

  /** `append_s16`: makes room, then fills in two bytes a sample. */
  method AppendS16(start: seq<byte>, pcm: seq<real>) returns (out: seq<byte>)
    ensures out == start + Encoded(pcm)
  {
    var base := |start|;
    out := start + seq(|pcm| * 2, _ => 0);
    for i := 0 to |pcm|
      invariant |out| == base + |pcm| * 2
      invariant out[..base + 2 * i] == start + Encoded(pcm[..i])
    {
      var v := if pcm[i] < 1.0 then pcm[i] else 1.0;
      v := if v < -1.0 then -1.0 else v;
      var s := Truncated(v * 32767.0);
      SampleFilled(start, pcm, i, out, s % 256, (s / 256) % 256);
      out := out[base + 2 * i := s % 256][base + 2 * i + 1 := (s / 256) % 256];
    }
    assert pcm[..|pcm|] == pcm;
    assert out[..base + 2 * |pcm|] == out;
  }

  // ---------- The pipeline ----------

  /** What one step of the model gives: an error, no further hidden state, or a frame, perhaps with the stop
      flag set beside it. */
  datatype StepResult<F> = Failed | NoHidden | Frame(frame: F, stop: bool)

  /** The decoder works on windows: what it makes of one may depend on those before. */
  datatype Pipeline<F> = Pipeline(windows: seq<seq<F>>, pending: seq<F>)

  /** One generation's surroundings: the model's steps, the decoder and its window, how often the server
      drains (never before the end if 0), the limit, and which reads of the output fail. */
  datatype Setup<!F> = Setup(step: nat -> StepResult<F>, decode: (seq<seq<F>>, seq<F>) -> seq<real>, size: nat,
                            window: nat, maxFrames: nat, outputFails: nat -> bool) {
    predicate Valid() {
      size > 0 && (window == 0 || window == size)
    }
  }

  function Feed<F>(p: Pipeline<F>, frame: F, size: nat): Pipeline<F> {
    if |p.pending| + 1 == size then Pipeline(p.windows + [p.pending + [frame]], [])
    else p.(pending := p.pending + [frame])
  }

  /** Reading the output first decodes what is pending, however little. */
  function Flush<F>(p: Pipeline<F>): Pipeline<F> {
    if p.pending == [] then p else Pipeline(p.windows + [p.pending], [])
  }

  function Fed<F>(frames: seq<F>, size: nat): Pipeline<F> {
    if frames == [] then Pipeline([], []) else Feed(Fed(frames[..|frames| - 1], size), frames[|frames| - 1], size)
  }

  function Pcm<F>(decode: (seq<seq<F>>, seq<F>) -> seq<real>, windows: seq<seq<F>>): seq<real> {
    if windows == [] then []
    else
      var front := windows[..|windows| - 1];
      Pcm(decode, front) + decode(front, windows[|windows| - 1])
  }

  /** The speech of some frames when the output is read once, at the end. */
  function OneShot<F>(s: Setup<F>, frames: seq<F>): seq<real> {
    Pcm(s.decode, Flush(Fed(frames, s.size)).windows)
  }

  function Flatten<F>(windows: seq<seq<F>>): seq<F> {
    if windows == [] then [] else Flatten(windows[..|windows| - 1]) + windows[|windows| - 1]
  }

  lemma FeedCuts<F>(p: Pipeline<F>, frame: F, size: nat)
    requires |p.pending| < size && forall w <- p.windows :: |w| == size
    ensures var after := Feed(p, frame, size);
            && Flatten(after.windows) + after.pending == Flatten(p.windows) + p.pending + [frame]
            && (forall w <- after.windows :: |w| == size)
            && |after.pending| == if |p.pending| + 1 == size then 0 else |p.pending| + 1
  {
    if |p.pending| + 1 == size {
      var last := p.pending + [frame];
      assert (p.windows + [last])[..|p.windows|] == p.windows;
      assert Flatten(p.windows + [last]) == Flatten(p.windows) + last;
    }
  }

  /** The windows cut the frames into full pieces, and the rest is pending. */
  lemma {:induction false} FedCuts<F>(frames: seq<F>, size: nat)
    requires size > 0
    ensures var p := Fed(frames, size);
            && Flatten(p.windows) + p.pending == frames
            && (forall w <- p.windows :: |w| == size)
            && |p.pending| < size
    decreases |frames|
  {
    if frames != [] {
      var front := frames[..|frames| - 1];
      FedCuts(front, size);
      FeedCuts(Fed(front, size), frames[|frames| - 1], size);
      assert frames == front + [frames[|frames| - 1]];
    }
  }

  /** Reading the output once decodes every frame, in windows of the full size but for the last. */
  lemma {:induction false} OneShotHasAll<F>(frames: seq<F>, size: nat)
    requires size > 0
    ensures var windows := Flush(Fed(frames, size)).windows;
            && Flatten(windows) == frames
            && (forall i | 0 <= i < |windows| - 1 :: |windows[i]| == size)
            && (windows != [] ==> 0 < |windows[|windows| - 1]| <= size)
  {
    FedCuts(frames, size);
    var p := Fed(frames, size);
    if p.pending == [] {
      Unsuffixed(Flatten(p.windows));
      assert forall i | 0 <= i < |p.windows| :: p.windows[i] in p.windows;
    } else {
      assert (p.windows + [p.pending])[..|p.windows|] == p.windows;
      assert forall i | 0 <= i < |p.windows| :: p.windows[i] in p.windows;
    }
  }

  /** The speech of some windows is what each is decoded to behind those before it. */
  lemma {:induction false} PcmIsDecoded<F>(decode: (seq<seq<F>>, seq<F>) -> seq<real>, windows: seq<seq<F>>, i: nat)
    requires i < |windows|
    ensures Pcm(decode, windows[..i]) + decode(windows[..i], windows[i]) <= Pcm(decode, windows)
    ensures i + 1 == |windows| ==>
              Pcm(decode, windows[..i]) + decode(windows[..i], windows[i]) == Pcm(decode, windows)
    decreases |windows|
  {
    if i + 1 < |windows| {
      PcmIsDecoded(decode, windows[..|windows| - 1], i);
      assert windows[..|windows| - 1][..i] == windows[..i];
    }
  }

  lemma {:induction false} FedRemainder<F>(frames: seq<F>, size: nat)
    requires size > 0
    ensures |Fed(frames, size).pending| == |frames| % size
    decreases |frames|
  {
    if frames != [] {
      FedRemainder(frames[..|frames| - 1], size);
      NextRemainder(|frames| - 1, size);
    }
  }

  lemma NextRemainder(n: nat, size: nat)
    requires size > 0
    ensures (n + 1) % size == if n % size + 1 == size then 0 else n % size + 1
  {
    var q, r := n / size, n % size;
    assert n == q * size + r;
    if r + 1 == size {
      assert n + 1 == (q + 1) * size;
      Divides(q + 1, 0, size);
    } else {
      Divides(q, r + 1, size);
    }
  }

  lemma Divides(q: nat, r: nat, size: nat)
    requires r < size
    ensures (q * size + r) % size == r
  {
    var m := q * size + r;
    var d := m / size - q;
    assert m == (m / size) * size + m % size;
    assert d * size == (m / size) * size - q * size;
    TimesIsAtLeast(d, size);
  }

  lemma TimesIsAtLeast(d: int, size: nat)
    ensures d >= 1 ==> d * size >= size
    ensures d <= -1 ==> d * size + size <= 0
  {
    if d >= 1 {
      assert (d - 1) * size >= 0;
    } else if d <= -1 {
      assert (-d - 1) * size >= 0;
    }
  }

  // ---------- What a stream should be ----------

  /** How far the model got: an error, a chunk of audio after so many frames, or the end after so many. */
  datatype Stage = Broken | Chunk(frames: nat) | Over(frames: nat)

  /** The first frames all came. */
  ghost predicate Came<F(!new)>(s: Setup<F>, n: nat) {
    n <= s.maxFrames && forall i: nat | i < n :: s.step(i).Frame?
  }

  function Frames<F>(s: Setup<F>, n: nat): (frames: seq<F>)
    ensures (forall i: nat | i < n :: s.step(i).Frame?) ==> |frames| == n
  {
    if n == 0 then [] else Frames(s, n - 1) + if s.step(n - 1).Frame? then [s.step(n - 1).frame] else []
  }

  function Decoded<F>(s: Setup<F>, n: nat): seq<real> {
    Pcm(s.decode, Fed(Frames(s, n), s.size).windows)
  }

  predicate AtBoundary(n: nat, window: nat) {
    window > 0 && n % window == 0
  }

  /** Draining after the n-th frame yields audio: a window just ended and decoded to something. */
  predicate Speaks<F>(s: Setup<F>, n: nat) {
    n > 0 && AtBoundary(n, s.window) && |Decoded(s, n)| > |Decoded(s, n - 1)|
  }

  /** After which frames draining yields audio. */
  function Audible<F>(s: Setup<F>): nat -> bool {
    (n: nat) => Speaks(s, n)
  }

  /** Where `next_chunk` comes to rest from frame n on. */
  function Advance<F>(s: Setup<F>, speaks: nat -> bool, n: nat): (stage: Stage)
    requires n <= s.maxFrames
    ensures !stage.Broken? ==> n <= stage.frames <= s.maxFrames
    ensures stage.Chunk? ==> n < stage.frames
    decreases s.maxFrames - n
  {
    if n == s.maxFrames then Over(n)
    else
      match s.step(n)
      case Failed => Broken
      case NoHidden => Over(n)
      case Frame(_, stop) =>
        if speaks(n + 1) then Chunk(n + 1) else if stop then Over(n + 1) else Advance(s, speaks, n + 1)
  }

  /** `rest` is right about frame n: it says where the next chunk ends from there. */
  ghost predicate RestsAt<F(!new)>(s: Setup<F>, rest: nat -> Stage, n: nat) {
    n <= s.maxFrames ==>
      rest(n) ==
      if n == s.maxFrames then Over(n)
      else
        match s.step(n)
        case Failed => Broken
        case NoHidden => Over(n)
        case Frame(_, stop) => if Speaks(s, n + 1) then Chunk(n + 1) else if stop then Over(n + 1) else rest(n + 1)
  }

  function Rests<F>(s: Setup<F>): nat -> Stage {
    (n: nat) => if n <= s.maxFrames then Advance(s, Audible(s), n) else Broken
  }

  lemma {:induction false} RestsIsRight<F(!new)>(s: Setup<F>, n: nat)
    ensures RestsAt(s, Rests(s), n)
  {
  }

  /** Where a whole stream ends, chunk after chunk. */
  function Streamed<F>(s: Setup<F>, speaks: nat -> bool, n: nat): (stage: Stage)
    requires n <= s.maxFrames
    ensures !stage.Chunk?
    ensures stage.Over? ==> n <= stage.frames <= s.maxFrames
    decreases s.maxFrames - n
  {
    var stage := Advance(s, speaks, n);
    if stage.Chunk? then Streamed(s, speaks, stage.frames) else stage
  }

  /** Where the model itself ends: at an error, at the limit, without a hidden state, or once told to stop. */
  function ModelEnds<F>(s: Setup<F>, n: nat): (stage: Stage)
    requires n <= s.maxFrames
    ensures !stage.Chunk?
    ensures stage.Over? ==> n <= stage.frames <= s.maxFrames
    decreases s.maxFrames - n
  {
    if n == s.maxFrames then Over(n)
    else
      match s.step(n)
      case Failed => Broken
      case NoHidden => Over(n)
      case Frame(_, stop) => if stop then Over(n + 1) else ModelEnds(s, n + 1)
  }

  /** The stop flag came with a frame whose audio was drained there and then, and the model would go on. */
  predicate LosesStop<F>(s: Setup<F>, speaks: nat -> bool, n: nat) {
    0 < n < s.maxFrames && s.step(n - 1).Frame? && s.step(n - 1).stop && speaks(n) && !s.step(n).NoHidden?
  }

  lemma {:induction false} GoesOn<F>(s: Setup<F>, speaks: nat -> bool, n: nat)
    requires n < s.maxFrames && s.step(n).Frame? && !s.step(n).stop
    ensures ModelEnds(s, n) == ModelEnds(s, n + 1)
    ensures Streamed(s, speaks, n) == Streamed(s, speaks, n + 1)
  {
    if speaks(n + 1) {
      assert Advance(s, speaks, n) == Chunk(n + 1);
    } else {
      assert Advance(s, speaks, n) == Advance(s, speaks, n + 1);
    }
  }

  lemma {:induction false} Stops<F>(s: Setup<F>, speaks: nat -> bool, n: nat)
    requires n < s.maxFrames && s.step(n).Frame? && s.step(n).stop
    ensures ModelEnds(s, n) == Over(n + 1)
    ensures LosesStop(s, speaks, n + 1) <==> Streamed(s, speaks, n) != Over(n + 1)
    ensures Streamed(s, speaks, n) != Over(n)
  {
    assert Advance(s, speaks, n) == if speaks(n + 1) then Chunk(n + 1) else Over(n + 1);
    if n + 1 < s.maxFrames {
      assert Advance(s, speaks, n + 1) != Over(n + 1) <==> !s.step(n + 1).NoHidden?;
    }
  }

  lemma {:induction false} StreamEndsFrom<F>(s: Setup<F>, speaks: nat -> bool, n: nat)
    requires n <= s.maxFrames
    ensures ModelEnds(s, n).Broken? ==> Streamed(s, speaks, n).Broken?
    ensures ModelEnds(s, n).Over? ==>
              (Streamed(s, speaks, n) == ModelEnds(s, n)
               <==> n == ModelEnds(s, n).frames || !LosesStop(s, speaks, ModelEnds(s, n).frames))
    ensures Streamed(s, speaks, n).Over? ==>
              ModelEnds(s, n).Over? && ModelEnds(s, n).frames <= Streamed(s, speaks, n).frames
    decreases s.maxFrames - n
  {
    if n < s.maxFrames && s.step(n).Frame? {
      if s.step(n).stop {
        Stops(s, speaks, n);
      } else {
        StreamEndsFrom(s, speaks, n + 1);
        GoesOn(s, speaks, n);
      }
    }
  }

  /** Where a stream ends against where the model ends: an error in the model always breaks the stream, a
      stream never ends early, and it ends where the model does exactly when the model's stop flag is not
      lost at a window boundary. */
  lemma {:induction false} StreamEnds<F>(s: Setup<F>)
    ensures ModelEnds(s, 0).Broken? ==> Streamed(s, Audible(s), 0).Broken?
    ensures ModelEnds(s, 0).Over? ==>
              (Streamed(s, Audible(s), 0) == ModelEnds(s, 0) <==> !LosesStop(s, Audible(s), ModelEnds(s, 0).frames))
    ensures Streamed(s, Audible(s), 0).Over? ==>
              ModelEnds(s, 0).Over? && ModelEnds(s, 0).frames <= Streamed(s, Audible(s), 0).frames
  {
    StreamEndsFrom(s, Audible(s), 0);
  }

  /** A stop flag beside the last frame of an audible window is lost: the speech runs on. */
  lemma StopCanBeLost()
    ensures var s := Setup(i => Frame(i, i == 0), (_, w: seq<int>) => seq(|w|, _ => 0.5), 1, 1, 2, _ => false);
            s.Valid() && ModelEnds(s, 0) == Over(1) && Streamed(s, Audible(s), 0) == Over(2)
  {
    var s := Setup(i => Frame(i, i == 0), (_, w: seq<int>) => seq(|w|, _ => 0.5), 1, 1, 2, _ => false);
    assert Frames(s, 1) == [0];
    assert Fed(Frames(s, 1), 1).windows == [[0]];
    assert Decoded(s, 1) == [0.5];
    assert Speaks(s, 1);
    assert Streamed(s, Audible(s), 0) == Streamed(s, Audible(s), 1);
    assert Advance(s, Audible(s), 1) == if Speaks(s, 2) then Chunk(2) else Over(2);
  }

  // ---------- Prefixes ----------

  lemma {:induction false} PcmExtends<F>(decode: (seq<seq<F>>, seq<F>) -> seq<real>, windows: seq<seq<F>>, last: seq<F>)
    ensures Pcm(decode, windows + [last]) == Pcm(decode, windows) + decode(windows, last)
  {
    assert (windows + [last])[..|windows|] == windows;
  }

  /** The decoded speech only grows, frame by frame, and the one-shot speech continues it. */
  lemma {:induction false} DecodedGrows<F>(s: Setup<F>, m: nat, n: nat)
    requires m <= n && forall i: nat | i < n :: s.step(i).Frame?
    ensures Decoded(s, m) <= Decoded(s, n) <= OneShot(s, Frames(s, n))
    decreases n
  {
    var p := Fed(Frames(s, n), s.size);
    PcmExtends(s.decode, p.windows, p.pending);
    if m < n {
      DecodedGrows(s, m, n - 1);
      var before := Fed(Frames(s, n - 1), s.size);
      assert Frames(s, n)[..n - 1] == Frames(s, n - 1);
      PcmExtends(s.decode, before.windows, before.pending + [s.step(n - 1).frame]);
    }
  }

  /** At the end of a window nothing is pending, so reading the output decodes nothing early. */
  lemma {:induction false} WindowIsWhole<F>(s: Setup<F>, n: nat)
    requires s.Valid() && AtBoundary(n, s.window) && forall i: nat | i < n :: s.step(i).Frame?
    ensures Flush(Fed(Frames(s, n), s.size)) == Fed(Frames(s, n), s.size)
  {
    FedRemainder(Frames(s, n), s.size);
  }

  lemma {:induction false} EncodedPrefix(a: seq<real>, b: seq<real>)
    requires a <= b
    ensures Encoded(b) == Encoded(a) + Encoded(b[|a|..])
  {
    EncodedConcat(a, b[|a|..]);
    assert b == a + b[|a|..];
  }

  // ---------- A generation ----------

  /** How many samples have been handed out after n frames, if all went well. */
  ghost function Emitted<F(!new)>(s: Setup<F>, n: nat, finished: bool): nat
    requires Came(s, n)
  {
    if finished then |OneShot(s, Frames(s, n))| else if s.window > 0 then |Decoded(s, n)| else 0
  }

  /** What has been handed out by then. */
  ghost function Given<F(!new)>(s: Setup<F>, n: nat, finished: bool): seq<byte>
    requires Came(s, n)
  {
    if finished then Encoded(OneShot(s, Frames(s, n))) else if s.window > 0 then Encoded(Decoded(s, n)) else []
  }

  /** The pipeline and the count of samples handed out, as they should be after n frames. */
  ghost predicate IsAt<F(!new)>(s: Setup<F>, n: nat, finished: bool, p: Pipeline<F>, emitted: nat)
    requires Came(s, n)
  {
    && emitted == Emitted(s, n, finished)
    && p == if finished then Flush(Fed(Frames(s, n), s.size)) else Fed(Frames(s, n), s.size)
  }

  /** What reading the output does: it flushes, and hands out what is new. */
  ghost predicate IsDrained<F>(s: Setup<F>, before: Pipeline<F>, emitted: nat, after: Pipeline<F>, total: nat,
                               out: seq<byte>) {
    var pcm := Pcm(s.decode, after.windows);
    after == Flush(before) && total == |pcm| && emitted <= |pcm| && out == Encoded(pcm[emitted..])
  }

  /** Within a window nothing is decoded. */
  lemma BetweenWindows<F(!new)>(s: Setup<F>, n: nat, p: Pipeline<F>, emitted: nat)
    requires s.Valid() && Came(s, n + 1) && !AtBoundary(n + 1, s.window)
    requires IsAt(s, n, false, p, emitted)
    ensures IsAt(s, n + 1, false, Feed(p, s.step(n).frame, s.size), emitted)
    ensures Given(s, n + 1, false) == Given(s, n, false)
    ensures !Speaks(s, n + 1)
  {
    assert Frames(s, n + 1)[..n] == Frames(s, n);
    FedRemainder(Frames(s, n + 1), s.size);
  }

  ghost predicate CanRead<F>(s: Setup<F>, p: Pipeline<F>, emitted: nat) {
    emitted <= |Pcm(s.decode, Flush(p).windows)|
  }

  /** There is always something to read, if perhaps nothing new. */
  lemma CanDrain<F(!new)>(s: Setup<F>, n: nat, p: Pipeline<F>, emitted: nat)
    requires Came(s, n) && IsAt(s, n, false, p, emitted)
    ensures CanRead(s, p, emitted)
    ensures n < s.maxFrames && s.step(n).Frame? ==> CanRead(s, Feed(p, s.step(n).frame, s.size), emitted)
  {
    DecodedGrows(s, n, n);
    if n < s.maxFrames && s.step(n).Frame? {
      assert Frames(s, n + 1)[..n] == Frames(s, n);
      DecodedGrows(s, n, n + 1);
    }
  }

  /** At the end of a window, reading the output hands out what that window added. */
  lemma AtWindow<F(!new)>(s: Setup<F>, n: nat, p: Pipeline<F>, emitted: nat, after: Pipeline<F>, total: nat,
                          out: seq<byte>)
    requires s.Valid() && Came(s, n + 1) && AtBoundary(n + 1, s.window)
    requires IsAt(s, n, false, p, emitted)
    requires IsDrained(s, Feed(p, s.step(n).frame, s.size), emitted, after, total, out)
    ensures IsAt(s, n + 1, false, after, total)
    ensures Given(s, n + 1, false) == Given(s, n, false) + out
    ensures out != [] <==> Speaks(s, n + 1)
  {
    assert Frames(s, n + 1)[..n] == Frames(s, n);
    WindowIsWhole(s, n + 1);
    DecodedGrows(s, n, n + 1);
    EncodedPrefix(Decoded(s, n), Decoded(s, n + 1));
  }

  /** At the end, the rest is handed out. */
  lemma AtEnd<F(!new)>(s: Setup<F>, n: nat, p: Pipeline<F>, emitted: nat, after: Pipeline<F>, total: nat,
                       out: seq<byte>)
    requires Came(s, n) && IsAt(s, n, false, p, emitted)
    requires IsDrained(s, p, emitted, after, total, out)
    ensures IsAt(s, n, true, after, total)
    ensures Given(s, n, true) == Given(s, n, false) + out
  {
    DecodedGrows(s, n, n);
    EncodedPrefix(Decoded(s, n), OneShot(s, Frames(s, n)));
    assert OneShot(s, Frames(s, n))[0..] == OneShot(s, Frames(s, n));
  }

  class Generation<F(!new)> {
    const s: Setup<F>
    var pipeline: Pipeline<F>
    var nFrames: nat
    var emitted: nat
    var finished: bool
    var drains: nat

    constructor (s: Setup<F>)
      requires s.Valid()
      ensures this.s == s && nFrames == 0 && !finished && Valid()
    {
      this.s := s;
      pipeline, nFrames, emitted, finished, drains := Pipeline([], []), 0, 0, false, 0;
    }

    ghost predicate Valid()
      reads this
    {
      s.Valid() && Came(s, nFrames) && IsAt(s, nFrames, finished, pipeline, emitted)
    }

    /** `drain`: what the pipeline has produced since the last time. */
    method Drain() returns (ok: bool, out: seq<byte>)
      requires CanRead(s, pipeline, emitted)
      modifies this`pipeline, this`emitted, this`drains
      ensures ok == !s.outputFails(old(drains))
      ensures ok ==> IsDrained(s, old(pipeline), old(emitted), pipeline, emitted, out)
    {
      var fails := s.outputFails(drains);
      drains := drains + 1;
      if fails {
        return false, [];
      }
      pipeline := Flush(pipeline);
      var pcm := Pcm(s.decode, pipeline.windows);
      out := [];
      if |pcm| > emitted {
        out := AppendS16(out, pcm[emitted..]);
        emitted := |pcm|;
      }
      return true, out;
    }

    method Take(frame: F)
      requires Valid() && !finished && nFrames < s.maxFrames
      requires s.step(nFrames).Frame? && s.step(nFrames).frame == frame
      modifies this`pipeline, this`nFrames
      ensures nFrames == old(nFrames) + 1 && Came(s, nFrames)
      ensures pipeline == Feed(old(pipeline), frame, s.size) && CanRead(s, pipeline, emitted)
    {
      CanDrain(s, nFrames, pipeline, emitted);
      pipeline := Feed(pipeline, frame, s.size);
      nFrames := nFrames + 1;
    }

    /** A frame within a window. */
    method TakeInside(frame: F)
      requires Valid() && !finished && nFrames < s.maxFrames
      requires s.step(nFrames).Frame? && s.step(nFrames).frame == frame && !AtBoundary(nFrames + 1, s.window)
      modifies this`pipeline, this`nFrames
      ensures Valid() && nFrames == old(nFrames) + 1
      ensures Given(s, nFrames, false) == Given(s, old(nFrames), false) && !Speaks(s, nFrames)
    {
      ghost var n, before := nFrames, pipeline;
      Take(frame);
      BetweenWindows(s, n, before, emitted);
    }

    /** The last frame of a window: the pipeline is drained. */
    method TakeLast(frame: F) returns (ok: bool, out: seq<byte>)
      requires Valid() && !finished && nFrames < s.maxFrames
      requires s.step(nFrames).Frame? && s.step(nFrames).frame == frame && AtBoundary(nFrames + 1, s.window)
      modifies this
      ensures nFrames == old(nFrames) + 1 && !finished && Came(s, nFrames)
      ensures ok ==> Valid() && Given(s, nFrames, false) == Given(s, old(nFrames), false) + out
      ensures ok ==> (out != [] <==> Speaks(s, nFrames))
      ensures !ok ==> exists k :: s.outputFails(k)
    {
      ghost var before, given := pipeline, emitted;
      Take(frame);
      ok, out := Drain();
      if ok {
        AtWindow(s, nFrames - 1, before, given, pipeline, emitted, out);
      }
    }

    /** A frame has come; at the end of a window the pipeline is drained, and at no other point. */
    method TakeFrame(frame: F) returns (ok: bool, out: seq<byte>)
      requires Valid() && !finished && nFrames < s.maxFrames
      requires s.step(nFrames).Frame? && s.step(nFrames).frame == frame
      modifies this
      ensures nFrames == old(nFrames) + 1 && !finished && Came(s, nFrames)
      ensures ok ==> Valid() && Given(s, nFrames, false) == Given(s, old(nFrames), false) + out
      ensures ok ==> (out != [] <==> Speaks(s, nFrames))
      ensures !ok ==> exists k :: s.outputFails(k)
    {
      if AtBoundary(nFrames + 1, s.window) {
        ok, out := TakeLast(frame);
      } else {
        Unsuffixed(Given(s, nFrames, false));
        TakeInside(frame);
        return true, [];
      }
    }

    /** The end: what is pending is decoded too. */
    method Finish() returns (ok: bool, out: seq<byte>)
      requires Valid() && !finished
      modifies this
      ensures nFrames == old(nFrames) && finished
      ensures ok ==> Valid() && Given(s, nFrames, true) == Given(s, nFrames, false) + out
      ensures !ok ==> exists k :: s.outputFails(k)
    {
      CanDrain(s, nFrames, pipeline, emitted);
      finished := true;
      ok, out := Drain();
      if ok {
        AtEnd(s, nFrames, old(pipeline), old(emitted), pipeline, emitted, out);
      }
    }

    /** `next_chunk`: goes on until there is audio or the end. */
    method NextChunk(ghost rest: nat -> Stage) returns (ok: bool, out: seq<byte>)
      requires Valid() && !finished && forall n :: RestsAt(s, rest, n)
      modifies this
      ensures Came(s, nFrames) && nFrames >= old(nFrames)
      ensures ok ==> Valid() && Given(s, nFrames, finished) == Given(s, old(nFrames), false) + out
      ensures ok ==> rest(old(nFrames)) == if finished then Over(nFrames) else Chunk(nFrames)
      ensures !ok && (forall k :: !s.outputFails(k)) ==> rest(old(nFrames)).Broken?
    {
      var stop := false;
      ghost var given := Given(s, nFrames, false);
      while !stop && nFrames < s.maxFrames
        invariant Valid() && !finished && nFrames >= old(nFrames)
        invariant Given(s, nFrames, false) == given
        invariant rest(old(nFrames)) == if stop then Over(nFrames) else rest(nFrames)
      {
        assert RestsAt(s, rest, nFrames);
        match s.step(nFrames) {
          case Failed =>
            return false, [];
          case NoHidden =>
            break;
          case Frame(frame, flag) =>
            stop := flag;
            ok, out := TakeFrame(frame);
            if !ok || out != [] {
              return;
            }
            Unsuffixed(given);
        }
      }
      assert RestsAt(s, rest, nFrames);
      ok, out := Finish();
    }

    /** The response: chunk after chunk until the end, an error, or a client that is gone. */
    method Respond(writes: nat -> bool) returns (ok: bool, body: seq<byte>)
      requires Valid() && nFrames == 0 && !finished
      modifies this
      ensures Came(s, nFrames)
      ensures ok ==> Streamed(s, Audible(s), 0) == Over(nFrames) && body == Encoded(OneShot(s, Frames(s, nFrames)))
      ensures body <= Encoded(OneShot(s, Frames(s, nFrames)))
      ensures (forall k :: !s.outputFails(k)) && (forall k :: writes(k)) ==>
                (ok <==> Streamed(s, Audible(s), 0).Over?)
    {
      body := [];
      var chunks := 0;
      assert Given(s, 0, false) == [];
      while !finished
        invariant Valid() && body == Given(s, nFrames, finished)
        invariant Streamed(s, Audible(s), 0) ==
                  if finished then Over(nFrames) else Streamed(s, Audible(s), nFrames)
        decreases s.maxFrames - nFrames, !finished
      {
        ghost var before := nFrames;
        forall n: nat {
          RestsIsRight(s, n);
        }
        var more, chunk := NextChunk(Rests(s));
        GivenIsPrefix(s, before, nFrames);
        if !more {
          return false, body;
        }
        if chunk != [] {
          chunks := chunks + 1;
          if !writes(chunks - 1) {
            return false, body;
          }
        }
        body := body + chunk;
      }
      return true, body;
    }
  }

  /** What has been handed out is always the beginning of the one-shot speech. */
  lemma {:induction false} GivenIsPrefix<F(!new)>(s: Setup<F>, m: nat, n: nat)
    requires m <= n && Came(s, n)
    ensures Given(s, m, false) <= Encoded(OneShot(s, Frames(s, n)))
  {
    DecodedGrows(s, m, n);
    EncodedPrefix(Decoded(s, m), OneShot(s, Frames(s, n)));
  }

  // ---------- The busy lock ----------

  /** A request's handler: yet to try the lock, holding it, generating, releasing, or through. */
  datatype Phase = Waiting | Locked | Generating | Clearing | Through

  datatype Server = Server(owner: Option<nat>, processing: bool, phase: nat -> Phase)

  const IDLE := Server(None, false, (_: nat) => Waiting)

  function Enter(phase: nat -> Phase, id: nat, next: Phase): nat -> Phase {
    (i: nat) => if i == id then next else phase(i)
  }

  /** One step of the handler of one request: it tries the lock and is turned away if another has it; the
      generation puts the flag up; its release takes the flag down, then gives up the lock; a second release
      finds that it no longer owns the lock. */
  function After(v: Server, id: nat): Server {
    match v.phase(id)
    case Waiting =>
      if v.owner.None? then v.(owner := Some(id), phase := Enter(v.phase, id, Locked))
      else v.(phase := Enter(v.phase, id, Through))
    case Locked => v.(processing := true, phase := Enter(v.phase, id, Generating))
    case Generating => v.(processing := false, phase := Enter(v.phase, id, Clearing))
    case Clearing => v.(owner := None, phase := Enter(v.phase, id, Through))
    case Through => v
  }

  function AfterAll(v: Server, ids: seq<nat>): Server {
    if ids == [] then v else After(AfterAll(v, ids[..|ids| - 1]), ids[|ids| - 1])
  }

  predicate Holds(phase: Phase) {
    phase.Locked? || phase.Generating? || phase.Clearing?
  }

  /** Exactly the owner is past the lock, and the flag is up exactly while the owner generates. */
  ghost predicate Exclusive(v: Server) {
    && (forall id: nat :: Holds(v.phase(id)) <==> v.owner == Some(id))
    && (v.processing <==> v.owner.Some? && v.phase(v.owner.value).Generating?)
  }

  /** In every interleaving, at most one generation owns the lock, and `processing` is up only while one does. */
  lemma {:induction false} RunKeepsExclusive(ids: seq<nat>)
    ensures Exclusive(AfterAll(IDLE, ids))
    decreases |ids|
  {
    if ids != [] {
      RunKeepsExclusive(ids[..|ids| - 1]);
      StepKeepsExclusive(AfterAll(IDLE, ids[..|ids| - 1]), ids[|ids| - 1]);
    }
  }

  lemma StepKeepsExclusive(v: Server, id: nat)
    requires Exclusive(v)
    ensures Exclusive(After(v, id))
  {
    var next := After(v, id);
    forall i: nat
      ensures Holds(next.phase(i)) <==> next.owner == Some(i)
    {
      assert Holds(v.phase(i)) <==> v.owner == Some(i);
      assert Holds(v.phase(id)) <==> v.owner == Some(id);
    }
  }

  /** A request made while another owns the lock is turned away and changes nothing else; the owner's own
      steps free the lock and take the flag down. */
  lemma {:induction false} BusyOrFree(v: Server, id: nat)
    requires Exclusive(v) && v.owner == Some(id)
    ensures forall other: nat | other != id ::
              After(v, other).owner == v.owner && After(v, other).processing == v.processing
              && !Holds(After(v, other).phase(other))
    ensures var freed := AfterAll(v, [id, id, id]);
            freed.owner.None? && !freed.processing && Exclusive(freed)
  {
    forall other: nat | other != id
      ensures After(v, other).owner == v.owner && After(v, other).processing == v.processing
              && !Holds(After(v, other).phase(other))
    {
      assert !Holds(v.phase(other));
    }
    var v1, v2 := After(v, id), After(After(v, id), id);
    assert [id][..0] == [] && AfterAll(v, [id]) == v1;
    assert [id, id][..1] == [id] && AfterAll(v, [id, id]) == v2;
    assert [id, id, id][..2] == [id, id] && AfterAll(v, [id, id, id]) == After(v2, id);
    StepKeepsExclusive(v, id);
    StepKeepsExclusive(v1, id);
    StepKeepsExclusive(v2, id);
    assert Holds(v.phase(id));
  }

  /** A request that finds the lock free takes it, generates with the flag up, and frees it again. */
  lemma {:induction false} FreeIsTaken(v: Server, id: nat)
    requires Exclusive(v) && v.owner == None && v.phase(id).Waiting?
    ensures var taken, running := After(v, id), After(After(v, id), id);
            && taken.owner == Some(id) && !taken.processing
            && running.owner == Some(id) && running.processing && running.phase(id).Generating?
            && var through := After(After(running, id), id);
               through.owner == None && !through.processing && through.phase(id).Through?
    ensures forall other: nat | other != id :: After(v, id).phase(other) == v.phase(other)
  {
  }
}
