/** The compressing QOI encoder of QOID.hpp: `updateIndex`, `WriteFirstCol`, `WriteToBuffer`,
    `writeData` and `writeDataNonCompressedNonOptimized`. The worst-case buffer is an array the
    encoder writes in place; the iterator, `bufferIndex`, `SeenPixels` and `SwapNum`, passed by
    reference in the source, are in- and out-parameters here.

    What the encoder emits is specified by a trace: the opcode chosen for each chunk, as
    `SelectOp` defines it, with the cache after it. The cache's evictions make the trace depend on
    choices the source leaves unspecified, so the encoder's output is described as the bytes of
    some valid trace. */
module QoiEncoder {
  import opened Bytes
  import opened Pixel32
  import opened QoiOps
  import opened Channels

  /** One chunk of the stream: the opcode and the cache after it. */
  datatype Step = Step(op: Opcode, cache: map<u32, byte>)

  function Init(steps: seq<Step>): seq<Step>
    requires |steps| > 0
  {
    steps[..|steps| - 1]
  }

  function Last(steps: seq<Step>): Step
    requires |steps| > 0
  {
    steps[|steps| - 1]
  }

  /** The number of pixels the steps account for. */
  function Advance(steps: seq<Step>): nat {
    if |steps| == 0 then 0 else Advance(Init(steps)) + Covers(Last(steps).op)
  }

  /** The cache after the steps; `SeenPixels` starts empty. */
  function CacheAfter(steps: seq<Step>): map<u32, byte> {
    if |steps| == 0 then map[] else Last(steps).cache
  }

  /** The bytes the steps emit, in order. */
  function StreamBytes(big: bool, steps: seq<Step>): seq<byte> {
    if |steps| == 0 then [] else StreamBytes(big, Init(steps)) + OpBytes(big, Last(steps).op)
  }

  /** The steps are the encoder's run over `pixels` so far: the first pixel is always NEW, every
      later chunk is the opcode `SelectOp` picks at the next unencoded pixel against the cache left
      by the chunks before it, and the cache changes as `CacheStep` allows. */
  ghost predicate IsTrace(big: bool, pixels: seq<Pixel>, steps: seq<Step>)
    decreases |steps|
  {
    |steps| == 0 || (IsTrace(big, pixels, Init(steps)) && Follows(big, pixels, Init(steps), Last(steps)))
  }

  /** The step is the encoder's next chunk after the steps `before`. */
  ghost predicate Follows(big: bool, pixels: seq<Pixel>, before: seq<Step>, step: Step) {
    var pos := Advance(before);
    pos < |pixels|
    && step.op == (if pos == 0 then FirstOp(big, pixels[0]) else SelectOp(big, pixels, pos, CacheAfter(before)))
    && CacheStep(big, CacheAfter(before), step.op, pixels[pos], step.cache)
  }

  /** Along a trace the steps cover at most the pixels there are, the cache keeps its invariant and
      the stream never exceeds 5 bytes per covered pixel (the size of the buffer `writeData`
      allocates). */
  lemma {:induction false} TraceBounds(big: bool, pixels: seq<Pixel>, steps: seq<Step>)
    requires IsTrace(big, pixels, steps)
    ensures Advance(steps) <= |pixels|
    ensures CacheInv(big, CacheAfter(steps))
    ensures |StreamBytes(big, steps)| <= 5 * Advance(steps)
    decreases |steps|
  {
    if |steps| > 0 {
      var init := Init(steps);
      TraceBounds(big, pixels, init);
      var pos := Advance(init);
      var op := Last(steps).op;
      OpTags(big, op);
      if pos > 0 {
        assert pos + Covers(op) <= |pixels|;
      }
      CacheStepKeepsInv(big, CacheAfter(init), op, pixels[pos], Last(steps).cache);
    }
  }

  /** Every prefix of a trace is a trace. */
  lemma {:induction false} TracePrefix(big: bool, pixels: seq<Pixel>, steps: seq<Step>, i: nat)
    requires IsTrace(big, pixels, steps) && i <= |steps|
    ensures IsTrace(big, pixels, steps[..i])
    decreases |steps|
  {
    if i < |steps| {
      assert Init(steps)[..i] == steps[..i];
      TracePrefix(big, pixels, Init(steps), i);
    } else {
      assert steps[..i] == steps;
    }
  }

  /** A trace extended by a step that follows it is a trace; the step adds its pixels, its
      cache and its bytes. */
  lemma {:induction false} Extend(big: bool, pixels: seq<Pixel>, steps: seq<Step>, step: Step)
    requires IsTrace(big, pixels, steps) && Follows(big, pixels, steps, step)
    ensures IsTrace(big, pixels, steps + [step])
    ensures Advance(steps + [step]) == Advance(steps) + Covers(step.op)
    ensures CacheAfter(steps + [step]) == step.cache
    ensures StreamBytes(big, steps + [step]) == StreamBytes(big, steps) + OpBytes(big, step.op)
  {
    var next := steps + [step];
    assert Init(next) == steps && Last(next) == step;
  }

  /** Past the first pixel, the step `SelectOp` chooses, with a cache it may leave, follows. */
  lemma {:induction false} FollowsAt(big: bool, pixels: seq<Pixel>, steps: seq<Step>, op: Opcode, cache: map<u32, byte>)
    requires 1 <= Advance(steps) < |pixels|
    requires op == SelectOp(big, pixels, Advance(steps), CacheAfter(steps))
    requires CacheStep(big, CacheAfter(steps), op, pixels[Advance(steps)], cache)
    ensures Follows(big, pixels, steps, Step(op, cache))
  {
  }

  /** Chunk i of a trace starts at pixel `Advance(steps[..i])`, which is pixel 0 only for the
      first chunk, and is the opcode chosen there against the cache the chunks before it left. */
  lemma {:induction false} TraceStepAt(big: bool, pixels: seq<Pixel>, steps: seq<Step>, i: nat)
    requires IsTrace(big, pixels, steps) && i < |steps|
    ensures Advance(steps[..i]) < |pixels|
    ensures i == 0 ==> Advance(steps[..i]) == 0 && steps[i].op == FirstOp(big, pixels[0])
    ensures i > 0 ==> 1 <= Advance(steps[..i])
                      && steps[i].op == SelectOp(big, pixels, Advance(steps[..i]), CacheAfter(steps[..i]))
    ensures CacheStep(big, CacheAfter(steps[..i]), steps[i].op, pixels[Advance(steps[..i])], steps[i].cache)
  {
    TracePrefix(big, pixels, steps, i + 1);
    var pre := steps[..i + 1];
    assert Init(pre) == steps[..i];
    assert Last(pre) == steps[i];
    if i > 0 {
      AdvancePositive(steps[..i]);
    }
  }

  /** What each chunk of a trace after the first says: it describes the pixel it starts at
      relative to the pixel before it and the cache before it, and is the first of RUN, DIFF,
      LUMA, INDEX, NEW that could. (The first chunk is the NEW of pixel 0, by `TraceStepAt`.) */
  lemma {:induction false} TraceChunk(big: bool, pixels: seq<Pixel>, steps: seq<Step>, i: nat)
    requires IsTrace(big, pixels, steps) && 0 < i < |steps|
    ensures 1 <= Advance(steps[..i]) < |pixels|
    ensures ChosenFirst(big, steps[i].op, pixels[Advance(steps[..i]) - 1], pixels[Advance(steps[..i])], CacheAfter(steps[..i]))
  {
    TraceStepAt(big, pixels, steps, i);
    SelectOpChosenFirst(big, pixels, Advance(steps[..i]), CacheAfter(steps[..i]));
  }

  lemma {:induction false} SelectOpChosenFirst(big: bool, pixels: seq<Pixel>, pos: nat, cache: map<u32, byte>)
    requires 1 <= pos < |pixels|
    ensures ChosenFirst(big, SelectOp(big, pixels, pos, cache), pixels[pos - 1], pixels[pos], cache)
  {
  }

  /** The opcode describes the pixel and is the first of RUN, DIFF, LUMA, INDEX, NEW that could. */
  ghost predicate ChosenFirst(big: bool, op: Opcode, prev: Pixel, cur: Pixel, cache: map<u32, byte>) {
    Describes(big, op, prev, cur, cache)
    && (op.Run? <==> CanRun(prev, cur))
    && (op.Diff? <==> !op.Run? && CanDiff(big, prev, cur))
    && (op.Luma? <==> !op.Run? && !op.Diff? && CanLuma(big, prev, cur))
    && (op.Index? <==> !op.Run? && !op.Diff? && !op.Luma? && CanIndex(cur, cache))
  }

  /** A RUN chunk's pixels all repeat the pixel before the run. */
  lemma {:induction false} TraceRun(big: bool, pixels: seq<Pixel>, steps: seq<Step>, i: nat)
    requires IsTrace(big, pixels, steps) && i < |steps| && steps[i].op.Run?
    ensures 1 <= Advance(steps[..i]) && Repeats(pixels, Advance(steps[..i]), steps[i].op.length)
  {
    TraceStepAt(big, pixels, steps, i);
    RunRepeats(big, pixels, Advance(steps[..i]), CacheAfter(steps[..i]), steps[i].op);
  }

  /** RUN and INDEX chunks leave the cache alone. */
  lemma {:induction false} TraceCacheKept(big: bool, pixels: seq<Pixel>, steps: seq<Step>, i: nat)
    requires IsTrace(big, pixels, steps) && i < |steps| && (steps[i].op.Run? || steps[i].op.Index?)
    ensures steps[i].cache == CacheAfter(steps[..i])
  {
    TraceStepAt(big, pixels, steps, i);
  }

  /** Chunk j accounts for the pixels chunk j - 1 left off at, plus its own. */
  lemma {:induction false} AdvanceStep(steps: seq<Step>, j: nat)
    requires j < |steps|
    ensures Advance(steps[..j + 1]) == Advance(steps[..j]) + Covers(steps[j].op)
  {
    var pre := steps[..j + 1];
    assert Init(pre) == steps[..j] && Last(pre) == steps[j];
  }

  /** The number of RUN chunks that cover n repeated pixels: ⌈n / 62⌉, the least count of chunks
      of at most 62 pixels that can hold them. */
  function RunChunkCount(n: nat): (c: nat)
    ensures n == 0 ==> c == 0
    ensures n > 0 ==> 62 * (c - 1) < n <= 62 * c
  {
    (n + 61) / 62
  }

  /** The length of RUN chunk t of a stretch of n repeated pixels: 62, ..., 62, then the
      remainder. */
  function RunChunkLength(n: nat, t: nat): nat {
    var c := RunChunkCount(n);
    if t + 1 < c then 62 else if c == 0 then 0 else n - 62 * (c - 1)
  }

  /** Chunks j, j + 1, ... are the RUN chunks of a stretch of n repeated pixels. */
  ghost predicate RunChunks(steps: seq<Step>, j: nat, n: nat) {
    j + RunChunkCount(n) <= |steps|
    && forall t :: j <= t < j + RunChunkCount(n) ==> steps[t].op == Run(RunChunkLength(n, t - j))
  }

  /** The RUN chunks of a stretch cover it exactly: each holds 1 to 62 pixels and together they
      hold n. */
  lemma {:induction false} RunChunkLengths(n: nat)
    ensures forall t :: 0 <= t < RunChunkCount(n) ==> 1 <= RunChunkLength(n, t) <= 62
    ensures SumRunChunks(n, RunChunkCount(n)) == n
  {
    SumRunChunksFull(n, RunChunkCount(n));
  }

  /** The pixels the first `t` RUN chunks of a stretch of n cover. */
  function SumRunChunks(n: nat, t: nat): nat {
    if t == 0 then 0 else SumRunChunks(n, t - 1) + RunChunkLength(n, t - 1)
  }

  lemma {:induction false} SumRunChunksFull(n: nat, t: nat)
    requires t <= RunChunkCount(n)
    ensures t < RunChunkCount(n) ==> SumRunChunks(n, t) == 62 * t
    ensures t == RunChunkCount(n) ==> SumRunChunks(n, t) == n
  {
    if t > 0 {
      SumRunChunksFull(n, t - 1);
    }
  }

  /** A RUN of `len` = min(62, n) pixels followed by the RUN chunks of the other n - len pixels
      are the RUN chunks of all n. */
  lemma {:induction false} RunChunksCons(steps: seq<Step>, j: nat, n: nat, len: nat)
    requires 1 <= n && j < |steps| && len == Min(62, n) && steps[j].op == Run(len)
    requires RunChunks(steps, j + 1, n - len)
    ensures RunChunkCount(n) == RunChunkCount(n - len) + 1
    ensures RunChunks(steps, j, n)
  {
    var c, c' := RunChunkCount(n), RunChunkCount(n - len);
    if len == 62 {
      assert (n + 61) / 62 == (n - 62 + 61) / 62 + 1;
    }
    forall t | j <= t < j + c
      ensures steps[t].op == Run(RunChunkLength(n, t - j))
    {
      if t > j {
        assert len == 62;
        assert 62 * (c - 1) == 62 * (c' - 1) + 62;
        assert RunChunkLength(n - len, t - (j + 1)) == RunChunkLength(n, t - j);
      }
    }
  }

  /** Inside a maximal stretch `pixels[b..e)` of one colour, the run the encoder counts from a
      pixel past the first is the rest of the stretch, capped at 62. */
  lemma {:induction false} RunAtInStretch(pixels: seq<Pixel>, b: nat, pos: nat, e: nat)
    requires b < pos < e <= |pixels|
    requires forall k :: b <= k < e ==> pixels[k] == pixels[b]
    requires e == |pixels| || pixels[e] != pixels[b]
    ensures RunAt(pixels, pos) == Min(62, e - pos)
  {
  }

  /** Where each chunk starts: entry t is the pixel chunk t starts at, the last entry the pixel
      after the final chunk. */
  function Starts(steps: seq<Step>): (s: seq<nat>)
    ensures |s| == |steps| + 1
    ensures forall t :: 0 <= t <= |steps| ==> s[t] == Advance(steps[..t])
  {
    seq(|steps| + 1, t requires 0 <= t <= |steps| => Advance(steps[..t]))
  }

  /** What chunk t says about runs, given where the chunks start: it starts inside the image and
      the next one starts after the pixels it covers; it is a RUN exactly when it starts past
      pixel 0 at a pixel that repeats the one before; and a RUN is the run `RunAt` counts there. */
  ghost predicate ChunkRunLaw(pixels: seq<Pixel>, steps: seq<Step>, starts: seq<nat>, t: nat)
    requires t < |steps| && |starts| == |steps| + 1
  {
    var start := starts[t];
    start < |pixels|
    && starts[t + 1] == start + Covers(steps[t].op)
    && (steps[t].op.Run? <==> 1 <= start && pixels[start - 1] == pixels[start])
    && (steps[t].op.Run? ==> steps[t].op == Run(RunAt(pixels, start)))
  }

  ghost predicate RunLaw(pixels: seq<Pixel>, steps: seq<Step>, starts: seq<nat>) {
    |starts| == |steps| + 1 && forall t :: 0 <= t < |steps| ==> ChunkRunLaw(pixels, steps, starts, t)
  }

  /** Every chunk of a trace keeps the run law. */
  lemma {:induction false} TraceRunLaw(big: bool, pixels: seq<Pixel>, steps: seq<Step>)
    requires IsTrace(big, pixels, steps)
    ensures RunLaw(pixels, steps, Starts(steps))
  {
    var starts := Starts(steps);
    forall t | 0 <= t < |steps|
      ensures ChunkRunLaw(pixels, steps, starts, t)
    {
      TraceStepAt(big, pixels, steps, t);
      AdvanceStep(steps, t);
      var start := Advance(steps[..t]);
      if t > 0 {
        SelectOpRunLaw(big, pixels, start, CacheAfter(steps[..t]));
      }
    }
  }

  /** Past pixel 0, the opcode chosen is a RUN exactly when the pixel repeats the one before, and
      then it is the run `RunAt` counts. */
  lemma {:induction false} SelectOpRunLaw(big: bool, pixels: seq<Pixel>, pos: nat, cache: map<u32, byte>)
    requires 1 <= pos < |pixels|
    ensures SelectOp(big, pixels, pos, cache).Run? <==> pixels[pos - 1] == pixels[pos]
    ensures SelectOp(big, pixels, pos, cache).Run? ==> SelectOp(big, pixels, pos, cache) == Run(RunAt(pixels, pos))
  {
  }

  /** A stretch of chunks that keep the run law and cover the whole image: `pixels[b..e)` repeat
      `pixels[b]` and the stretch is maximal to the right, and chunk j starts at `pos`, inside the
      stretch past its first pixel. Then chunks j, j + 1, ... are the RUN chunks of the e - pos
      pixels from `pos`, which end exactly at e; the chunk after them, if any, is not a RUN. */
  lemma {:induction false} RunsTo(pixels: seq<Pixel>, steps: seq<Step>, starts: seq<nat>, j: nat, b: nat, pos: nat, e: nat)
    requires RunLaw(pixels, steps, starts) && starts[|steps|] == |pixels|
    requires j <= |steps| && starts[j] == pos
    requires b < pos <= e <= |pixels|
    requires forall k :: b <= k < e ==> pixels[k] == pixels[b]
    requires e == |pixels| || pixels[e] != pixels[b]
    ensures RunChunks(steps, j, e - pos)
    ensures starts[j + RunChunkCount(e - pos)] == e
    ensures j + RunChunkCount(e - pos) < |steps| ==> !steps[j + RunChunkCount(e - pos)].op.Run?
    decreases e - pos
  {
    if pos == e {
      if j < |steps| {
        assert ChunkRunLaw(pixels, steps, starts, j);
        assert pixels[pos - 1] == pixels[b];
      }
    } else {
      assert ChunkRunLaw(pixels, steps, starts, j);
      assert pixels[pos - 1] == pixels[b] == pixels[pos];
      var n := RunAt(pixels, pos);
      RunAtInStretch(pixels, b, pos, e);
      RunsTo(pixels, steps, starts, j + 1, b, pos + n, e);
      RunsCombine(steps, starts, j, pos, e, n);
    }
  }

  /** The step of `RunsTo`: a RUN of min(62, e - pos) pixels at chunk j, then the RUN chunks of
      the rest of the stretch, are the RUN chunks from chunk j. */
  lemma {:induction false} RunsCombine(steps: seq<Step>, starts: seq<nat>, j: nat, pos: nat, e: nat, n: nat)
    requires pos < e && j < |steps| && |starts| == |steps| + 1
    requires n == Min(62, e - pos) && steps[j].op == Run(n)
    requires RunChunks(steps, j + 1, e - (pos + n))
    requires starts[j + 1 + RunChunkCount(e - (pos + n))] == e
    requires j + 1 + RunChunkCount(e - (pos + n)) < |steps| ==> !steps[j + 1 + RunChunkCount(e - (pos + n))].op.Run?
    ensures RunChunks(steps, j, e - pos)
    ensures starts[j + RunChunkCount(e - pos)] == e
    ensures j + RunChunkCount(e - pos) < |steps| ==> !steps[j + RunChunkCount(e - pos)].op.Run?
  {
    assert e - pos - n == e - (pos + n);
    RunChunksCons(steps, j, e - pos, n);
  }

  /** How a complete trace encodes a maximal stretch `pixels[b..e)` of one repeated colour: the
      chunk that starts the stretch is not a RUN (it is the NEW of pixel 0, or the pixel before
      differs) and covers pixel b alone; the chunks after it are the RUN chunks of the other
      e - b - 1 pixels, ⌈(e - b - 1) / 62⌉ of them, of 62 pixels each but the last, which takes the
      remainder, and ending exactly at e; the chunk after them, if any, is not a RUN. */
  lemma {:induction false} RunStretch(big: bool, pixels: seq<Pixel>, steps: seq<Step>, i: nat, b: nat, e: nat)
    requires IsTrace(big, pixels, steps) && Advance(steps) == |pixels|
    requires i < |steps| && Advance(steps[..i]) == b
    requires b < e <= |pixels|
    requires forall k :: b <= k < e ==> pixels[k] == pixels[b]
    requires b == 0 || pixels[b - 1] != pixels[b]
    requires e == |pixels| || pixels[e] != pixels[b]
    ensures !steps[i].op.Run? && Advance(steps[..i + 1]) == b + 1
    ensures RunChunks(steps, i + 1, e - b - 1)
    ensures Advance(steps[..i + 1 + RunChunkCount(e - b - 1)]) == e
    ensures i + 1 + RunChunkCount(e - b - 1) < |steps| ==> !steps[i + 1 + RunChunkCount(e - b - 1)].op.Run?
  {
    TraceRunLaw(big, pixels, steps);
    var starts := Starts(steps);
    assert steps[..|steps|] == steps;
    StretchRuns(pixels, steps, starts, i, b, e);
  }

  /** `RunStretch` for any chunks that keep the run law and cover the whole image. */
  lemma {:induction false} StretchRuns(pixels: seq<Pixel>, steps: seq<Step>, starts: seq<nat>, i: nat, b: nat, e: nat)
    requires RunLaw(pixels, steps, starts) && starts[|steps|] == |pixels|
    requires i < |steps| && starts[i] == b
    requires b < e <= |pixels|
    requires forall k :: b <= k < e ==> pixels[k] == pixels[b]
    requires b == 0 || pixels[b - 1] != pixels[b]
    requires e == |pixels| || pixels[e] != pixels[b]
    ensures !steps[i].op.Run? && starts[i + 1] == b + 1
    ensures RunChunks(steps, i + 1, e - b - 1)
    ensures starts[i + 1 + RunChunkCount(e - b - 1)] == e
    ensures i + 1 + RunChunkCount(e - b - 1) < |steps| ==> !steps[i + 1 + RunChunkCount(e - b - 1)].op.Run?
  {
    assert ChunkRunLaw(pixels, steps, starts, i);
    RunsTo(pixels, steps, starts, i + 1, b, b + 1, e);
  }

  /** The `n` pixels from `pos` exist and all repeat the pixel before `pos`. */
  ghost predicate Repeats(pixels: seq<Pixel>, pos: nat, n: nat)
    requires 1 <= pos
  {
    pos + n <= |pixels| && forall k :: pos <= k < pos + n ==> pixels[k] == pixels[pos - 1]
  }

  lemma {:induction false} RunRepeats(big: bool, pixels: seq<Pixel>, pos: nat, cache: map<u32, byte>, op: Opcode)
    requires pos < |pixels| && op.Run?
    requires pos == 0 ==> op == FirstOp(big, pixels[0])
    requires pos > 0 ==> op == SelectOp(big, pixels, pos, cache)
    ensures 1 <= pos && Repeats(pixels, pos, op.length)
  {
    assert pixels[pos] == pixels[pos - 1];
  }

  lemma {:induction false} AdvancePositive(steps: seq<Step>)
    requires |steps| > 0
    ensures Advance(steps) >= 1
  {
  }

  /** Every step covers at least one pixel. */
  lemma {:induction false} AdvanceAtLeastLength(steps: seq<Step>)
    ensures Advance(steps) >= |steps|
    decreases |steps|
  {
    if |steps| > 0 {
      AdvanceAtLeastLength(Init(steps));
    }
  }

  /** The first pixel alone is encoded as `0xFF` followed by its four channels. */
  lemma {:induction false} SinglePixel(big: bool, p: Pixel, steps: seq<Step>)
    requires IsTrace(big, [p], steps) && Advance(steps) == 1
    ensures StreamBytes(big, steps) == [0xFF, R(big, p), G(big, p), B(big, p), A(big, p)]
  {
    AdvanceAtLeastLength(steps);
    assert |steps| == 1;
    assert Init(steps) == [];
    assert Last(steps).op == FirstOp(big, p);
  }

  /** A pixel repeated once is encoded as its NEW followed by a one-pixel RUN, the byte 0xC0. */
  lemma {:induction false} RepeatedPixel(big: bool, p: Pixel, steps: seq<Step>)
    requires IsTrace(big, [p, p], steps) && Advance(steps) == 2
    ensures StreamBytes(big, steps) == [0xFF, R(big, p), G(big, p), B(big, p), A(big, p), 0xC0]
  {
    var pixels := [p, p];
    TraceStepAt(big, pixels, steps, 0);
    assert steps[..0] == [];
    assert steps[0].op == FirstOp(big, p);
    var first := steps[..1];
    assert Init(first) == [] && Last(first) == steps[0];
    assert Advance(first) == 1;
    AdvanceAtLeastLength(steps);
    assert |steps| == 2;
    TraceStepAt(big, pixels, steps, 1);
    assert steps[..1] == first;
    assert RunAt(pixels, 1) == 1;
    assert steps[1].op == Run(1);
    assert Init(steps) == first && Last(steps) == steps[1];
    assert StreamBytes(big, first) == OpBytes(big, FirstOp(big, p));
  }

  /** `updateIndex(SeenPixels, px, SwapNum)`: evicts one entry of a full cache, stores the
      pixel's hash under its packed value, and moves the circular `SwapNum` on by one. The entry
      evicted is the one `std::advance(begin(), SwapNum)` reaches, whose position in the
      iteration order is unspecified, so here it is any entry. */
  method UpdateIndex(big: bool, seen: map<u32, byte>, p: Pixel, swapNum: nat) returns (seen': map<u32, byte>, swapNum': nat)
    ensures Inserted(big, seen, p, seen')
    ensures swapNum' == (swapNum + 1) % 64 && swapNum' < 64
  {
    seen' := seen;
    if |seen'| >= 64 {
      assert seen'.Keys != {} by {
        assert |seen'.Keys| == |seen'|;
      }
      var victim :| victim in seen';
      seen' := seen' - {victim};
    }
    seen' := seen'[p.packed := Hash(big, p)];
    swapNum' := (swapNum + 1) % 64;
  }

  /** The NEW chunk, as both `WriteFirstCol` and the last branch of `WriteToBuffer` write it:
      the byte `0xFF`, then `memcpy` of the packed pixel. */
  method WriteNew(big: bool, buffer: array<byte>, p: Pixel, bufferIndex: nat)
    requires bufferIndex + 5 <= buffer.Length
    modifies buffer
    ensures buffer[..bufferIndex + 5] == old(buffer[..bufferIndex]) + OpBytes(big, FirstOp(big, p))
  {
    ChannelsDetermine(big, p, FromChannels(big, R(big, p), G(big, p), B(big, p), A(big, p)));
    CopyAt(buffer, bufferIndex, [0xFF]);
    CopyAt(buffer, bufferIndex + 1, MemoryBytes(big, p));
  }

  /** The RUN branch of `WriteToBuffer`: counts how many pixels from `pos` on repeat the pixel at
      `pos` (at most 62, stopping at the end of the data), and writes `(runCount - 1) | 0xC0`. */
  method WriteRun(buffer: array<byte>, pixels: seq<Pixel>, pos: nat, bufferIndex: nat) returns (runCount: RunLength)
    requires pos < |pixels| && bufferIndex + 1 <= buffer.Length
    modifies buffer
    ensures runCount == RunAt(pixels, pos)
    ensures buffer[..bufferIndex + 1] == old(buffer[..bufferIndex]) + [RunByte(runCount)]
  {
    runCount := 1;
    while runCount < 62 && pos + runCount != |pixels| && pixels[pos + runCount].packed == pixels[pos].packed
      invariant 1 <= runCount <= 62 && pos + runCount <= |pixels|
      invariant forall k :: pos <= k < pos + runCount ==> pixels[k] == pixels[pos]
      invariant RunFrom(pixels, pos, runCount) == RunAt(pixels, pos)
      decreases 62 - runCount
    {
      runCount := runCount + 1;
    }
    var runMarker := RunByte(runCount);
    CopyAt(buffer, bufferIndex, [runMarker]);
  }

  /** `WriteFirstCol`: the first pixel is always written as NEW, `0xFF` and the `memcpy` of
      the packed pixel, and goes into the cache. */
  method WriteFirstCol(big: bool, buffer: array<byte>, pixels: seq<Pixel>, pos: nat,
                       seen: map<u32, byte>, bufferIndex: nat, swapNum: nat)
    returns (pos': nat, seen': map<u32, byte>, bufferIndex': nat, swapNum': nat)
    requires pos < |pixels| && bufferIndex + 5 <= buffer.Length
    modifies buffer
    ensures pos' == pos + 1 && bufferIndex' == bufferIndex + 5
    ensures buffer[..bufferIndex'] == old(buffer[..bufferIndex]) + OpBytes(big, FirstOp(big, pixels[pos]))
    ensures CacheStep(big, seen, FirstOp(big, pixels[pos]), pixels[pos], seen')
    ensures swapNum' == (swapNum + 1) % 64
  {
    var p := pixels[pos];
    WriteNew(big, buffer, p, bufferIndex);
    seen', swapNum' := UpdateIndex(big, seen, p, swapNum);
    pos' := pos + 1;
    bufferIndex' := bufferIndex + 5;
  }

  /** The DIFF branch of `WriteToBuffer`: `0x40 | (dr + 2) << 4 | (dg + 2) << 2 | (db + 2)`,
      then the pixel goes into the cache. */
  method WriteDiff(big: bool, buffer: array<byte>, pixels: seq<Pixel>, pos: nat,
                   seen: map<u32, byte>, bufferIndex: nat, swapNum: nat,
                   diffR: SmallDiff, diffG: SmallDiff, diffB: SmallDiff)
    returns (pos': nat, seen': map<u32, byte>, bufferIndex': nat, swapNum': nat)
    requires 1 <= pos < |pixels| && !CanRun(pixels[pos - 1], pixels[pos]) && CanDiff(big, pixels[pos - 1], pixels[pos])
    requires diffR == Delta(big, pixels[pos - 1], pixels[pos], Red)
    requires diffG == Delta(big, pixels[pos - 1], pixels[pos], Green)
    requires diffB == Delta(big, pixels[pos - 1], pixels[pos], Blue)
    requires bufferIndex + 1 <= buffer.Length
    modifies buffer
    ensures var op := SelectOp(big, pixels, pos, seen);
            op == Diff(diffR, diffG, diffB)
            && pos' == pos + 1
            && bufferIndex' == bufferIndex + |OpBytes(big, op)|
            && buffer[..bufferIndex'] == old(buffer[..bufferIndex]) + OpBytes(big, op)
            && CacheStep(big, seen, op, pixels[pos], seen')
            && swapNum' == (swapNum + 1) % 64
  {
    var comb := DiffByte(diffR, diffG, diffB);
    CopyAt(buffer, bufferIndex, [comb]);
    seen', swapNum' := UpdateIndex(big, seen, pixels[pos], swapNum);
    pos', bufferIndex' := pos + 1, bufferIndex + 1;
  }

  /** The LUMA branch of `WriteToBuffer`: the 16-bit word, byte-swapped first on a
      little-endian host, then `memcpy` of its two bytes; then the pixel goes into the cache. */
  method WriteLuma(big: bool, buffer: array<byte>, pixels: seq<Pixel>, pos: nat,
                   seen: map<u32, byte>, bufferIndex: nat, swapNum: nat,
                   diffG: LumaGreen, drDg: LumaDiff, dbDg: LumaDiff)
    returns (pos': nat, seen': map<u32, byte>, bufferIndex': nat, swapNum': nat)
    requires 1 <= pos < |pixels| && !CanRun(pixels[pos - 1], pixels[pos])
    requires !CanDiff(big, pixels[pos - 1], pixels[pos]) && CanLuma(big, pixels[pos - 1], pixels[pos])
    requires diffG == Delta(big, pixels[pos - 1], pixels[pos], Green)
    requires drDg == Delta(big, pixels[pos - 1], pixels[pos], Red) - diffG
    requires dbDg == Delta(big, pixels[pos - 1], pixels[pos], Blue) - diffG
    requires bufferIndex + 2 <= buffer.Length
    modifies buffer
    ensures var op := SelectOp(big, pixels, pos, seen);
            op == Luma(diffG, drDg, dbDg)
            && pos' == pos + 1
            && bufferIndex' == bufferIndex + |OpBytes(big, op)|
            && buffer[..bufferIndex'] == old(buffer[..bufferIndex]) + OpBytes(big, op)
            && CacheStep(big, seen, op, pixels[pos], seen')
            && swapNum' == (swapNum + 1) % 64
  {
    var word := LumaWord(diffG, drDg, dbDg);
    var comb := if big then word else ByteSwap16(word);
    assert Bytes16(comb, big) == OpBytes(big, Luma(diffG, drDg, dbDg));
    CopyAt(buffer, bufferIndex, Bytes16(comb, big));
    seen', swapNum' := UpdateIndex(big, seen, pixels[pos], swapNum);
    pos', bufferIndex' := pos + 1, bufferIndex + 2;
  }

  /** The INDEX branch of `WriteToBuffer`: the stored slot byte itself. */
  method WriteIndex(big: bool, buffer: array<byte>, bufferIndex: nat, slot: byte)
    requires bufferIndex + 1 <= buffer.Length
    modifies buffer
    ensures buffer[..bufferIndex + 1] == old(buffer[..bufferIndex]) + OpBytes(big, Index(slot))
  {
    CopyAt(buffer, bufferIndex, [slot]);
  }

  /** `WriteToBuffer`: encodes the chunk that starts at `pos`. Its branches, tried in order,
      are RUN (with the counting loop), DIFF, LUMA, INDEX and NEW; the bytes written and the
      iterator, cursor and cache afterwards are those of `SelectOp`'s opcode. */
  method WriteToBuffer(big: bool, buffer: array<byte>, pixels: seq<Pixel>, pos: nat,
                       seen: map<u32, byte>, bufferIndex: nat, swapNum: nat)
    returns (pos': nat, seen': map<u32, byte>, bufferIndex': nat, swapNum': nat)
    requires 1 <= pos < |pixels|
    requires bufferIndex + |OpBytes(big, SelectOp(big, pixels, pos, seen))| <= buffer.Length
    modifies buffer
    ensures var op := SelectOp(big, pixels, pos, seen);
            pos' == pos + Covers(op)
            && bufferIndex' == bufferIndex + |OpBytes(big, op)|
            && buffer[..bufferIndex'] == old(buffer[..bufferIndex]) + OpBytes(big, op)
            && CacheStep(big, seen, op, pixels[pos], seen')
            && swapNum' == if op.Run? || op.Index? then swapNum else (swapNum + 1) % 64
  {
    if pixels[pos].packed == pixels[pos - 1].packed {
      var runCount := WriteRun(buffer, pixels, pos, bufferIndex);
      return pos + runCount, seen, bufferIndex + 1, swapNum;
    }
    pos', seen', bufferIndex', swapNum' := WriteChange(big, buffer, pixels, pos, seen, bufferIndex, swapNum);
  }

  /** The branches of `WriteToBuffer` after RUN, for a pixel that differs from the one before:
      DIFF, then LUMA (both only when alpha is unchanged), then INDEX, then NEW. */
  method WriteChange(big: bool, buffer: array<byte>, pixels: seq<Pixel>, pos: nat,
                     seen: map<u32, byte>, bufferIndex: nat, swapNum: nat)
    returns (pos': nat, seen': map<u32, byte>, bufferIndex': nat, swapNum': nat)
    requires 1 <= pos < |pixels| && pixels[pos].packed != pixels[pos - 1].packed
    requires bufferIndex + |OpBytes(big, SelectOp(big, pixels, pos, seen))| <= buffer.Length
    modifies buffer
    ensures var op := SelectOp(big, pixels, pos, seen);
            pos' == pos + 1
            && bufferIndex' == bufferIndex + |OpBytes(big, op)|
            && buffer[..bufferIndex'] == old(buffer[..bufferIndex]) + OpBytes(big, op)
            && CacheStep(big, seen, op, pixels[pos], seen')
            && swapNum' == if op.Index? then swapNum else (swapNum + 1) % 64
  {
    var cur, prev := pixels[pos], pixels[pos - 1];
    if A(big, cur) == A(big, prev) {
      var diffG := G(big, cur) - G(big, prev);
      var diffR := R(big, cur) - R(big, prev);
      var diffB := B(big, cur) - B(big, prev);
      if -2 <= diffR <= 1 && -2 <= diffG <= 1 && -2 <= diffB <= 1 {
        pos', seen', bufferIndex', swapNum' := WriteDiff(big, buffer, pixels, pos, seen, bufferIndex, swapNum, diffR, diffG, diffB);
        return;
      }
      diffR := diffR - diffG;
      diffB := diffB - diffG;
      if -32 <= diffG <= 31 && -8 <= diffR <= 7 && -8 <= diffB <= 7 {
        pos', seen', bufferIndex', swapNum' := WriteLuma(big, buffer, pixels, pos, seen, bufferIndex, swapNum, diffG, diffR, diffB);
        return;
      }
    }
    assert !CanDiff(big, prev, cur) && !CanLuma(big, prev, cur);
    pos', seen', bufferIndex', swapNum' := WriteCached(big, buffer, pixels, pos, seen, bufferIndex, swapNum);
  }

  /** The last two branches of `WriteToBuffer`, once RUN, DIFF and LUMA do not apply: INDEX when
      the packed pixel is a key of the cache, NEW otherwise. */
  method WriteCached(big: bool, buffer: array<byte>, pixels: seq<Pixel>, pos: nat,
                     seen: map<u32, byte>, bufferIndex: nat, swapNum: nat)
    returns (pos': nat, seen': map<u32, byte>, bufferIndex': nat, swapNum': nat)
    requires 1 <= pos < |pixels| && !CanRun(pixels[pos - 1], pixels[pos])
    requires !CanDiff(big, pixels[pos - 1], pixels[pos]) && !CanLuma(big, pixels[pos - 1], pixels[pos])
    requires bufferIndex + |OpBytes(big, SelectOp(big, pixels, pos, seen))| <= buffer.Length
    modifies buffer
    ensures var op := SelectOp(big, pixels, pos, seen);
            pos' == pos + 1
            && bufferIndex' == bufferIndex + |OpBytes(big, op)|
            && buffer[..bufferIndex'] == old(buffer[..bufferIndex]) + OpBytes(big, op)
            && CacheStep(big, seen, op, pixels[pos], seen')
            && swapNum' == if op.Index? then swapNum else (swapNum + 1) % 64
  {
    ghost var op := SelectOp(big, pixels, pos, seen);
    var cur := pixels[pos];
    if cur.packed in seen {
      assert op == Index(seen[cur.packed]);
      WriteIndex(big, buffer, bufferIndex, seen[cur.packed]);
      return pos + 1, seen, bufferIndex + 1, swapNum;
    } else {
      assert op == FirstOp(big, cur);
      WriteNew(big, buffer, cur, bufferIndex);
      seen', swapNum' := UpdateIndex(big, seen, cur, swapNum);
      return pos + 1, seen', bufferIndex + 5, swapNum';
    }
  }

  /** `chunkSize`: the buffer is written out 4 KiB at a time. */
  const ChunkSize: nat := 4096

  /** The concatenation of the `file.write` calls, in order. */
  function Concat(chunks: seq<seq<byte>>): (r: seq<byte>)
    ensures |chunks| > 0 ==> chunks[0] <= r
    ensures |chunks| > 0 ==> |chunks[|chunks| - 1]| <= |r| && r[|r| - |chunks[|chunks| - 1]|..] == chunks[|chunks| - 1]
  {
    if |chunks| == 0 then []
    else
      var init := chunks[..|chunks| - 1];
      assert |init| > 0 ==> init[0] == chunks[0];
      Concat(init) + chunks[|chunks| - 1]
  }

  /** The chunk loop of `writeData`: `bufferIndex / 4096` full chunks, then the remainder if
      there is one. Together they are the first `bufferIndex` bytes of the buffer, each once and in
      order. */
  method FlushChunks(buffer: array<byte>, bufferIndex: nat) returns (chunks: seq<seq<byte>>)
    requires bufferIndex <= buffer.Length
    ensures Concat(chunks) == buffer[..bufferIndex]
    ensures |chunks| == bufferIndex / ChunkSize + (if bufferIndex % ChunkSize == 0 then 0 else 1)
    ensures forall i :: 0 <= i < |chunks| ==> 1 <= |chunks[i]| <= ChunkSize
    ensures forall i :: 0 <= i < bufferIndex / ChunkSize ==> |chunks[i]| == ChunkSize
  {
    var chunkCount := bufferIndex / ChunkSize;
    chunks := [];
    for p := 0 to chunkCount
      invariant |chunks| == p
      invariant Concat(chunks) == buffer[..p * ChunkSize]
      invariant forall i :: 0 <= i < p ==> |chunks[i]| == ChunkSize
    {
      var start := p * ChunkSize;
      var chunk := buffer[start..start + ChunkSize];
      assert buffer[..start + ChunkSize] == buffer[..start] + chunk;
      ConcatAppend(chunks, chunk);
      chunks := chunks + [chunk];
    }
    var remainder := bufferIndex % ChunkSize;
    var start := chunkCount * ChunkSize;
    if remainder != 0 {
      var tail := buffer[start..bufferIndex];
      assert buffer[..bufferIndex] == buffer[..start] + tail;
      ConcatAppend(chunks, tail);
      chunks := chunks + [tail];
    }
  }

  lemma {:induction false} ConcatAppend(chunks: seq<seq<byte>>, chunk: seq<byte>)
    ensures Concat(chunks + [chunk]) == Concat(chunks) + chunk
  {
    assert (chunks + [chunk])[..|chunks|] == chunks;
  }

  /** `writeData`: the first pixel through `WriteFirstCol`, then `WriteToBuffer` until the
      pixels run out, into a buffer of 5 bytes per pixel; then the chunk writes. The chunks
      written, together, are the stream of a complete trace over the pixels, at most 5 bytes per
      pixel, in `bufferIndex / 4096` full chunks of 4096 bytes followed by the remainder, if any.
      The image must have at least one pixel, and fewer than 2^32. */
  method WriteData(big: bool, pixels: seq<Pixel>) returns (chunks: seq<seq<byte>>, ghost steps: seq<Step>)
    requires 1 <= |pixels| < 0x1_0000_0000
    ensures IsTrace(big, pixels, steps) && Advance(steps) == |pixels|
    ensures Concat(chunks) == StreamBytes(big, steps)
    ensures |Concat(chunks)| <= 5 * |pixels|
    ensures forall i :: 0 <= i < |chunks| ==> 1 <= |chunks[i]| <= ChunkSize
    ensures |chunks| == |Concat(chunks)| / ChunkSize + (if |Concat(chunks)| % ChunkSize == 0 then 0 else 1)
    ensures forall i :: 0 <= i < |Concat(chunks)| / ChunkSize ==> |chunks[i]| == ChunkSize
  {
    var buffer := new byte[5 * |pixels|](_ => 0);
    var seen: map<u32, byte> := map[];
    var pos: nat := 0;
    var bufferIndex: nat := 0;
    var swapNum: nat := 0;
    pos, seen, bufferIndex, swapNum := WriteFirstCol(big, buffer, pixels, pos, seen, bufferIndex, swapNum);
    assert Follows(big, pixels, [], Step(FirstOp(big, pixels[0]), seen));
    Extend(big, pixels, [], Step(FirstOp(big, pixels[0]), seen));
    steps := [Step(FirstOp(big, pixels[0]), seen)];
    bufferIndex, steps := WriteRest(big, buffer, pixels, pos, seen, bufferIndex, swapNum, steps);
    chunks := FlushChunks(buffer, bufferIndex);
  }

  /** The `while (DataIterator != RawDataVec.end())` loop of `writeData`: from a trace that covers
      the first `pos` pixels and whose bytes fill the buffer so far, one `WriteToBuffer` per chunk
      until the trace covers every pixel. */
  method WriteRest(big: bool, buffer: array<byte>, pixels: seq<Pixel>, pos: nat, seen: map<u32, byte>,
                   bufferIndex: nat, swapNum: nat, ghost steps: seq<Step>)
    returns (bufferIndex': nat, ghost steps': seq<Step>)
    requires 1 <= pos <= |pixels| && buffer.Length == 5 * |pixels|
    requires IsTrace(big, pixels, steps) && Advance(steps) == pos && CacheAfter(steps) == seen
    requires bufferIndex <= 5 * pos && buffer[..bufferIndex] == StreamBytes(big, steps)
    modifies buffer
    ensures IsTrace(big, pixels, steps') && Advance(steps') == |pixels|
    ensures bufferIndex' <= 5 * |pixels| && buffer[..bufferIndex'] == StreamBytes(big, steps')
  {
    var pos, seen, swapNum := pos, seen, swapNum;
    bufferIndex', steps' := bufferIndex, steps;
    while pos < |pixels|
      invariant 1 <= pos <= |pixels|
      invariant IsTrace(big, pixels, steps') && Advance(steps') == pos && CacheAfter(steps') == seen
      invariant bufferIndex' <= 5 * pos && buffer[..bufferIndex'] == StreamBytes(big, steps')
      decreases |pixels| - pos
    {
      ghost var op := SelectOp(big, pixels, pos, seen);
      ghost var at := pos;
      OpTags(big, op);
      pos, seen, bufferIndex', swapNum := WriteToBuffer(big, buffer, pixels, pos, seen, bufferIndex', swapNum);
      FollowsAt(big, pixels, steps', op, seen);
      Extend(big, pixels, steps', Step(op, seen));
      steps' := steps' + [Step(op, seen)];
    }
  }

  /** `writeDataNonCompressedNonOptimized`: every pixel as `0xFF` followed by the `memcpy` of
      the packed pixel, which is the NEW chunk of that pixel: 5 bytes per pixel. */
  method WriteDataNonCompressed(big: bool, pixels: seq<Pixel>) returns (out: seq<byte>)
    ensures |out| == 5 * |pixels|
    ensures forall i :: 0 <= i < |pixels| ==>
              out[5 * i..5 * i + 5] == [0xFF, R(big, pixels[i]), G(big, pixels[i]), B(big, pixels[i]), A(big, pixels[i])]
    ensures forall i :: 0 <= i < |pixels| ==> out[5 * i..5 * i + 5] == OpBytes(big, FirstOp(big, pixels[i]))
  {
    out := [];
    for i := 0 to |pixels|
      invariant |out| == 5 * i
      invariant forall j :: 0 <= j < i ==>
                  out[5 * j..5 * j + 5] == [0xFF, R(big, pixels[j]), G(big, pixels[j]), B(big, pixels[j]), A(big, pixels[j])]
    {
      var before := out;
      out := out + [0xFF] + MemoryBytes(big, pixels[i]);
      assert forall j :: 0 <= j < i ==> out[5 * j..5 * j + 5] == before[5 * j..5 * j + 5];
    }
  }
}
