/** The network as it would run once over a whole recording, and the lemmas that
    let it be computed piecewise. */
module StreamSpec {
  import opened FixedPoint
  import Ring

  const HOP: nat := 1600        // samples per inference hop
  const SINC_CONTEXT: nat := 128
  const SINC_STRIDE: nat := 16
  const SINC_CH: nat := 32
  const CONV_CH: nat := 48
  const N_GAP: nat := 15
  const NUM_CLASSES: nat := 11

  type Frame = seq<int8>
  type Scores = s: seq<int8> | |s| == NUM_CLASSES witness seq(NUM_CLASSES, _ => 0)

  /** Weights are data; the two dense layers and the softmax are an arbitrary
      function of the average-pooled frame. */
  datatype Model = Model(sinc: Filter, conv1: Filter, conv2: Filter, conv3: Filter, conv4: Filter,
                         head: Frame -> Scores)
  {
    predicate Valid() {
      && sinc.Valid() && sinc.taps == SINC_CONTEXT + 1 && sinc.Channels() == SINC_CH
      && Kernel3(conv1, SINC_CH) && Kernel3(conv2, CONV_CH) && Kernel3(conv3, CONV_CH) && Kernel3(conv4, CONV_CH)
    }
  }

  predicate Kernel3(L: Filter, chIn: nat) {
    L.Valid() && L.taps == 3 * chIn && L.Channels() == CONV_CH
  }

  predicate Shaped(xs: seq<Frame>, ch: nat) {
    forall i :: 0 <= i < |xs| ==> |xs[i]| == ch
  }

  // ---- layers ---------------------------------------------------------------

  function ReluFrame(f: Frame): (r: Frame)
    ensures |r| == |f|
  {
    seq(|f|, c requires 0 <= c < |f| => if f[c] < 0 then 0 else f[c])
  }

  function Relu(xs: seq<Frame>): (ys: seq<Frame>)
    ensures |ys| == |xs|
  {
    seq(|xs|, i requires 0 <= i < |xs| => ReluFrame(xs[i]))
  }

  /** The strided first layer over audio that starts with its left context. */
  function Sinc(L: Filter, z: seq<int8>): (ys: seq<Frame>)
    requires L.Valid() && L.taps == SINC_CONTEXT + 1
    requires |z| >= SINC_CONTEXT && (|z| - SINC_CONTEXT) % SINC_STRIDE == 0
    ensures |ys| == (|z| - SINC_CONTEXT) / SINC_STRIDE && Shaped(ys, L.Channels())
  {
    seq((|z| - SINC_CONTEXT) / SINC_STRIDE, i requires 0 <= i < (|z| - SINC_CONTEXT) / SINC_STRIDE =>
      L.Apply(z[SINC_STRIDE * i..SINC_STRIDE * i + L.taps]))
  }

  /** A width-3 convolution whose first two inputs are the context. */
  function Causal(L: Filter, ctx: seq<Frame>, xs: seq<Frame>): (ys: seq<Frame>)
    requires L.Valid() && |ctx| == 2 && L.taps % 3 == 0 && Shaped(ctx, L.taps / 3) && Shaped(xs, L.taps / 3)
    ensures |ys| == |xs| && Shaped(ys, L.Channels())
  {
    var z := ctx + xs;
    seq(|xs|, i requires 0 <= i < |xs| => L.Apply(z[i] + z[i + 1] + z[i + 2]))
  }

  /** The last two frames seen so far: the context of the next chunk. */
  function LastTwo(ctx: seq<Frame>, xs: seq<Frame>): (r: seq<Frame>)
    requires |ctx| == 2
    ensures |r| == 2
  {
    (ctx + xs)[|xs|..]
  }

  function MaxAt(win: seq<Frame>, c: nat): int8
    requires |win| > 0 && forall i :: 0 <= i < |win| ==> c < |win[i]|
  {
    if |win| == 1 then win[0][c]
    else
      var m := MaxAt(win[..|win| - 1], c);
      if win[|win| - 1][c] > m then win[|win| - 1][c] else m
  }

  function MaxFrame(win: seq<Frame>, ch: nat): (f: Frame)
    requires |win| > 0 && Shaped(win, ch)
    ensures |f| == ch
  {
    seq(ch, c requires 0 <= c < ch => MaxAt(win, c))
  }

  /** Max-pooling of complete groups of k frames. */
  function Pool(k: nat, ch: nat, xs: seq<Frame>): (ys: seq<Frame>)
    requires k > 0 && Shaped(xs, ch)
    ensures Shaped(ys, ch)
    decreases |xs|
  {
    if |xs| < k then []
    else [MaxFrame(xs[..k], ch)] + Pool(k, ch, xs[k..])
  }

  /** The frames that do not fill a group. */
  function Leftover(k: nat, xs: seq<Frame>): (r: seq<Frame>)
    requires k > 0
    ensures |r| < k
    decreases |xs|
  {
    if |xs| < k then xs else Leftover(k, xs[k..])
  }

  lemma {:induction false} LeftoverShaped(k: nat, ch: nat, xs: seq<Frame>)
    requires k > 0 && Shaped(xs, ch)
    ensures Shaped(Leftover(k, xs), ch)
    decreases |xs|
  {
    if |xs| >= k {
      LeftoverShaped(k, ch, xs[k..]);
    }
  }

  lemma {:induction false} PoolLength(k: nat, ch: nat, xs: seq<Frame>)
    requires k > 0 && Shaped(xs, ch)
    ensures |Pool(k, ch, xs)| == |xs| / k
    ensures |Leftover(k, xs)| == |xs| % k
    decreases |xs|
  {
    if |xs| < k {
      Ring.ModShift(0, |xs|, k);
    } else {
      PoolLength(k, ch, xs[k..]);
      DivStep(|xs|, k);
    }
  }

  lemma {:induction false} LeftoverAt(k: nat, xs: seq<Frame>)
    requires k > 0
    ensures 0 <= |xs| / k * k <= |xs| && Leftover(k, xs) == xs[|xs| / k * k..]
    decreases |xs|
  {
    if |xs| < k {
      Ring.ModShift(0, |xs|, k);
    } else {
      LeftoverAt(k, xs[k..]);
      DivStep(|xs|, k);
      var from := (|xs| - k) / k * k;
      assert |xs| / k * k == from + k;
      assert xs[k..][from..] == xs[from + k..];
    }
  }

  lemma DivStep(n: nat, k: nat)
    requires 0 < k <= n
    ensures n / k == (n - k) / k + 1 && n % k == (n - k) % k
  {
    var q, r := (n - k) / k, (n - k) % k;
    assert (q + 1) * k + r == n;
    Ring.ModShift(q + 1, r, k);
  }

  /** Channel-wise truncated average. */
  function Average(frames: seq<Frame>): (f: Frame)
    requires |frames| > 0 && Shaped(frames, CONV_CH)
    ensures |f| == CONV_CH
  {
    seq(CONV_CH, c requires 0 <= c < CONV_CH => AverageAt(frames, c))
  }

  function AverageAt(frames: seq<Frame>, c: nat): int8
    requires |frames| > 0 && forall i :: 0 <= i < |frames| ==> c < |frames[i]|
  {
    MeanFits(Ring.Column(frames, c));
    Mean(Ring.Column(frames, c))
  }

  function Mean(col: seq<int>): int
    requires |col| > 0
  {
    TruncDiv(Ring.Sum(col), |col|)
  }

  lemma {:induction false} SumFits(col: seq<int>)
    requires forall i :: 0 <= i < |col| ==> -128 <= col[i] < 128
    ensures -128 * |col| <= Ring.Sum(col) <= 127 * |col|
  {
    if |col| > 0 {
      SumFits(col[..|col| - 1]);
    }
  }

  lemma MeanFits(col: seq<int>)
    requires |col| > 0
    requires forall i :: 0 <= i < |col| ==> -128 <= col[i] < 128
    ensures -128 <= Mean(col) < 128
  {
    SumFits(col);
    var s := Ring.Sum(col);
    if s >= 0 {
      Ring.DivAtMost(s, |col|, 127);
    } else {
      Ring.DivAtMost(-s, |col|, 128);
    }
  }

  // ---- the whole-recording network -------------------------------------------

  function ConvRelu(L: Filter, ctx: seq<Frame>, xs: seq<Frame>): (ys: seq<Frame>)
    requires L.Valid() && |ctx| == 2 && L.taps % 3 == 0 && Shaped(ctx, L.taps / 3) && Shaped(xs, L.taps / 3)
    ensures |ys| == |xs| && Shaped(ys, L.Channels())
  {
    Relu(Causal(L, ctx, xs))
  }

  /** The two zero frames every context starts with. */
  function Silence(ch: nat): (ctx: seq<Frame>)
    ensures |ctx| == 2 && Shaped(ctx, ch)
  {
    [Zeros(ch), Zeros(ch)]
  }

  ghost predicate Audio(m: Model, audio: seq<int8>) {
    m.Valid() && |audio| % SINC_STRIDE == 0
  }

  /** The output of each layer (convolutions after their ReLU). */
  datatype Streams = Streams(sinc: seq<Frame>, conv1: seq<Frame>, pool1: seq<Frame>, conv2: seq<Frame>,
                             pool2: seq<Frame>, conv3: seq<Frame>, pool3: seq<Frame>, conv4: seq<Frame>)
  {
    predicate WellShaped() {
      && Shaped(sinc, SINC_CH) && Shaped(conv1, CONV_CH) && Shaped(pool1, CONV_CH) && Shaped(conv2, CONV_CH)
      && Shaped(pool2, CONV_CH) && Shaped(conv3, CONV_CH) && Shaped(pool3, CONV_CH) && Shaped(conv4, CONV_CH)
    }
  }

  /** Every layer applied once to the whole of its input. */
  function Batch(m: Model, audio: seq<int8>): (s: Streams)
    requires Audio(m, audio)
    ensures s.WellShaped()
  {
    var sinc := Relu(Sinc(m.sinc, Zeros(SINC_CONTEXT) + audio));
    var conv1 := ConvRelu(m.conv1, Silence(SINC_CH), sinc);
    var pool1 := Pool(4, CONV_CH, conv1);
    var conv2 := ConvRelu(m.conv2, Silence(CONV_CH), pool1);
    var pool2 := Pool(4, CONV_CH, conv2);
    var conv3 := ConvRelu(m.conv3, Silence(CONV_CH), pool2);
    var pool3 := Pool(2, CONV_CH, conv3);
    var conv4 := ConvRelu(m.conv4, Silence(CONV_CH), pool3);
    Streams(sinc, conv1, pool1, conv2, pool2, conv3, pool3, conv4)
  }

  /** The same, as a relation between neighbouring layers. */
  ghost predicate Consistent(m: Model, s: Streams) {
    && m.Valid() && s.WellShaped()
    && s.conv1 == ConvRelu(m.conv1, Silence(SINC_CH), s.sinc)
    && s.pool1 == Pool(4, CONV_CH, s.conv1)
    && s.conv2 == ConvRelu(m.conv2, Silence(CONV_CH), s.pool1)
    && s.pool2 == Pool(4, CONV_CH, s.conv2)
    && s.conv3 == ConvRelu(m.conv3, Silence(CONV_CH), s.pool2)
    && s.pool3 == Pool(2, CONV_CH, s.conv3)
    && s.conv4 == ConvRelu(m.conv4, Silence(CONV_CH), s.pool3)
  }

  /** The only consistent streams with the given pooling outputs. */
  ghost function Assemble(m: Model, sinc: seq<Frame>, pool1: seq<Frame>, pool2: seq<Frame>,
                          pool3: seq<Frame>): (s: Streams)
    requires m.Valid() && Shaped(sinc, SINC_CH) && Shaped(pool1, CONV_CH) && Shaped(pool2, CONV_CH)
             && Shaped(pool3, CONV_CH)
    requires pool1 == Pool(4, CONV_CH, ConvRelu(m.conv1, Silence(SINC_CH), sinc))
    requires pool2 == Pool(4, CONV_CH, ConvRelu(m.conv2, Silence(CONV_CH), pool1))
    requires pool3 == Pool(2, CONV_CH, ConvRelu(m.conv3, Silence(CONV_CH), pool2))
    ensures Consistent(m, s) && s.sinc == sinc && s.pool1 == pool1 && s.pool2 == pool2 && s.pool3 == pool3
  {
    Streams(sinc, ConvRelu(m.conv1, Silence(SINC_CH), sinc), pool1, ConvRelu(m.conv2, Silence(CONV_CH), pool1), pool2,
            ConvRelu(m.conv3, Silence(CONV_CH), pool2), pool3, ConvRelu(m.conv4, Silence(CONV_CH), pool3))
  }

  function SincRelu(m: Model, audio: seq<int8>): (ys: seq<Frame>)
    requires Audio(m, audio)
    ensures |ys| == |audio| / SINC_STRIDE && Shaped(ys, SINC_CH)
  {
    Relu(Sinc(m.sinc, Zeros(SINC_CONTEXT) + audio))
  }

  lemma ConsistentIsBatch(m: Model, audio: seq<int8>, s: Streams)
    requires Audio(m, audio) && Consistent(m, s) && s.sinc == SincRelu(m, audio)
    ensures s == Batch(m, audio)
  {
  }

  /** How many frames each layer has produced. */
  lemma FrameCounts(m: Model, audio: seq<int8>, s: Streams)
    requires Audio(m, audio) && Consistent(m, s) && s.sinc == SincRelu(m, audio)
    ensures |s.sinc| == |s.conv1| == |audio| / 16
    ensures |s.pool1| == |s.conv2| == |audio| / 64
    ensures |s.pool2| == |s.conv3| == |audio| / 256
    ensures |s.pool3| == |s.conv4| == |audio| / 512
    ensures |Leftover(4, s.conv1)| == |audio| / 16 % 4
    ensures |Leftover(4, s.conv2)| == |audio| / 64 % 4
    ensures |Leftover(2, s.conv3)| == |audio| / 256 % 2
  {
    PoolLength(4, CONV_CH, s.conv1);
    PoolLength(4, CONV_CH, s.conv2);
    PoolLength(2, CONV_CH, s.conv3);
  }

  /** Long enough for at least one frame to reach the end. */
  ghost predicate Ready(m: Model, audio: seq<int8>) {
    Audio(m, audio) && |Batch(m, audio).conv4| > 0
  }

  /** The scores of a whole recording: the head applied to the average of the last
      15 output frames. */
  ghost function BatchScores(m: Model, audio: seq<int8>): Scores
    requires Ready(m, audio)
  {
    m.head(Average(Ring.Latest(Batch(m, audio).conv4, N_GAP)))
  }

  // ---- computing a layer piecewise -------------------------------------------

  lemma ReluAppend(xs: seq<Frame>, ys: seq<Frame>)
    ensures Relu(xs + ys) == Relu(xs) + Relu(ys)
  {
  }

  lemma SincAppend(L: Filter, z: seq<int8>, ys: seq<int8>)
    requires L.Valid() && L.taps == SINC_CONTEXT + 1
    requires |z| >= SINC_CONTEXT && (|z| - SINC_CONTEXT) % SINC_STRIDE == 0 && |ys| % SINC_STRIDE == 0
    ensures Sinc(L, z + ys) == Sinc(L, z) + Sinc(L, z[|z| - SINC_CONTEXT..] + ys)
  {
    var done := (|z| - SINC_CONTEXT) / SINC_STRIDE;
    var whole, next := z + ys, z[|z| - SINC_CONTEXT..] + ys;
    assert |Sinc(L, whole)| == done + |ys| / SINC_STRIDE;
    forall i | 0 <= i < |Sinc(L, whole)|
      ensures Sinc(L, whole)[i] == (Sinc(L, z) + Sinc(L, next))[i]
    {
      var at := SINC_STRIDE * i;
      if i < done {
        assert whole[at..at + L.taps] == z[at..at + L.taps];
      } else {
        var at' := SINC_STRIDE * (i - done);
        assert whole[at..at + L.taps] == next[at'..at' + L.taps];
      }
    }
  }

  lemma SincReluAppend(m: Model, audio: seq<int8>, ys: seq<int8>)
    requires Audio(m, audio) && |ys| % SINC_STRIDE == 0
    ensures var z := Zeros(SINC_CONTEXT) + audio;
            SincRelu(m, audio + ys) == SincRelu(m, audio) + Relu(Sinc(m.sinc, z[|audio|..] + ys))
  {
    var z := Zeros(SINC_CONTEXT) + audio;
    SincAppend(m.sinc, z, ys);
    assert Zeros(SINC_CONTEXT) + (audio + ys) == z + ys;
    ReluAppend(Sinc(m.sinc, z), Sinc(m.sinc, z[|audio|..] + ys));
  }

  lemma CausalAppend(L: Filter, ctx: seq<Frame>, xs: seq<Frame>, ys: seq<Frame>)
    requires L.Valid() && |ctx| == 2 && L.taps % 3 == 0
    requires Shaped(ctx, L.taps / 3) && Shaped(xs, L.taps / 3) && Shaped(ys, L.taps / 3)
    ensures Shaped(LastTwo(ctx, xs), L.taps / 3)
    ensures Causal(L, ctx, xs + ys) == Causal(L, ctx, xs) + Causal(L, LastTwo(ctx, xs), ys)
    ensures LastTwo(ctx, xs + ys) == LastTwo(LastTwo(ctx, xs), ys)
  {
    var z, z' := ctx + (xs + ys), LastTwo(ctx, xs) + ys;
    assert z[|xs|..] == z';
    hide Filter.Apply;
    forall i | 0 <= i < |xs + ys|
      ensures Causal(L, ctx, xs + ys)[i] == (Causal(L, ctx, xs) + Causal(L, LastTwo(ctx, xs), ys))[i]
    {
      if i < |xs| {
        assert z[i] == (ctx + xs)[i] && z[i + 1] == (ctx + xs)[i + 1] && z[i + 2] == (ctx + xs)[i + 2];
      } else {
        var j := i - |xs|;
        assert z[i] == z'[j] && z[i + 1] == z'[j + 1] && z[i + 2] == z'[j + 2];
      }
    }
  }

  lemma ConvReluAppend(L: Filter, ctx: seq<Frame>, xs: seq<Frame>, ys: seq<Frame>)
    requires L.Valid() && |ctx| == 2 && L.taps % 3 == 0
    requires Shaped(ctx, L.taps / 3) && Shaped(xs, L.taps / 3) && Shaped(ys, L.taps / 3)
    ensures Shaped(LastTwo(ctx, xs), L.taps / 3)
    ensures ConvRelu(L, ctx, xs + ys) == ConvRelu(L, ctx, xs) + ConvRelu(L, LastTwo(ctx, xs), ys)
    ensures LastTwo(ctx, xs + ys) == LastTwo(LastTwo(ctx, xs), ys)
  {
    CausalAppend(L, ctx, xs, ys);
    ReluAppend(Causal(L, ctx, xs), Causal(L, LastTwo(ctx, xs), ys));
  }

  lemma {:induction false} PoolAppend(k: nat, ch: nat, xs: seq<Frame>, ys: seq<Frame>)
    requires k > 0 && Shaped(xs, ch) && Shaped(ys, ch)
    ensures Shaped(Leftover(k, xs) + ys, ch)
    ensures Pool(k, ch, xs + ys) == Pool(k, ch, xs) + Pool(k, ch, Leftover(k, xs) + ys)
    ensures Leftover(k, xs + ys) == Leftover(k, Leftover(k, xs) + ys)
    decreases |xs|
  {
    hide MaxFrame;
    LeftoverShaped(k, ch, xs);
    if |xs| < k {
      assert Pool(k, ch, xs) == [] && Leftover(k, xs) == xs;
    } else {
      var tail := xs[k..];
      LeftoverShaped(k, ch, tail);
      PoolAppend(k, ch, tail, ys);
      var first, p, q := [MaxFrame(xs[..k], ch)], Pool(k, ch, tail), Pool(k, ch, Leftover(k, tail) + ys);
      assert (xs + ys)[..k] == xs[..k] && (xs + ys)[k..] == tail + ys;
      assert first + (p + q) == (first + p) + q;
    }
  }

  lemma PoolAppendExact(k: nat, ch: nat, xs: seq<Frame>, ys: seq<Frame>)
    requires k > 0 && Shaped(xs, ch) && Shaped(ys, ch) && |xs| % k == 0
    ensures Pool(k, ch, xs + ys) == Pool(k, ch, xs) + Pool(k, ch, ys)
  {
    PoolLength(k, ch, xs);
    PoolAppend(k, ch, xs, ys);
    assert Leftover(k, xs) + ys == ys;
  }

  // ---- any chunking ------------------------------------------------------------

  function Concat(chunks: seq<seq<Frame>>): seq<Frame> {
    if |chunks| == 0 then [] else chunks[0] + Concat(chunks[1..])
  }

  /** causal_conv1d and update_ctx2 called on one chunk after the other. */
  function ChunkedCausal(L: Filter, ctx: seq<Frame>, chunks: seq<seq<Frame>>): seq<Frame>
    requires L.Valid() && |ctx| == 2 && L.taps % 3 == 0 && Shaped(ctx, L.taps / 3)
    requires forall j :: 0 <= j < |chunks| ==> Shaped(chunks[j], L.taps / 3)
    decreases |chunks|
  {
    if |chunks| == 0 then []
    else Causal(L, ctx, chunks[0]) + ChunkedCausal(L, LastTwo(ctx, chunks[0]), chunks[1..])
  }

  lemma {:induction false} ConcatShaped(chunks: seq<seq<Frame>>, ch: nat)
    requires forall j :: 0 <= j < |chunks| ==> Shaped(chunks[j], ch)
    ensures Shaped(Concat(chunks), ch)
  {
    if |chunks| > 0 {
      ConcatShaped(chunks[1..], ch);
    }
  }

  lemma {:induction false} ChunkedCausalIsCausal(L: Filter, ctx: seq<Frame>, chunks: seq<seq<Frame>>)
    requires L.Valid() && |ctx| == 2 && L.taps % 3 == 0 && Shaped(ctx, L.taps / 3)
    requires forall j :: 0 <= j < |chunks| ==> Shaped(chunks[j], L.taps / 3)
    ensures Shaped(Concat(chunks), L.taps / 3)
    ensures ChunkedCausal(L, ctx, chunks) == Causal(L, ctx, Concat(chunks))
    decreases |chunks|
  {
    ConcatShaped(chunks, L.taps / 3);
    if |chunks| == 0 {
    } else {
      ConcatShaped(chunks[1..], L.taps / 3);
      ChunkedCausalIsCausal(L, LastTwo(ctx, chunks[0]), chunks[1..]);
      CausalAppend(L, ctx, chunks[0], Concat(chunks[1..]));
    }
  }

  /** pool_with_partial called on one chunk after the other: what it has output and
      what it still holds. */
  function ChunkedPool(k: nat, ch: nat, held: seq<Frame>, chunks: seq<seq<Frame>>): (r: (seq<Frame>, seq<Frame>))
    requires k > 0 && Shaped(held, ch)
    requires forall j :: 0 <= j < |chunks| ==> Shaped(chunks[j], ch)
    decreases |chunks|
  {
    if |chunks| == 0 then ([], held)
    else
      assert Shaped(chunks[0], ch);
      var now := held + chunks[0];
      LeftoverShaped(k, ch, now);
      var rest := ChunkedPool(k, ch, Leftover(k, now), chunks[1..]);
      (Pool(k, ch, now) + rest.0, rest.1)
  }

  lemma {:induction false} ChunkedPoolIsPool(k: nat, ch: nat, held: seq<Frame>, chunks: seq<seq<Frame>>)
    requires 0 < k && |held| < k && Shaped(held, ch)
    requires forall j :: 0 <= j < |chunks| ==> Shaped(chunks[j], ch)
    ensures Shaped(held + Concat(chunks), ch)
    ensures ChunkedPool(k, ch, held, chunks)
         == (Pool(k, ch, held + Concat(chunks)), Leftover(k, held + Concat(chunks)))
    decreases |chunks|
  {
    ConcatShaped(chunks, ch);
    if |chunks| == 0 {
      assert held + Concat(chunks) == held;
    } else {
      var now, tail := held + chunks[0], Concat(chunks[1..]);
      assert Shaped(chunks[0], ch);
      ConcatShaped(chunks[1..], ch);
      LeftoverShaped(k, ch, now);
      ChunkedPoolIsPool(k, ch, Leftover(k, now), chunks[1..]);
      PoolAppend(k, ch, now, tail);
      assert held + Concat(chunks) == now + tail;
    }
  }
}
