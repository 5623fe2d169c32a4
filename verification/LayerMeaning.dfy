/** What the layers of the network compute, value by value: every convolution is an exact
    weighted sum that is rounded, saturated and rectified, every pooling output a maximum,
    every average a mean rounded toward zero. */
module LayerMeaning {
  import opened FixedPoint
  import opened StreamSpec
  import Ring

  // ---- weighted sums -------------------------------------------------------------------------

  /** Sum of the products of the first n pairs. */
  function Weighted(xs: seq<int8>, weights: seq<int8>, n: nat): int
    requires n <= |xs| && n <= |weights|
  {
    if n == 0 then 0
    else
      var x: int, weight: int := xs[n - 1], weights[n - 1];
      Weighted(xs, weights, n - 1) + x * weight
  }

  lemma {:induction false} DotIsWeighted(xs: seq<int8>, weights: seq<int8>, n: nat)
    requires n <= |xs| && n <= |weights|
    ensures Dot(xs[..n], weights[..n]) == Weighted(xs, weights, n)
  {
    if n > 0 {
      DotIsWeighted(xs, weights, n - 1);
      assert xs[..n][..n - 1] == xs[..n - 1] && weights[..n][..n - 1] == weights[..n - 1];
    }
  }

  /** The exact value of output channel c for a window of input values. */
  function Exact(L: Filter, window: seq<int8>, c: nat): int
    requires L.Valid() && |window| == L.taps && c < L.Channels()
  {
    Weighted(window, L.weights[c], L.taps) + L.bias8[c] * Pow2(L.lshift[c])
  }

  lemma ApplyRounds(L: Filter, window: seq<int8>, c: nat)
    requires L.Valid() && |window| == L.taps && c < L.Channels()
    ensures RoundsTo(L.Apply(window)[c], Exact(L, window, c), Pow2(L.rshift[c]))
  {
    hide Dot, Weighted, Requantise, RoundsTo, Pow2;
    var row := L.weights[c];
    DotIsWeighted(window, row, L.taps);
    assert window[..L.taps] == window && row[..L.taps] == row;
    RequantiseRounds(Exact(L, window, c), L.rshift[c], L.Apply(window)[c]);
  }

  /** y is s / d rounded and saturated, or 0 where that is negative. */
  predicate Rectifies(y: int, s: int, d: int) {
    (y > 0 && RoundsTo(y, s, d)) || (y == 0 && 2 * s < d)
  }

  lemma ReluRounds(q: int8, y: int, s: int, d: int)
    requires d > 0 && RoundsTo(q, s, d) && y == if q < 0 then 0 else q
    ensures Rectifies(y, s, d)
  {
    if y == 0 {
      var q': int := q;
      assert q' * d <= 0 by { TimesLess(q', 1, d); }
    }
  }

  /** Frame i of a stream; there is silence before its start. */
  function FrameAt(xs: seq<Frame>, ch: nat, i: int): (f: Frame)
    requires i < |xs| && Shaped(xs, ch)
    ensures |f| == ch
  {
    if i < 0 then Zeros(ch) else xs[i]
  }

  /** Each output value of a causal convolution: the frame before the last, the last and the
      present one under the three groups of taps. */
  ghost predicate ConvolvedStream(L: Filter, ch: nat, xs: seq<Frame>, ys: seq<Frame>) {
    && L.Valid() && L.taps == 3 * ch && Shaped(xs, ch) && |ys| == |xs| && Shaped(ys, L.Channels())
    && forall i, c :: 0 <= i < |ys| && 0 <= c < L.Channels() ==>
         Rectifies(ys[i][c],
                   Exact(L, FrameAt(xs, ch, i - 2) + FrameAt(xs, ch, i - 1) + FrameAt(xs, ch, i), c),
                   Pow2(L.rshift[c]))
  }

  lemma ConvolutionMeans(L: Filter, ch: nat, xs: seq<Frame>)
    requires L.Valid() && L.taps == 3 * ch && Shaped(xs, ch)
    ensures ConvolvedStream(L, ch, xs, ConvRelu(L, Silence(ch), xs))
  {
    hide Exact, Rectifies, Filter.Apply, RoundsTo, Pow2;
    var z, ys := Silence(ch) + xs, ConvRelu(L, Silence(ch), xs);
    forall i, c | 0 <= i < |ys| && 0 <= c < L.Channels()
      ensures Rectifies(ys[i][c],
                        Exact(L, FrameAt(xs, ch, i - 2) + FrameAt(xs, ch, i - 1) + FrameAt(xs, ch, i), c),
                        Pow2(L.rshift[c]))
    {
      var window := FrameAt(xs, ch, i - 2) + FrameAt(xs, ch, i - 1) + FrameAt(xs, ch, i);
      assert window == z[i] + z[i + 1] + z[i + 2];
      ApplyRounds(L, window, c);
      ReluRounds(L.Apply(window)[c], ys[i][c], Exact(L, window, c), Pow2(L.rshift[c]));
    }
  }

  /** Sample number from + t of a recording; outside it there is silence. */
  function SampleAt(audio: seq<int8>, from: int, t: int): int8 {
    if 0 <= from + t < |audio| then audio[from + t] else 0
  }

  /** The `taps` samples from number `from` on. */
  function Stretch(audio: seq<int8>, from: int, taps: nat): (window: seq<int8>)
    ensures |window| == taps
  {
    seq(taps, t requires 0 <= t < taps => SampleAt(audio, from, t))
  }

  /** Each output value of the first layer: the 129 samples that end at sample 16 * i. */
  ghost predicate FilteredStream(L: Filter, audio: seq<int8>, ys: seq<Frame>) {
    && L.Valid() && L.taps == 129 && |ys| == |audio| / 16 && Shaped(ys, L.Channels())
    && forall i, c :: 0 <= i < |ys| && 0 <= c < L.Channels() ==>
         Rectifies(ys[i][c], Exact(L, Stretch(audio, 16 * i - 128, 129), c), Pow2(L.rshift[c]))
  }

  lemma SincMeans(m: Model, audio: seq<int8>)
    requires Audio(m, audio)
    ensures FilteredStream(m.sinc, audio, SincRelu(m, audio))
  {
    hide Exact, Rectifies, Filter.Apply, RoundsTo, Pow2;
    var L, z, ys := m.sinc, Zeros(SINC_CONTEXT) + audio, SincRelu(m, audio);
    forall i, c | 0 <= i < |ys| && 0 <= c < L.Channels()
      ensures Rectifies(ys[i][c], Exact(L, Stretch(audio, 16 * i - 128, 129), c), Pow2(L.rshift[c]))
    {
      var window := Stretch(audio, 16 * i - 128, 129);
      assert window == z[16 * i..16 * i + 129];
      ApplyRounds(L, window, c);
      ReluRounds(L.Apply(window)[c], ys[i][c], Exact(L, window, c), Pow2(L.rshift[c]));
    }
  }

  // ---- maxima ----------------------------------------------------------------------------------

  /** v is the largest of channel c over k frames from number `from` on. */
  ghost predicate Largest(v: int, xs: seq<Frame>, from: nat, k: nat, c: nat) {
    && from + k <= |xs| && (forall j :: from <= j < from + k ==> c < |xs[j]| && xs[j][c] <= v)
    && exists j :: from <= j < from + k && c < |xs[j]| && xs[j][c] == v
  }

  function GroupStart(g: nat, k: nat): nat { g * k }

  /** One output per complete group of k frames, the maximum of the group in each channel. */
  ghost predicate MaxPooled(ys: seq<Frame>, xs: seq<Frame>, k: nat, ch: nat) {
    && k > 0 && |ys| == |xs| / k && Shaped(ys, ch)
    && forall g, c :: 0 <= g < |ys| && 0 <= c < ch ==> Largest(ys[g][c], xs, GroupStart(g, k), k, c)
  }

  lemma {:induction false} MaxAtIsLargest(xs: seq<Frame>, from: nat, n: nat, c: nat)
    requires 0 < n && from + n <= |xs| && forall j :: from <= j < from + n ==> c < |xs[j]|
    ensures Largest(MaxAt(xs[from..from + n], c), xs, from, n, c)
    decreases n
  {
    var win := xs[from..from + n];
    if n == 1 {
      assert xs[from][c] == MaxAt(win, c);
    } else {
      MaxAtIsLargest(xs, from, n - 1, c);
      assert win[..n - 1] == xs[from..from + (n - 1)];
      var v := MaxAt(win, c);
      if v == xs[from + n - 1][c] {
        assert xs[from + n - 1][c] == v;
      } else {
        var j :| from <= j < from + (n - 1) && c < |xs[j]| && xs[j][c] == MaxAt(win[..n - 1], c);
        assert xs[j][c] == v;
      }
    }
  }

  lemma NextStart(g: nat, k: nat)
    ensures g == 0 ==> GroupStart(g, k) == 0
    ensures g > 0 ==> GroupStart(g, k) == GroupStart(g - 1, k) + k
  {
  }

  lemma LaterGroup(xs: seq<Frame>, k: nat, from: nat)
    requires from + k + k <= |xs|
    ensures xs[k..][from..from + k] == xs[from + k..from + k + k]
  {
  }

  /** Group g of a pooled stream. */
  lemma {:induction false} PoolAt(k: nat, ch: nat, xs: seq<Frame>, g: nat)
    requires k > 0 && Shaped(xs, ch) && g < |xs| / k
    ensures |Pool(k, ch, xs)| == |xs| / k && GroupStart(g, k) + k <= |xs|
    ensures Pool(k, ch, xs)[g] == MaxFrame(xs[GroupStart(g, k)..GroupStart(g, k) + k], ch)
    decreases g
  {
    hide MaxFrame;
    PoolLength(k, ch, xs);
    if |xs| < k {
      Ring.ModShift(0, |xs|, k);
    } else {
      DivStep(|xs|, k);
      NextStart(g, k);
      if g > 0 {
        hide GroupStart;
        PoolAt(k, ch, xs[k..], g - 1);
        LaterGroup(xs, k, GroupStart(g - 1, k));
      }
    }
  }

  lemma PoolMeans(k: nat, ch: nat, xs: seq<Frame>)
    requires k > 0 && Shaped(xs, ch)
    ensures MaxPooled(Pool(k, ch, xs), xs, k, ch)
  {
    hide MaxAt, GroupStart, Largest;
    PoolLength(k, ch, xs);
    var ys := Pool(k, ch, xs);
    hide Pool;
    forall g, c | 0 <= g < |ys| && 0 <= c < ch ensures Largest(ys[g][c], xs, GroupStart(g, k), k, c) {
      PoolAt(k, ch, xs, g);
      MaxAtIsLargest(xs, GroupStart(g, k), k, c);
    }
  }

  // ---- averages ----------------------------------------------------------------------------------

  /** v is s / n rounded toward zero. */
  predicate Truncates(v: int, s: int, n: int) {
    (s >= 0 ==> v * n <= s < v * n + n) && (s <= 0 ==> v * n - n < s <= v * n)
  }

  /** Sum of channel c of the first n frames. */
  function ChannelTotal(xs: seq<Frame>, c: nat, n: nat): int
    requires n <= |xs| && forall i :: 0 <= i < n ==> c < |xs[i]|
  {
    if n == 0 then 0 else ChannelTotal(xs, c, n - 1) + xs[n - 1][c]
  }

  lemma {:induction false} SumIsTotal(xs: seq<Frame>, c: nat, n: nat)
    requires n <= |xs| && forall i :: 0 <= i < |xs| ==> c < |xs[i]|
    ensures Ring.Sum(Ring.Column(xs, c)[..n]) == ChannelTotal(xs, c, n)
  {
    if n > 0 {
      SumIsTotal(xs, c, n - 1);
      var col := Ring.Column(xs, c);
      assert col[..n][..n - 1] == col[..n - 1];
    }
  }

  lemma AverageMeans(xs: seq<Frame>, c: nat)
    requires |xs| > 0 && forall i :: 0 <= i < |xs| ==> c < |xs[i]|
    ensures Truncates(AverageAt(xs, c), ChannelTotal(xs, c, |xs|), |xs|)
  {
    var col := Ring.Column(xs, c);
    SumIsTotal(xs, c, |xs|);
    assert col[..|xs|] == col;
    var s, n := Ring.Sum(col), |xs|;
    if s >= 0 {
      assert s == (s / n) * n + s % n;
    } else {
      assert -s == (-s / n) * n + -s % n;
      assert -((-s) / n) * n == -((-s / n) * n);
    }
  }

  // ---- the network ---------------------------------------------------------------------------------

  /** Every stream of the network is what its layer means on the stream before it. */
  ghost predicate Meaning(m: Model, audio: seq<int8>, s: Streams) {
    && FilteredStream(m.sinc, audio, s.sinc)
    && ConvolvedStream(m.conv1, SINC_CH, s.sinc, s.conv1) && MaxPooled(s.pool1, s.conv1, 4, CONV_CH)
    && ConvolvedStream(m.conv2, CONV_CH, s.pool1, s.conv2) && MaxPooled(s.pool2, s.conv2, 4, CONV_CH)
    && ConvolvedStream(m.conv3, CONV_CH, s.pool2, s.conv3) && MaxPooled(s.pool3, s.conv3, 2, CONV_CH)
    && ConvolvedStream(m.conv4, CONV_CH, s.pool3, s.conv4)
  }

  lemma BatchMeans(m: Model, audio: seq<int8>)
    requires Audio(m, audio)
    ensures Meaning(m, audio, Batch(m, audio))
  {
    hide ConvRelu, Pool, Sinc, Relu, FilteredStream, ConvolvedStream, MaxPooled;
    var s := Batch(m, audio);
    SincMeans(m, audio);
    ConvolutionMeans(m.conv1, SINC_CH, s.sinc);
    PoolMeans(4, CONV_CH, s.conv1);
    ConvolutionMeans(m.conv2, CONV_CH, s.pool1);
    PoolMeans(4, CONV_CH, s.conv2);
    ConvolutionMeans(m.conv3, CONV_CH, s.pool2);
    PoolMeans(2, CONV_CH, s.conv3);
    ConvolutionMeans(m.conv4, CONV_CH, s.pool3);
  }

  /** The scores are the head applied to the frame that holds, for each channel, the mean of
      the last 15 frames of the last layer (of all while there are fewer), rounded toward
      zero. */
  lemma ScoresMean(m: Model, audio: seq<int8>) returns (mean: Frame)
    requires Ready(m, audio)
    ensures |mean| == CONV_CH && BatchScores(m, audio) == m.head(mean)
    ensures var ys := Batch(m, audio).conv4;
            var n := if |ys| < 15 then |ys| else 15;
            forall c :: 0 <= c < CONV_CH ==> Truncates(mean[c], ChannelTotal(ys[|ys| - n..], c, n), n)
  {
    hide Batch, Truncates, ChannelTotal, AverageAt;
    var ys := Batch(m, audio).conv4;
    var last := Ring.Latest(ys, N_GAP);
    mean := Average(last);
    assert last == ys[|ys| - |last|..];
    forall c | 0 <= c < CONV_CH ensures Truncates(mean[c], ChannelTotal(last, c, |last|), |last|) {
      AverageMeans(last, c);
    }
  }
}
