/** The accelerated one-dimensional convolution: the accelerator computes a valid
    convolution, and the layer's fast path pads, folds the bias and the rounding, and
    calls it.  The result is the zero-padded convolution of the layer. */
module AccelConv {
  import opened FixedPoint
  import Ring

  const MAX_CHOUT := 64
  const PAD_BUF_SIZE := 9216
  const HALF_RANGE: int := 0x4000_0000

  // ---- output length -----------------------------------------------------------------------

  datatype Padding = PaddingValid | PaddingSame

  function ConvOutputLength(inputLength: nat, filterSize: nat, padding: Padding, stride: nat, dilation: nat): nat
    requires filterSize > 0 && stride > 0
    requires inputLength > 0 && padding.PaddingValid? ==> (filterSize - 1) * dilation + 1 <= inputLength
  {
    if inputLength == 0 then 0
    else
      var outputLength := if padding.PaddingSame? then inputLength
                          else inputLength - ((filterSize - 1) * dilation + 1) + 1;
      (outputLength + stride - 1) / stride
  }

  /** Frames the accelerator writes. */
  function Outputs(width: nat, kW: nat, stride: nat): nat
    requires 0 < kW <= width && stride > 0
  {
    (width - kW) / stride + 1
  }

  lemma DivAtLeast(a: nat, b: nat, m: nat)
    requires b > 0
    ensures m <= a / b <==> m * b <= a
  {
    var q := a / b;
    assert a == q * b + a % b;
    Ring.Multiples(q, m, b);
    Ring.Multiples(m, q, b);
  }

  lemma NextMultiple(w: nat, stride: nat)
    ensures (w + 1) * stride == w * stride + stride
  {
  }

  /** The output length counts the window positions: with same padding every stride that
      starts inside the input, with valid padding every window that fits. */
  lemma OutputLength(inputLength: nat, filterSize: nat, padding: Padding, stride: nat, dilation: nat, w: nat)
    requires inputLength > 0 && filterSize > 0 && stride > 0
    requires padding.PaddingValid? ==> (filterSize - 1) * dilation + 1 <= inputLength
    ensures w < ConvOutputLength(inputLength, filterSize, padding, stride, dilation) <==>
            if padding.PaddingSame? then w * stride < inputLength
            else w * stride + ((filterSize - 1) * dilation + 1) <= inputLength
  {
    var dilated := (filterSize - 1) * dilation + 1;
    var length := if padding.PaddingSame? then inputLength else inputLength - dilated + 1;
    DivAtLeast(length + stride - 1, stride, w + 1);
    NextMultiple(w, stride);
  }

  lemma OutputsFit(width: nat, kW: nat, stride: nat, w: nat)
    requires 0 < kW <= width && stride > 0
    ensures w < Outputs(width, kW, stride) <==> w * stride + kW <= width
  {
    DivAtLeast(width - kW, stride, w);
  }

  /** With half the kernel of padding on both sides an odd kernel gives the planned length
      for every stride; an even one does exactly when the stride does not divide
      the input length less one, and otherwise writes one frame too few. */
  lemma PaddedLength(wIn: nat, kW: nat, stride: nat)
    requires wIn > 0 && kW > 0 && stride > 0 && (kW % 2 == 0 ==> wIn > 1)
    ensures var pad := (kW - 1) / 2;
            var planned := ConvOutputLength(wIn, kW, PaddingSame, stride, 1);
            var written := Outputs(wIn + 2 * pad, kW, stride);
            (written == planned <==> kW % 2 == 1 || (wIn - 1) % stride != 0)
            && planned - 1 <= written <= planned
  {
    var pad := (kW - 1) / 2;
    var a := wIn - 1;
    FullTurnOne(a, stride);
    assert ConvOutputLength(wIn, kW, PaddingSame, stride, 1) == a / stride + 1;
    if kW % 2 == 1 {
      assert wIn + 2 * pad - kW == a;
    } else {
      assert wIn + 2 * pad - kW == a - 1;
      Predecessor(a, stride);
    }
  }

  lemma FullTurnOne(a: nat, stride: nat)
    requires stride > 0
    ensures (a + stride) / stride == a / stride + 1
  {
    NextMultiple(a / stride, stride);
    QuotientIs(a + stride, a / stride + 1, a % stride, stride);
  }

  lemma QuotientIs(x: int, q: int, r: int, d: int)
    requires x == q * d + r && 0 <= r < d
    ensures x / d == q
  {
    Ring.ModShift(q, r, d);
  }

  lemma Predecessor(a: nat, stride: nat)
    requires a > 0 && stride > 0
    ensures (a - 1) / stride == if a % stride == 0 then a / stride - 1 else a / stride
  {
    var q, r := a / stride, a % stride;
    if r == 0 {
      DivAtLeast(a, stride, 1);
      PreviousMultiple(q, stride);
      QuotientIs(a - 1, q - 1, stride - 1, stride);
    } else {
      QuotientIs(a - 1, q, r - 1, stride);
    }
  }

  lemma PreviousMultiple(q: int, stride: int)
    ensures (q - 1) * stride == q * stride - stride
  {
  }

  // ---- the accelerator --------------------------------------------------------------------------

  /** Start of row k in a buffer of rows. */
  function RowAt(co: nat, taps: nat): nat { co * taps }

  lemma RowInside(k: nat, n: nat, width: nat)
    requires k < n
    ensures RowAt(k, width) + width <= RowAt(n, width)
  {
    AtMost(k + 1, n, width);
    NextMultiple(k, width);
  }

  lemma RowSum(a: nat, b: nat, width: nat)
    ensures RowAt(a + b, width) == RowAt(a, width) + RowAt(b, width)
  {
  }

  lemma NoRows(width: nat)
    ensures RowAt(0, width) == 0
  {
  }

  lemma NextRow(k: nat, width: nat)
    ensures RowAt(k + 1, width) == RowAt(k, width) + width
  {
  }

  lemma OneRow(width: nat)
    ensures RowAt(1, width) == width
  {
  }

  lemma RowUpTo(a: nat, b: nat, width: nat)
    requires a <= b
    ensures RowAt(a, width) <= RowAt(b, width)
  {
    AtMost(a, b, width);
  }

  lemma AtMost(a: nat, b: nat, c: nat)
    requires a <= b
    ensures a * c <= b * c
  {
  }

  lemma TapsAtMost(kW: nat, cIn: nat)
    requires kW <= 255 && cIn <= 255
    ensures RowAt(kW, cIn) <= 255 * 255
  {
    AtMost(kW, 255, cIn);
  }

  /** The weight array holds the filter's rows one after the other. */
  ghost predicate Laid(wt: seq<int8>, filter: Filter) {
    filter.Valid() && forall co :: 0 <= co < filter.Channels() ==>
      RowAt(co, filter.taps) + filter.taps <= |wt|
      && wt[RowAt(co, filter.taps)..RowAt(co, filter.taps) + filter.taps] == filter.weights[co]
  }

  /** The bytes of a buffer from a place on. */
  function Window(src: seq<int8>, at: nat, taps: nat): (window: seq<int8>)
    requires at + taps <= |src|
    ensures |window| == taps
  {
    src[at..at + taps]
  }

  lemma WindowAt(src: seq<int8>, at: nat, taps: nat, k: nat)
    requires at + taps <= |src| && k < taps
    ensures Window(src, at, taps)[k] == src[at + k]
  {
  }

  /** Partial sums of a window stay within the accumulator. */
  lemma PartialSum(a: seq<int8>, b: seq<int8>, t: nat, bias: int)
    requires |a| == |b| <= 255 * 255 && t < |a| && -HALF_RANGE <= bias <= HALF_RANGE
    ensures Dot(a[..t + 1], b[..t + 1]) == Dot(a[..t], b[..t]) + Product(a[t], b[t])
    ensures -TWO31 <= bias + Dot(a[..t + 1], b[..t + 1]) < TWO31
  {
    assert a[..t + 1][..t] == a[..t] && b[..t + 1][..t] == b[..t];
    DotBound(a[..t + 1], b[..t + 1]);
  }

  /** The two inner loops: every value the accumulator takes is an int32. */
  method Accumulate(src: array<int8>, wt: array<int8>, first: nat, co: nat, kW: nat, cIn: nat, bias: int32)
    returns (acc: int32)
    requires RowAt(first, cIn) + RowAt(kW, cIn) <= src.Length
    requires RowAt(co, RowAt(kW, cIn)) + RowAt(kW, cIn) <= wt.Length
    requires RowAt(kW, cIn) <= 255 * 255 && -HALF_RANGE <= bias <= HALF_RANGE
    ensures acc == bias + Dot(Window(src[..], RowAt(first, cIn), RowAt(kW, cIn)),
                              Window(wt[..], RowAt(co, RowAt(kW, cIn)), RowAt(kW, cIn)))
  {
    ghost var taps := RowAt(kW, cIn);
    ghost var a, b := Window(src[..], RowAt(first, cIn), taps), Window(wt[..], RowAt(co, taps), taps);
    acc := bias;
    var k := 0;
    NoRows(cIn);
    hide RowAt, Window;
    assert Dot(a[..0], b[..0]) == 0;
    hide Dot;
    while k < kW
      invariant 0 <= k <= kW && RowAt(k, cIn) <= taps
      invariant acc == bias + Dot(a[..RowAt(k, cIn)], b[..RowAt(k, cIn)])
    {
      var ci := 0;
      RowInside(k, kW, cIn);
      while ci < cIn
        invariant 0 <= ci <= cIn && RowAt(k, cIn) + ci <= taps
        invariant acc == bias + Dot(a[..RowAt(k, cIn) + ci], b[..RowAt(k, cIn) + ci])
      {
        RowSum(first, k, cIn);
        PartialSum(a, b, RowAt(k, cIn) + ci, bias);
        var s, weight := src[RowAt(first + k, cIn) + ci], wt[RowAt(co, RowAt(kW, cIn)) + RowAt(k, cIn) + ci];
        WindowAt(src[..], RowAt(first, cIn), taps, RowAt(k, cIn) + ci);
        WindowAt(wt[..], RowAt(co, taps), taps, RowAt(k, cIn) + ci);
        acc := acc + Product(s, weight);
        ci := ci + 1;
      }
      NextRow(k, cIn);
      k := k + 1;
    }
    assert a[..taps] == a && b[..taps] == b;
  }

  /** First input byte of the window of output position w. */
  function At(w: nat, stride: nat, cIn: nat): nat { RowAt(w * stride, cIn) }

  /** What the accelerator writes for one window. */
  function Cells(src: seq<int8>, filter: Filter, bias: seq<int32>, shift: seq<nat>, at: nat): (frame: seq<int8>)
    requires filter.Valid() && at + filter.taps <= |src|
    requires filter.Channels() <= |bias| && filter.Channels() <= |shift|
    ensures |frame| == filter.Channels()
  {
    seq(filter.Channels(), co requires 0 <= co < filter.Channels() =>
      Requantise(bias[co] + Dot(Window(src, at, filter.taps), filter.weights[co]), shift[co]))
  }

  lemma CellAt(src: seq<int8>, filter: Filter, bias: seq<int32>, shift: seq<nat>, at: nat, co: nat)
    requires filter.Valid() && at + filter.taps <= |src| && co < filter.Channels()
    requires filter.Channels() <= |bias| && filter.Channels() <= |shift|
    ensures Cells(src, filter, bias, shift, at)[co]
         == Requantise(bias[co] + Dot(Window(src, at, filter.taps), filter.weights[co]), shift[co])
  {
  }

  lemma LaidAt(wt: seq<int8>, filter: Filter, co: nat)
    requires Laid(wt, filter) && co < filter.Channels()
    ensures RowAt(co, filter.taps) + filter.taps <= |wt|
    ensures Window(wt, RowAt(co, filter.taps), filter.taps) == filter.weights[co]
  {
  }

  /** The frames of the first n windows, one after the other. */
  function Convolved(src: seq<int8>, filter: Filter, bias: seq<int32>, shift: seq<nat>, cIn: nat, stride: nat, n: nat)
    : (frames: seq<int8>)
    requires filter.Valid() && filter.Channels() <= |bias| && filter.Channels() <= |shift|
    requires forall w :: 0 <= w < n ==> At(w, stride, cIn) + filter.taps <= |src|
    ensures |frames| == RowAt(n, filter.Channels())
  {
    if n == 0 then []
    else
      NextMultiple(n - 1, filter.Channels());
      Convolved(src, filter, bias, shift, cIn, stride, n - 1) + Cells(src, filter, bias, shift, At(n - 1, stride, cIn))
  }

  lemma NoneConvolved(src: seq<int8>, filter: Filter, bias: seq<int32>, shift: seq<nat>, cIn: nat, stride: nat)
    requires filter.Valid() && filter.Channels() <= |bias| && filter.Channels() <= |shift|
    ensures Convolved(src, filter, bias, shift, cIn, stride, 0) == []
  {
  }

  lemma NextConvolved(src: seq<int8>, filter: Filter, bias: seq<int32>, shift: seq<nat>, cIn: nat, stride: nat, n: nat)
    requires filter.Valid() && filter.Channels() <= |bias| && filter.Channels() <= |shift|
    requires forall w :: 0 <= w < n + 1 ==> At(w, stride, cIn) + filter.taps <= |src|
    ensures Convolved(src, filter, bias, shift, cIn, stride, n + 1)
         == Convolved(src, filter, bias, shift, cIn, stride, n) + Cells(src, filter, bias, shift, At(n, stride, cIn))
  {
  }

  /** The channel loop: one output frame. */
  method ConvolveWindow(src: array<int8>, wt: array<int8>, dst: array<int8>, bias32: array<int32>, shift: array<nat>,
                        cIn: nat, cOut: nat, kW: nat, first: nat, at: nat, ghost filter: Filter)
    requires cIn <= 255 && kW <= 255
    requires Laid(wt[..], filter) && filter.taps == RowAt(kW, cIn) && filter.Channels() == cOut
    requires RowAt(first, cIn) + filter.taps <= src.Length && at + cOut <= dst.Length
    requires cOut <= bias32.Length && cOut <= shift.Length && dst != src && dst != wt
    requires forall co :: 0 <= co < cOut ==> -HALF_RANGE <= bias32[co] <= HALF_RANGE
    modifies dst
    ensures dst[..] == old(dst[..at]) + Cells(src[..], filter, bias32[..], shift[..], RowAt(first, cIn))
               + old(dst[at + cOut..])
  {
    hide RowAt, Dot, Requantise, Cells;
    ghost var frame := Cells(src[..], filter, bias32[..], shift[..], RowAt(first, cIn));
    TapsAtMost(kW, cIn);
    var co := 0;
    while co < cOut
      invariant 0 <= co <= cOut
      invariant dst[..at] == old(dst[..at]) && dst[at..at + co] == frame[..co]
      invariant dst[at + cOut..] == old(dst[at + cOut..])
    {
      LaidAt(wt[..], filter, co);
      var acc := Accumulate(src, wt, first, co, kW, cIn, bias32[co]);
      CellAt(src[..], filter, bias32[..], shift[..], RowAt(first, cIn), co);
      dst[at + co] := Requantise(acc, shift[co]);
      co := co + 1;
    }
    assert dst[..] == dst[..at] + dst[at..at + cOut] + dst[at + cOut..];
  }

  lemma Beyond(now: seq<int8>, done: seq<int8>, before: seq<int8>, a: nat, b: nat)
    requires a == |done| && a <= b <= |before| && now == done + before[a..]
    ensures |now| == |before| && now[..a] == done && now[b..] == before[b..]
  {
  }

  /** The accelerator, by the loops of its software reference. */
  method AccelConv1d(src: array<int8>, wt: array<int8>, dst: array<int8>, bias32: array<int32>, shift: array<nat>,
                     cIn: nat, cOut: nat, kW: nat, stride: nat, width: nat, ghost filter: Filter)
    requires 0 < cIn <= 255 && 0 < kW <= 255 && kW <= width && stride > 0
    requires Laid(wt[..], filter) && filter.taps == RowAt(kW, cIn) && filter.Channels() == cOut
    requires filter.Valid() && RowAt(Outputs(width, kW, stride), cOut) <= dst.Length
    requires cOut <= bias32.Length && cOut <= shift.Length && dst != src && dst != wt
    requires forall co :: 0 <= co < cOut ==> -HALF_RANGE <= bias32[co] <= HALF_RANGE
    requires forall w :: 0 <= w < Outputs(width, kW, stride) ==> At(w, stride, cIn) + filter.taps <= src.Length
    modifies dst
    ensures dst[..] == Convolved(src[..], filter, bias32[..], shift[..], cIn, stride, Outputs(width, kW, stride))
                       + old(dst[RowAt(Outputs(width, kW, stride), cOut)..])
  {
    hide Laid, Cells, Convolved, RowAt;
    var wOut := (width - kW) / stride + 1;
    var w := 0;
    assert Convolved(src[..], filter, bias32[..], shift[..], cIn, stride, 0) == [] by {
      NoneConvolved(src[..], filter, bias32[..], shift[..], cIn, stride);
    }
    while w < wOut
      invariant 0 <= w <= wOut && RowAt(w, cOut) <= RowAt(wOut, cOut)
      invariant dst[..] == Convolved(src[..], filter, bias32[..], shift[..], cIn, stride, w)
                 + old(dst[..])[RowAt(w, cOut)..]
    {
      NextRow(w, cOut);
      RowUpTo(w + 1, wOut, cOut);
      ghost var was, done := dst[..], Convolved(src[..], filter, bias32[..], shift[..], cIn, stride, w);
      assert At(w, stride, cIn) + filter.taps <= src.Length;
      ConvolveWindow(src, wt, dst, bias32, shift, cIn, cOut, kW, w * stride, RowAt(w, cOut), filter);
      NextConvolved(src[..], filter, bias32[..], shift[..], cIn, stride, w);
      Beyond(was, done, old(dst[..]), RowAt(w, cOut), RowAt(w + 1, cOut));
      w := w + 1;
    }
  }

  // ---- the layer -----------------------------------------------------------------------------------

  /** The convolution the layer stands for: frames outside the input count as zero. */
  function FrameSum(input: seq<int8>, cIn: nat, wIn: nat, position: int, row: seq<int8>): int
    requires RowAt(wIn, cIn) <= |input| && |row| == cIn
  {
    if 0 <= position < wIn then
      RowInside(position, wIn, cIn);
      Dot(Window(input, RowAt(position, cIn), cIn), row)
    else 0
  }

  function SameSum(input: seq<int8>, cIn: nat, wIn: nat, from: int, row: seq<int8>, k: nat): int
    requires RowAt(wIn, cIn) <= |input| && RowAt(k, cIn) <= |row|
  {
    if k == 0 then 0
    else
      RowInside(k - 1, k, cIn);
      SameSum(input, cIn, wIn, from, row, k - 1)
      + FrameSum(input, cIn, wIn, from + k - 1, Window(row, RowAt(k - 1, cIn), cIn))
  }

  /** The input between margins of zero bytes. */
  function Padded(input: seq<int8>, margin: nat): (padded: seq<int8>)
    ensures |padded| == margin + |input| + margin
  {
    Zeros(margin) + input + Zeros(margin)
  }

  lemma {:induction false} DotZero(a: seq<int8>, b: seq<int8>)
    requires |a| == |b| && forall i :: 0 <= i < |a| ==> a[i] == 0
    ensures Dot(a, b) == 0
  {
    if |a| > 0 {
      DotZero(a[..|a| - 1], b[..|b| - 1]);
    }
  }

  lemma Middle(input: seq<int8>, margin: nat, at: nat, n: nat)
    requires margin <= at && at + n <= margin + |input|
    ensures Window(Padded(input, margin), at, n) == Window(input, at - margin, n)
  {
  }

  lemma Margin(input: seq<int8>, margin: nat, at: nat, row: seq<int8>)
    requires at + |row| <= margin || margin + |input| <= at
    requires at + |row| <= |Padded(input, margin)|
    ensures Dot(Window(Padded(input, margin), at, |row|), row) == 0
  {
    DotZero(Window(Padded(input, margin), at, |row|), row);
  }

  /** One frame of the padded input. */
  lemma PaddedFrame(input: seq<int8>, cIn: nat, wIn: nat, pad: nat, q: nat, row: seq<int8>)
    requires |input| == RowAt(wIn, cIn) && |row| == cIn && q < wIn + 2 * pad
    ensures RowAt(q, cIn) + cIn <= |Padded(input, RowAt(pad, cIn))|
    ensures Dot(Window(Padded(input, RowAt(pad, cIn)), RowAt(q, cIn), cIn), row)
         == FrameSum(input, cIn, wIn, q - pad, row)
  {
    hide RowAt, Dot, Padded, Window;
    RowSum(wIn + pad, pad, cIn);
    RowSum(wIn, pad, cIn);
    RowInside(q, wIn + 2 * pad, cIn);
    if q < pad {
      RowInside(q, pad, cIn);
      Margin(input, RowAt(pad, cIn), RowAt(q, cIn), row);
    } else {
      RowSum(q - pad, pad, cIn);
      if q < pad + wIn {
        RowInside(q - pad, wIn, cIn);
        Middle(input, RowAt(pad, cIn), RowAt(q, cIn), cIn);
      } else {
        RowSum(q - pad - wIn, wIn, cIn);
        Margin(input, RowAt(pad, cIn), RowAt(q, cIn), row);
      }
    }
  }

  lemma DotSplit(p: seq<int8>, at: nat, n: nat, row: seq<int8>)
    requires at + |row| <= |p| && n <= |row|
    ensures Dot(Window(p, at, |row|), row)
         == Dot(Window(p, at, n), row[..n]) + Dot(Window(p, at + n, |row| - n), Window(row, n, |row| - n))
  {
    hide Window, Dot;
    WindowHalves(p, at, n, |row|);
    RowHalves(row, n);
    DotHalves(Window(p, at, |row|), row, n);
  }

  lemma DotHalves(a: seq<int8>, b: seq<int8>, n: nat)
    requires |a| == |b| && n <= |a|
    ensures Dot(a, b) == Dot(a[..n], b[..n]) + Dot(a[n..], b[n..])
  {
    hide Dot;
    DotAppend(a[..n], b[..n], a[n..], b[n..]);
    assert a == a[..n] + a[n..] && b == b[..n] + b[n..];
  }

  lemma RowHalves(row: seq<int8>, n: nat)
    requires n <= |row|
    ensures Window(row, n, |row| - n) == row[n..]
  {
  }

  lemma WindowHalves(p: seq<int8>, at: nat, n: nat, m: nat)
    requires at + m <= |p| && n <= m
    ensures Window(p, at, m)[..n] == Window(p, at, n) && Window(p, at, m)[n..] == Window(p, at + n, m - n)
  {
  }

  /** A window of the padded input sums to the zero-extended sum, frame by frame. */
  lemma {:induction false} PaddedWindow(input: seq<int8>, cIn: nat, wIn: nat, pad: nat,
                                   first: nat, row: seq<int8>, k: nat)
    requires |input| == RowAt(wIn, cIn) && first + k <= wIn + 2 * pad && RowAt(k, cIn) == |row|
    ensures RowAt(first, cIn) + |row| <= |Padded(input, RowAt(pad, cIn))|
    ensures Dot(Window(Padded(input, RowAt(pad, cIn)), RowAt(first, cIn), |row|), row)
         == SameSum(input, cIn, wIn, first - pad, row, k)
    decreases k
  {
    hide RowAt, FrameSum, Padded, Window, Dot;
    var p := Padded(input, RowAt(pad, cIn));
    RowSum(wIn + pad, pad, cIn);
    RowSum(wIn, pad, cIn);
    if k == 0 {
      NoRows(cIn);
      RowUpTo(first, wIn + 2 * pad, cIn);
      DotZero(Window(p, RowAt(first, cIn), 0), row);
    } else {
      var shorter, at := RowAt(k - 1, cIn), RowAt(first, cIn);
      RowInside(k - 1, k, cIn);
      RowSum(k - 1, 1, cIn);
      OneRow(cIn);
      RowSum(first, k - 1, cIn);
      PaddedWindow(input, cIn, wIn, pad, first, row[..shorter], k - 1);
      PaddedFrame(input, cIn, wIn, pad, first + k - 1, Window(row, shorter, cIn));
      DotSplit(p, at, shorter, row);
      SamePrefix(input, cIn, wIn, first - pad, row, shorter, k - 1);
    }
  }

  lemma {:induction false} SamePrefix(input: seq<int8>, cIn: nat, wIn: nat, from: int, row: seq<int8>, n: nat, k: nat)
    requires RowAt(wIn, cIn) <= |input| && RowAt(k, cIn) <= n <= |row|
    ensures SameSum(input, cIn, wIn, from, row[..n], k) == SameSum(input, cIn, wIn, from, row, k)
    decreases k
  {
    if k > 0 {
      hide RowAt, FrameSum;
      RowInside(k - 1, k, cIn);
      SamePrefix(input, cIn, wIn, from, row, n, k - 1);
      assert Window(row[..n], RowAt(k - 1, cIn), cIn) == Window(row, RowAt(k - 1, cIn), cIn);
    }
  }

  /** A layer as the driver sees it.  The kernel is one row high. */
  datatype Layer = Layer(bitwidth: nat, height: nat, dilationW: nat, dilationH: nat,
                         cIn: nat, kW: nat, stride: nat, pad: nat, filter: Filter)
  {
    /** The ranges of the driver's 8-bit parameters, and shifts that keep the folded bias
        within a quarter of the accumulator. */
    ghost predicate Valid() {
      && filter.Valid() && filter.taps == RowAt(kW, cIn)
      && 0 < cIn <= 255 && 0 < kW <= 255 && 0 < stride <= 255
      && forall c :: 0 <= c < filter.Channels() ==> filter.lshift[c] <= 22 && filter.rshift[c] <= 29
    }

    /** One output frame of the zero-padded convolution. */
    ghost function Frame(input: seq<int8>, wIn: nat, w: nat): (frame: seq<int8>)
      requires Valid() && RowAt(wIn, cIn) <= |input|
      ensures |frame| == filter.Channels()
    {
      seq(filter.Channels(), co requires 0 <= co < filter.Channels() =>
        Requantise(SameSum(input, cIn, wIn, w * stride - pad, filter.weights[co], kW) + filter.Bias32(co),
                   filter.rshift[co]))
    }

    /** Its first n output frames. */
    ghost function Output(input: seq<int8>, wIn: nat, n: nat): (frames: seq<int8>)
      requires Valid() && RowAt(wIn, cIn) <= |input|
    {
      if n == 0 then [] else Output(input, wIn, n - 1) + Frame(input, wIn, n - 1)
    }

    /** The value of output w, channel co, before it is rounded: the zero-padded sum and the
        shifted bias. */
    ghost function Exact(input: seq<int8>, wIn: nat, w: nat, co: nat): int
      requires Valid() && RowAt(wIn, cIn) <= |input| && co < filter.Channels()
    {
      WindowTaps(input, cIn, wIn, w * stride - pad, filter.weights[co], kW)
      + filter.bias8[co] * Pow2(filter.lshift[co])
    }

    ghost predicate RoundedAt(input: seq<int8>, wIn: nat, w: nat, co: nat, out: seq<int8>)
      requires Valid() && RowAt(wIn, cIn) <= |input| && co < filter.Channels()
    {
      && 0 <= RowAt(w, filter.Channels()) + co < |out|
      && RoundsTo(out[RowAt(w, filter.Channels()) + co], Exact(input, wIn, w, co), Pow2(filter.rshift[co]))
    }

    /** The first n frames hold the exact values, rounded to the nearest with halves up and
        saturated to int8. */
    ghost predicate Rounded(input: seq<int8>, wIn: nat, n: nat, out: seq<int8>)
      requires Valid() && RowAt(wIn, cIn) <= |input|
    {
      forall w, co :: 0 <= w < n && 0 <= co < filter.Channels() ==> RoundedAt(input, wIn, w, co, out)
    }
  }

  lemma BiasFits(filter: Filter, c: nat)
    requires filter.Valid() && c < filter.Channels() && filter.lshift[c] <= 22 && filter.rshift[c] <= 29
    ensures -HALF_RANGE <= filter.Bias32(c) <= HALF_RANGE
  {
    Pow2Monotone(filter.lshift[c], 22);
    Pow2Monotone(filter.rshift[c], 29);
    assert Pow2(11) == 2048 && Pow2(7) == 128;
    Pow2Sum(11, 11);
    Pow2Sum(22, 7);
    Scaled(filter.bias8[c], Pow2(filter.lshift[c]));
  }

  lemma Scaled(b: int8, m: nat)
    ensures -128 * m <= Product(b, m) <= 128 * m
  {
    var x: int := b;
    AtMost(x + 128, 256, m);
    AtMost(0, x + 128, m);
    assert (x + 128) * m == x * m + 128 * m;
  }

  /** Adding half the divisor before the shift rounds to the nearest integer, a half up. */
  lemma RoundHalfUp(x: int, r: nat, q: int)
    ensures q == (x + Pow2(r) / 2) / Pow2(r) <==> -Pow2(r) <= 2 * (x - q * Pow2(r)) < Pow2(r)
  {
    PowerHalves(r);
    NearestQuotient(x, Pow2(r), q);
  }

  // ---- the outputs, byte by byte -----------------------------------------------------------------

  /** Channel ci of input frame `position`; outside the input there is zero. */
  function Tap(input: seq<int8>, cIn: nat, wIn: nat, position: int, ci: nat): int8
    requires RowAt(wIn, cIn) <= |input| && ci < cIn
  {
    if 0 <= position < wIn then
      RowInside(position, wIn, cIn);
      input[RowAt(position, cIn) + ci]
    else 0
  }

  /** Weighted sum of the first n channels of one input frame. */
  function FrameTaps(input: seq<int8>, cIn: nat, wIn: nat, position: int, row: seq<int8>, n: nat): int
    requires RowAt(wIn, cIn) <= |input| && n <= cIn && n <= |row|
  {
    if n == 0 then 0
    else
      var x: int, weight: int := Tap(input, cIn, wIn, position, n - 1), row[n - 1];
      FrameTaps(input, cIn, wIn, position, row, n - 1) + x * weight
  }

  /** Weighted sum of the k input frames from position `from` on. */
  function WindowTaps(input: seq<int8>, cIn: nat, wIn: nat, from: int, row: seq<int8>, k: nat): int
    requires RowAt(wIn, cIn) <= |input| && RowAt(k, cIn) <= |row|
  {
    if k == 0 then 0
    else
      RowInside(k - 1, k, cIn);
      WindowTaps(input, cIn, wIn, from, row, k - 1)
      + FrameTaps(input, cIn, wIn, from + k - 1, Window(row, RowAt(k - 1, cIn), cIn), cIn)
  }

  lemma {:induction false} DotTaps(input: seq<int8>, cIn: nat, wIn: nat, position: int, row: seq<int8>, n: nat)
    requires RowAt(wIn, cIn) <= |input| && n <= cIn == |row| && 0 <= position < wIn
    ensures RowAt(position, cIn) + cIn <= |input|
    ensures Dot(Window(input, RowAt(position, cIn), cIn)[..n], row[..n])
         == FrameTaps(input, cIn, wIn, position, row, n)
  {
    RowInside(position, wIn, cIn);
    if n > 0 {
      hide RowAt;
      var a := Window(input, RowAt(position, cIn), cIn);
      DotTaps(input, cIn, wIn, position, row, n - 1);
      assert a[..n][..n - 1] == a[..n - 1] && row[..n][..n - 1] == row[..n - 1];
      assert a[n - 1] == Tap(input, cIn, wIn, position, n - 1);
    }
  }

  lemma {:induction false} NoTaps(input: seq<int8>, cIn: nat, wIn: nat, position: int, row: seq<int8>, n: nat)
    requires RowAt(wIn, cIn) <= |input| && n <= cIn && n <= |row| && !(0 <= position < wIn)
    ensures FrameTaps(input, cIn, wIn, position, row, n) == 0
  {
    if n > 0 {
      NoTaps(input, cIn, wIn, position, row, n - 1);
    }
  }

  lemma FrameSumTaps(input: seq<int8>, cIn: nat, wIn: nat, position: int, row: seq<int8>)
    requires RowAt(wIn, cIn) <= |input| && |row| == cIn
    ensures FrameSum(input, cIn, wIn, position, row) == FrameTaps(input, cIn, wIn, position, row, cIn)
  {
    if 0 <= position < wIn {
      hide Dot, RowAt;
      DotTaps(input, cIn, wIn, position, row, cIn);
      var a := Window(input, RowAt(position, cIn), cIn);
      assert a[..cIn] == a && row[..cIn] == row;
    } else {
      NoTaps(input, cIn, wIn, position, row, cIn);
    }
  }

  lemma {:induction false} SameSumTaps(input: seq<int8>, cIn: nat, wIn: nat, from: int, row: seq<int8>, k: nat)
    requires RowAt(wIn, cIn) <= |input| && RowAt(k, cIn) <= |row|
    ensures SameSum(input, cIn, wIn, from, row, k) == WindowTaps(input, cIn, wIn, from, row, k)
  {
    if k > 0 {
      hide RowAt, FrameSum, FrameTaps, Window;
      RowInside(k - 1, k, cIn);
      SameSumTaps(input, cIn, wIn, from, row, k - 1);
      FrameSumTaps(input, cIn, wIn, from + k - 1, Window(row, RowAt(k - 1, cIn), cIn));
    }
  }

  lemma FrameRounds(L: Layer, input: seq<int8>, wIn: nat, w: nat, co: nat)
    requires L.Valid() && RowAt(wIn, L.cIn) <= |input| && co < L.filter.Channels()
    ensures RoundsTo(L.Frame(input, wIn, w)[co], L.Exact(input, wIn, w, co), Pow2(L.filter.rshift[co]))
  {
    hide RowAt, Pow2, RoundsTo, Requantise, SameSum, WindowTaps;
    SameSumTaps(input, L.cIn, wIn, w * L.stride - L.pad, L.filter.weights[co], L.kW);
    RequantiseRounds(L.Exact(input, wIn, w, co), L.filter.rshift[co], L.Frame(input, wIn, w)[co]);
  }

  /** Every output byte is the exact value of its window and channel, rounded and saturated. */
  lemma {:induction false} OutputRounds(L: Layer, input: seq<int8>, wIn: nat, n: nat)
    requires L.Valid() && RowAt(wIn, L.cIn) <= |input|
    ensures |L.Output(input, wIn, n)| == RowAt(n, L.filter.Channels())
    ensures L.Rounded(input, wIn, n, L.Output(input, wIn, n))
    decreases n
  {
    hide RoundsTo, RowAt, Layer.Frame, Layer.Exact;
    var ch := L.filter.Channels();
    if n > 0 {
      OutputRounds(L, input, wIn, n - 1);
      NextRow(n - 1, ch);
      var before, frame := L.Output(input, wIn, n - 1), L.Frame(input, wIn, n - 1);
      hide Layer.Output;
      var last := n - 1;
      RoundedPrefix(L, input, wIn, last, before, frame);
      forall co | 0 <= co < ch ensures L.RoundedAt(input, wIn, last, co, before + frame) {
        FrameRounds(L, input, wIn, last, co);
      }
    } else {
      NoRows(ch);
    }
  }

  lemma RoundedPrefix(L: Layer, input: seq<int8>, wIn: nat, n: nat, out: seq<int8>, rest: seq<int8>)
    requires L.Valid() && RowAt(wIn, L.cIn) <= |input| && L.Rounded(input, wIn, n, out)
    ensures L.Rounded(input, wIn, n, out + rest)
  {
    hide RoundsTo, RowAt;
    forall w, co | 0 <= w < n && 0 <= co < L.filter.Channels()
      ensures L.RoundedAt(input, wIn, w, co, out + rest)
    {
      assert L.RoundedAt(input, wIn, w, co, out);
    }
  }

  lemma CellsAreFrame(L: Layer, input: seq<int8>, wIn: nat, src: seq<int8>, bias: seq<int32>, shift: seq<nat>, w: nat)
    requires L.Valid() && |input| == RowAt(wIn, L.cIn) && Padded(input, RowAt(L.pad, L.cIn)) <= src
    requires Folded(L.filter, bias, shift) && w * L.stride + L.kW <= wIn + 2 * L.pad
    ensures At(w, L.stride, L.cIn) + L.filter.taps <= |src|
    ensures Cells(src, L.filter, bias, shift, At(w, L.stride, L.cIn)) == L.Frame(input, wIn, w)
  {
    hide RowAt, Padded, Requantise, SameSum, Dot;
    var at, first := At(w, L.stride, L.cIn), w * L.stride;
    var p := Padded(input, RowAt(L.pad, L.cIn));
    forall co | 0 <= co < L.filter.Channels()
      ensures at + L.filter.taps <= |p| && Window(src, at, L.filter.taps) == Window(p, at, L.filter.taps)
      ensures Dot(Window(p, at, L.filter.taps), L.filter.weights[co])
           == SameSum(input, L.cIn, wIn, first - L.pad, L.filter.weights[co], L.kW)
    {
      PaddedWindow(input, L.cIn, wIn, L.pad, first, L.filter.weights[co], L.kW);
    }
    WindowEnd(L, input, wIn, w);
  }

  lemma WindowEnd(L: Layer, input: seq<int8>, wIn: nat, w: nat)
    requires L.Valid() && |input| == RowAt(wIn, L.cIn) && w * L.stride + L.kW <= wIn + 2 * L.pad
    ensures At(w, L.stride, L.cIn) + L.filter.taps <= |Padded(input, RowAt(L.pad, L.cIn))|
  {
    hide RowAt;
    RowSum(w * L.stride, L.kW, L.cIn);
    RowUpTo(w * L.stride + L.kW, wIn + 2 * L.pad, L.cIn);
    RowSum(wIn + L.pad, L.pad, L.cIn);
    RowSum(wIn, L.pad, L.cIn);
  }

  /** The arrays hold the folded biases and the shifts of the filter. */
  ghost predicate Folded(filter: Filter, bias: seq<int32>, shift: seq<nat>) {
    && filter.Valid() && filter.Channels() <= |bias| && filter.Channels() <= |shift|
    && forall c :: 0 <= c < filter.Channels() ==> bias[c] == filter.Bias32(c) && shift[c] == filter.rshift[c]
  }

  /** The valid convolution of a padded input is the zero-padded convolution. */
  lemma {:induction false} PadThenValid(L: Layer, input: seq<int8>, wIn: nat, src: seq<int8>,
                                        bias: seq<int32>, shift: seq<nat>, n: nat)
    requires L.Valid() && |input| == RowAt(wIn, L.cIn) && Padded(input, RowAt(L.pad, L.cIn)) <= src
    requires Folded(L.filter, bias, shift) && L.kW <= wIn + 2 * L.pad
    requires n <= Outputs(wIn + 2 * L.pad, L.kW, L.stride)
    ensures forall w :: 0 <= w < n ==> At(w, L.stride, L.cIn) + L.filter.taps <= |src|
    ensures Convolved(src, L.filter, bias, shift, L.cIn, L.stride, n) == L.Output(input, wIn, n)
    decreases n
  {
    hide Cells, Padded, At, RowAt;
    forall w | 0 <= w < n
      ensures At(w, L.stride, L.cIn) + L.filter.taps <= |src|
      ensures Cells(src, L.filter, bias, shift, At(w, L.stride, L.cIn)) == L.Frame(input, wIn, w)
    {
      OutputsFit(wIn + 2 * L.pad, L.kW, L.stride, w);
      CellsAreFrame(L, input, wIn, src, bias, shift, w);
    }
    if n > 0 {
      PadThenValid(L, input, wIn, src, bias, shift, n - 1);
    }
  }

  /** Without padding a frame is the filter applied to its window, as in the streaming engine. */
  lemma UnpaddedFrame(L: Layer, input: seq<int8>, wIn: nat, w: nat)
    requires L.Valid() && |input| == RowAt(wIn, L.cIn) && L.pad == 0 && w * L.stride + L.kW <= wIn
    ensures At(w, L.stride, L.cIn) + L.filter.taps <= |input|
    ensures L.Frame(input, wIn, w) == L.filter.Apply(Window(input, At(w, L.stride, L.cIn), L.filter.taps))
  {
    hide RowAt, Requantise, SameSum, Dot;
    NoRows(L.cIn);
    assert Padded(input, 0) == input;
    WindowEnd(L, input, wIn, w);
    forall co | 0 <= co < L.filter.Channels()
      ensures Dot(Window(input, At(w, L.stride, L.cIn), L.filter.taps), L.filter.weights[co])
           == SameSum(input, L.cIn, wIn, w * L.stride - L.pad, L.filter.weights[co], L.kW)
    {
      PaddedWindow(input, L.cIn, wIn, L.pad, w * L.stride, L.filter.weights[co], L.kW);
    }
  }

  /** The driver's static scratch buffers. */
  class Driver {
    const bias32: array<int32>
    const shiftU8: array<nat>
    const padBuf: array<int8>

    ghost predicate Valid() {
      bias32.Length == MAX_CHOUT && shiftU8.Length == MAX_CHOUT && padBuf.Length == PAD_BUF_SIZE
    }

    constructor ()
      ensures Valid() && fresh(bias32) && fresh(shiftU8) && fresh(padBuf)
    {
      bias32 := new int32[MAX_CHOUT](_ => 0);
      shiftU8 := new nat[MAX_CHOUT](_ => 0);
      padBuf := new int8[PAD_BUF_SIZE](_ => 0);
    }

    method FoldBias(L: Layer)
      requires Valid() && L.Valid() && L.filter.Channels() <= MAX_CHOUT
      modifies bias32, shiftU8
      ensures Folded(L.filter, bias32[..], shiftU8[..])
      ensures forall c :: 0 <= c < L.filter.Channels() ==> -HALF_RANGE <= bias32[c] <= HALF_RANGE
      ensures forall c :: 0 <= c < L.filter.Channels() ==>
                var half := bias32[c] - L.filter.bias8[c] * Pow2(L.filter.lshift[c]);
                0 <= Pow2(L.filter.rshift[c]) - 2 * half <= 1
    {
      for c := 0 to L.filter.Channels()
        invariant forall d :: 0 <= d < c ==>
          bias32[d] == L.filter.Bias32(d) && shiftU8[d] == L.filter.rshift[d] && -HALF_RANGE <= bias32[d] <= HALF_RANGE
      {
        BiasFits(L.filter, c);
        var rnd := Pow2(L.filter.rshift[c]) / 2;
        bias32[c] := Product(L.filter.bias8[c], Pow2(L.filter.lshift[c])) + rnd;
        shiftU8[c] := L.filter.rshift[c];
      }
    }

    method Zero(at: nat, n: nat)
      requires at + n <= padBuf.Length
      modifies padBuf
      ensures padBuf[..] == old(padBuf[..at]) + Zeros(n) + old(padBuf[at + n..])
    {
      for i := 0 to n
        invariant padBuf[..at] == old(padBuf[..at]) && padBuf[at..at + i] == Zeros(n)[..i]
        invariant padBuf[at + n..] == old(padBuf[at + n..])
      {
        padBuf[at + i] := 0;
      }
      assert padBuf[..] == padBuf[..at] + padBuf[at..at + n] + padBuf[at + n..];
    }

    method Pad(input: array<int8>, margin: nat)
      requires margin + input.Length + margin <= padBuf.Length && input != padBuf
      modifies padBuf
      ensures Padded(input[..], margin) <= padBuf[..]
    {
      Zero(0, margin);
      Copy(padBuf, margin, input, 0, input.Length);
      ghost var left := padBuf[..margin + input.Length];
      assert left == Zeros(margin) + input[..];
      Zero(margin + input.Length, margin);
    }

    /** The fast path of the layer: taken exactly under its conditions, and then the
        output is the zero-padded convolution; otherwise nothing is written here. */
    method Conv2dRun(L: Layer, input: array<int8>, wIn: nat, weight: array<int8>, output: array<int8>)
      returns (accelerated: bool)
      requires Valid() && L.Valid() && Laid(weight[..], L.filter)
      requires input.Length == RowAt(wIn, L.cIn) && 0 < wIn && L.kW <= wIn + 2 * L.pad < 0x1_0000
      requires RowAt(Outputs(wIn + 2 * L.pad, L.kW, L.stride), L.filter.Channels()) <= output.Length
      requires input != padBuf && weight != padBuf && output != padBuf && output != input && output != weight
      modifies bias32, shiftU8, padBuf, output
      ensures accelerated <==>
              && L.bitwidth == 8 && L.height == 1 && L.dilationW == 1 && L.dilationH == 1
              && L.filter.Channels() <= 64 && (L.pad == 0 || RowAt(wIn + 2 * L.pad, L.cIn) <= 9216)
      ensures accelerated ==> L.Rounded(input[..], wIn, Outputs(wIn + 2 * L.pad, L.kW, L.stride), output[..])
      ensures var n := Outputs(wIn + 2 * L.pad, L.kW, L.stride);
              output[..] == if accelerated
                            then L.Output(input[..], wIn, n) + old(output[RowAt(n, L.filter.Channels())..])
                            else old(output[..])
    {
      accelerated := false;
      if L.bitwidth == 8 && L.height == 1 && L.dilationW == 1 && L.dilationH == 1 && L.filter.Channels() <= MAX_CHOUT {
        FoldBias(L);
        var width := wIn + 2 * L.pad;
        if L.pad == 0 {
          NoRows(L.cIn);
          assert Padded(input[..], 0) == input[..];
          Launch(L, input, wIn, input, weight, output);
          accelerated := true;
        } else if RowAt(width, L.cIn) <= PAD_BUF_SIZE {
          RowSum(wIn + L.pad, L.pad, L.cIn);
          RowSum(wIn, L.pad, L.cIn);
          Pad(input, RowAt(L.pad, L.cIn));
          Launch(L, input, wIn, padBuf, weight, output);
          accelerated := true;
        }
      }
    }

    /** The call of the accelerator, on the padded input. */
    method Launch(L: Layer, ghost input: array<int8>, wIn: nat, src: array<int8>,
                  weight: array<int8>, output: array<int8>)
      requires Valid() && L.Valid() && Laid(weight[..], L.filter) && Folded(L.filter, bias32[..], shiftU8[..])
      requires forall c :: 0 <= c < L.filter.Channels() ==> -HALF_RANGE <= bias32[c] <= HALF_RANGE
      requires input.Length == RowAt(wIn, L.cIn) && 0 < wIn && L.kW <= wIn + 2 * L.pad
      requires Padded(input[..], RowAt(L.pad, L.cIn)) <= src[..]
      requires RowAt(Outputs(wIn + 2 * L.pad, L.kW, L.stride), L.filter.Channels()) <= output.Length
      requires output != src && output != weight && output != input
      modifies output
      ensures var n := Outputs(wIn + 2 * L.pad, L.kW, L.stride);
              output[..] == L.Output(input[..], wIn, n) + old(output[RowAt(n, L.filter.Channels())..])
              && L.Rounded(input[..], wIn, n, output[..])
    {
      hide Laid, Padded, At, Convolved, Layer.Rounded;
      var n := Outputs(wIn + 2 * L.pad, L.kW, L.stride);
      PadThenValid(L, input[..], wIn, src[..], bias32[..], shiftU8[..], n);
      AccelConv1d(src, weight, output, bias32, shiftU8, L.cIn, L.filter.Channels(), L.kW, L.stride,
                  wIn + 2 * L.pad, L.filter);
      OutputRounds(L, input[..], wIn, n);
      RoundedPrefix(L, input[..], wIn, n, L.Output(input[..], wIn, n), old(output[RowAt(n, L.filter.Channels())..]));
    }
  }
}
