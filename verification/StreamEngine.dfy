/** The streaming engine: per-layer context frames, partial pool buffers and the
    average-pooling ring, so that a hop only computes new frames. */
module StreamEngine {
  import opened FixedPoint
  import opened StreamSpec
  import LayerMeaning
  import Ring

  // ---- layer primitives over the static buffers ------------------------------

  method ConvolveFrames(L: Filter, src: array<Frame>, nOut: nat, dst: array<Frame>)
    requires L.Valid() && L.taps % 3 == 0 && src != dst
    requires nOut + 2 <= src.Length && nOut <= dst.Length && Shaped(src[..nOut + 2], L.taps / 3)
    modifies dst
    ensures dst[..nOut] == Causal(L, src[..2], src[2..nOut + 2])
  {
    ghost var z := src[..2] + src[2..nOut + 2];
    assert z == src[..nOut + 2];
    for i := 0 to nOut
      invariant dst[..i] == Causal(L, src[..2], src[2..nOut + 2])[..i]
    {
      assert |z[i]| == |z[i + 1]| == |z[i + 2]| == L.taps / 3;
      dst[i] := L.Apply(src[i] + src[i + 1] + src[i + 2]);
    }
  }

  method ConvolveAudio(L: Filter, src: array<int8>, nOut: nat, dst: array<Frame>)
    requires L.Valid() && L.taps == SINC_CONTEXT + 1
    requires src.Length == SINC_CONTEXT + SINC_STRIDE * nOut && nOut <= dst.Length
    modifies dst
    ensures dst[..nOut] == Sinc(L, src[..])
  {
    for i := 0 to nOut
      invariant dst[..i] == Sinc(L, src[..])[..i]
    {
      assert src[..][SINC_STRIDE * i..SINC_STRIDE * i + L.taps] == src[SINC_STRIDE * i..SINC_STRIDE * i + L.taps];
      dst[i] := L.Apply(src[SINC_STRIDE * i..SINC_STRIDE * i + L.taps]);
    }
  }

  method ReluInplace(buf: array<Frame>, n: nat)
    requires n <= buf.Length
    modifies buf
    ensures buf[..n] == Relu(old(buf[..n]))
  {
    for i := 0 to n
      invariant buf[..i] == Relu(old(buf[..n]))[..i]
      invariant buf[i..n] == old(buf[i..n])
    {
      buf[i] := ReluFrame(buf[i]);
    }
  }

  method CausalConv1d(L: Filter, scratch: array<Frame>, ctx: array<Frame>, frames: array<Frame>,
                      n: nat, out: array<Frame>)
    requires L.Valid() && L.taps % 3 == 0 && ctx.Length == 2
    requires scratch != ctx && scratch != frames && scratch != out && out != ctx && out != frames
    requires n <= frames.Length && n + 2 <= scratch.Length && n <= out.Length
    requires Shaped(ctx[..], L.taps / 3) && Shaped(frames[..n], L.taps / 3)
    modifies scratch, out
    ensures out[..n] == Causal(L, ctx[..], frames[..n])
  {
    Copy(scratch, 0, ctx, 0, 2);
    Copy(scratch, 2, frames, 0, n);
    assert scratch[..2] == ctx[..] && scratch[2..n + 2] == frames[..n];
    assert scratch[..n + 2] == scratch[..2] + scratch[2..n + 2];
    ConvolveFrames(L, scratch, n, out);
  }

  method UpdateCtx2(ctx: array<Frame>, frames: array<Frame>, n: nat)
    requires ctx.Length == 2 && ctx != frames && n <= frames.Length
    modifies ctx
    ensures ctx[..] == LastTwo(old(ctx[..]), frames[..n])
  {
    if n >= 2 {
      ctx[0] := frames[n - 2];
      ctx[1] := frames[n - 1];
    } else if n == 1 {
      ctx[0] := ctx[1];
      ctx[1] := frames[0];
    }
  }

  method MaxpoolFrames(k: nat, ch: nat, src: array<Frame>, n: nat, nOut: nat, out: array<Frame>)
    requires k > 0 && src != out && n <= src.Length && Shaped(src[..n], ch)
    requires nOut == |Pool(k, ch, src[..n])| <= out.Length
    modifies out
    ensures out[..nOut] == Pool(k, ch, src[..n])
  {
    hide MaxFrame, Pool;
    var from := 0;
    assert Pool(k, ch, src[..n]) == [] + Pool(k, ch, src[..n]);
    ghost var whole := src[..n];
    ghost var rest := whole;
    for i := 0 to nOut
      invariant from <= n && rest == src[from..n] && Shaped(rest, ch)
      invariant nOut == i + |Pool(k, ch, rest)|
      invariant Pool(k, ch, whole) == out[..i] + Pool(k, ch, rest)
    {
      GroupThere(k, ch, rest);
      assert rest[..k] == src[from..from + k];
      out[i] := MaxFrame(src[from..from + k], ch);
      NextGroup(k, ch, rest, out[..i]);
      from, rest := from + k, rest[k..];
    }
    GroupsDone(k, ch, rest, out[..nOut]);
  }

  lemma GroupThere(k: nat, ch: nat, rest: seq<Frame>)
    requires k > 0 && Shaped(rest, ch) && |Pool(k, ch, rest)| > 0
    ensures k <= |rest|
  {
  }

  lemma GroupsDone(k: nat, ch: nat, rest: seq<Frame>, done: seq<Frame>)
    requires k > 0 && Shaped(rest, ch) && |Pool(k, ch, rest)| == 0
    ensures done + Pool(k, ch, rest) == done
  {
  }

  method MaxpoolValid(k: nat, ch: nat, src: array<Frame>, n: nat, out: array<Frame>) returns (nOut: nat)
    requires k > 0 && src != out && n <= src.Length && n / k <= out.Length && Shaped(src[..n], ch)
    modifies out
    ensures nOut == n / k == |Pool(k, ch, src[..n])|
    ensures out[..nOut] == Pool(k, ch, src[..n])
    ensures LayerMeaning.MaxPooled(out[..nOut], src[..n], k, ch)
  {
    hide LayerMeaning.MaxPooled;
    LayerMeaning.PoolMeans(k, ch, src[..n]);
    nOut := n / k;
    PoolLength(k, ch, src[..n]);
    if nOut == 0 {
      return;
    }
    MaxpoolFrames(k, ch, src, n, nOut, out);
  }

  lemma NextGroup(k: nat, ch: nat, rest: seq<Frame>, done: seq<Frame>)
    requires 0 < k <= |rest| && Shaped(rest, ch)
    ensures |Pool(k, ch, rest)| == 1 + |Pool(k, ch, rest[k..])|
    ensures done + Pool(k, ch, rest) == done + [MaxFrame(rest[..k], ch)] + Pool(k, ch, rest[k..])
  {
  }

  /** Prepends the frames held back, pools the complete groups and keeps the rest. */
  method PoolWithPartial(k: nat, ch: nat, partial: array<Frame>, partialN: nat,
                         frames: array<Frame>, n: nat, scratch: array<Frame>, out: array<Frame>)
    returns (nOut: nat, leftover: nat)
    requires k > 0 && partialN <= partial.Length && k - 1 <= partial.Length
    requires n <= frames.Length && partialN + n <= scratch.Length && (partialN + n) / k <= out.Length
    requires scratch != partial && scratch != frames && scratch != out && partial != frames && partial != out
             && out != frames
    requires Shaped(partial[..partialN], ch) && Shaped(frames[..n], ch)
    modifies partial, scratch, out
    ensures nOut == (partialN + n) / k && leftover < k
    ensures Shaped(old(partial[..partialN]) + frames[..n], ch)
    ensures out[..nOut] == Pool(k, ch, old(partial[..partialN]) + frames[..n])
    ensures partial[..leftover] == Leftover(k, old(partial[..partialN]) + frames[..n])
    ensures LayerMeaning.MaxPooled(out[..nOut], old(partial[..partialN]) + frames[..n], k, ch)
  {
    hide Pool, Leftover, LayerMeaning.MaxPooled;
    var total := partialN + n;
    Copy(scratch, 0, partial, 0, partialN);
    Copy(scratch, partialN, frames, 0, n);
    ghost var all := old(partial[..partialN]) + frames[..n];
    assert scratch[..total] == all;
    PoolLength(k, ch, all);
    LayerMeaning.PoolMeans(k, ch, all);
    LeftoverAt(k, all);
    nOut := total / k;
    leftover := total - nOut * k;
    if nOut > 0 {
      assert all[..nOut * k] == scratch[..nOut * k];
      WholeGroups(k, ch, all);
      var _ := MaxpoolValid(k, ch, scratch, nOut * k, out);
    }
    Copy(partial, 0, scratch, nOut * k, leftover);
    assert scratch[nOut * k..total] == all[nOut * k..];
  }

  /** Pooling ignores the frames that do not fill a group. */
  lemma {:induction false} WholeGroups(k: nat, ch: nat, xs: seq<Frame>)
    requires k > 0 && Shaped(xs, ch)
    ensures 0 <= |xs| / k * k <= |xs|
    ensures |xs| / k * k / k == |xs| / k
    ensures Pool(k, ch, xs[..|xs| / k * k]) == Pool(k, ch, xs)
    decreases |xs|
  {
    hide MaxFrame;
    LeftoverAt(k, xs);
    var w := |xs| / k * k;
    Ring.ModShift(|xs| / k, 0, k);
    if |xs| >= k {
      var first, rest := xs[..k], xs[k..];
      DivStep(|xs|, k);
      WholeGroups(k, ch, rest);
      assert w == |rest| / k * k + k;
      FirstGroup(k, ch, first, rest[..w - k]);
      FirstGroup(k, ch, first, rest);
      assert xs[..w] == first + rest[..w - k] && xs == first + rest;
    }
  }

  lemma FirstGroup(k: nat, ch: nat, first: seq<Frame>, rest: seq<Frame>)
    requires |first| == k > 0 && Shaped(first, ch) && Shaped(rest, ch)
    ensures Shaped(first + rest, ch)
    ensures Pool(k, ch, first + rest) == [MaxFrame(first, ch)] + Pool(k, ch, rest)
  {
    hide MaxFrame;
    assert (first + rest)[..k] == first && (first + rest)[k..] == rest;
  }

  // ---- the engine ----------------------------------------------------------------

  class Engine {
    const model: Model
    const audioRing: array<int8>
    const conv1Ctx: array<Frame>
    const conv2Ctx: array<Frame>
    const conv3Ctx: array<Frame>
    const conv4Ctx: array<Frame>
    const pool2Buf: array<Frame>
    var pool2N: nat
    const pool3Buf: array<Frame>
    var pool3N: nat
    const gapRing: array<Frame>
    var gapHead: nat
    var gapCount: nat
    var samplesPending: nat
    const sampleBuf: array<int8>

    ghost var processed: seq<int8>  // the audio of all complete hops
    ghost var net: Streams          // what every layer has output so far

    ghost predicate Layout()
    {
      && model.Valid()
      && audioRing.Length == SINC_CONTEXT && sampleBuf.Length == HOP && audioRing != sampleBuf
      && conv1Ctx.Length == conv2Ctx.Length == conv3Ctx.Length == conv4Ctx.Length == 2
      && pool2Buf.Length == 3 && pool3Buf.Length == 1 && gapRing.Length == N_GAP
      && conv1Ctx != conv2Ctx && conv1Ctx != conv3Ctx && conv1Ctx != conv4Ctx
      && conv2Ctx != conv3Ctx && conv2Ctx != conv4Ctx && conv3Ctx != conv4Ctx
    }

    ghost predicate HoldsFrames(ys: seq<Frame>)
      requires gapRing.Length == N_GAP
      reads this`gapHead, this`gapCount, gapRing
    {
      && gapHead == |ys| && gapCount == |Ring.Latest(ys, N_GAP)|
      && Shaped(gapRing[..], CONV_CH) && Ring.Holds(gapRing[..], ys)
    }

    ghost predicate FrontTracks(audio: seq<int8>, sinc: seq<Frame>)
      reads audioRing, conv1Ctx
    {
      && model.Valid() && |audio| % HOP == 0 && sinc == SincRelu(model, audio)
      && audioRing[..] == (Zeros(SINC_CONTEXT) + audio)[|audio|..]
      && conv1Ctx.Length == 2 && conv1Ctx[..] == LastTwo(Silence(SINC_CH), sinc)
    }

    ghost predicate BodyTracks(pool1: seq<Frame>, pool2: seq<Frame>)
      reads this`pool2N, this`pool3N, conv2Ctx, conv3Ctx, pool2Buf, pool3Buf
    {
      && model.Valid() && Shaped(pool1, CONV_CH) && Shaped(pool2, CONV_CH)
      && conv2Ctx.Length == conv3Ctx.Length == 2 && pool2N <= 3 == pool2Buf.Length && pool3N <= 1 == pool3Buf.Length
      && conv2Ctx[..] == LastTwo(Silence(CONV_CH), pool1)
      && conv3Ctx[..] == LastTwo(Silence(CONV_CH), pool2)
      && pool2Buf[..pool2N] == Leftover(4, ConvRelu(model.conv2, Silence(CONV_CH), pool1))
      && pool3Buf[..pool3N] == Leftover(2, ConvRelu(model.conv3, Silence(CONV_CH), pool2))
    }

    ghost predicate BackTracks(pool3: seq<Frame>)
      reads this`gapHead, this`gapCount, conv4Ctx, gapRing
    {
      && model.Valid() && Shaped(pool3, CONV_CH) && conv4Ctx.Length == 2 && gapRing.Length == N_GAP
      && conv4Ctx[..] == LastTwo(Silence(CONV_CH), pool3)
      && HoldsFrames(ConvRelu(model.conv4, Silence(CONV_CH), pool3))
    }

    /** The network state is that of the whole recording run once. */
    ghost predicate Tracking()
      reads this`pool2N, this`pool3N, this`gapHead, this`gapCount, this`processed, this`net
      reads audioRing, conv1Ctx, conv2Ctx, conv3Ctx, conv4Ctx, pool2Buf, pool3Buf, gapRing
    {
      && Layout() && Consistent(model, net)
      && FrontTracks(processed, net.sinc) && BodyTracks(net.pool1, net.pool2) && BackTracks(net.pool3)
    }

    lemma LastSamples(audio: seq<int8>, ys: seq<int8>)
      requires |ys| >= SINC_CONTEXT
      ensures (Zeros(SINC_CONTEXT) + (audio + ys))[|audio + ys|..] == ys[|ys| - SINC_CONTEXT..]
    {
    }

    /** Frames of the first layer for one hop. */
    method SincStage(newAudio: array<int8>, sincOut: array<Frame>)
      requires Layout() && newAudio.Length == HOP && newAudio != audioRing && sincOut.Length == 100
      requires Audio(model, processed) && Audio(model, processed + newAudio[..])
      requires audioRing[..] == (Zeros(SINC_CONTEXT) + processed)[|processed|..]
      modifies audioRing, sincOut
      ensures Shaped(sincOut[..], SINC_CH)
      ensures SincRelu(model, processed + newAudio[..]) == SincRelu(model, processed) + sincOut[..]
      ensures audioRing[..] == (Zeros(SINC_CONTEXT) + (processed + newAudio[..]))[|processed + newAudio[..]|..]
    {
      SincConvolve(newAudio, sincOut);
      SincReluAppend(model, processed, newAudio[..]);
      LastSamples(processed, newAudio[..]);
      Copy(audioRing, 0, newAudio, HOP - SINC_CONTEXT, SINC_CONTEXT);
    }

    method SincConvolve(newAudio: array<int8>, sincOut: array<Frame>)
      requires Layout() && newAudio.Length == HOP && sincOut.Length == 100
      modifies sincOut
      ensures Shaped(sincOut[..], SINC_CH)
      ensures sincOut[..] == Relu(Sinc(model.sinc, audioRing[..] + newAudio[..]))
    {
      var sincIn := new int8[SINC_CONTEXT + HOP];
      Copy(sincIn, 0, audioRing, 0, SINC_CONTEXT);
      Copy(sincIn, SINC_CONTEXT, newAudio, 0, HOP);
      assert sincIn[..] == audioRing[..] + newAudio[..];
      ConvolveAudio(model.sinc, sincIn, 100, sincOut);
      assert sincOut[..100] == sincOut[..];
      ReluInplace(sincOut, 100);
      assert sincOut[..100] == sincOut[..];
    }

    /** A causal convolution, its ReLU and the update of its context, for the next n
        input frames of a layer that has already seen `seen`. */
    method ConvStage(L: Filter, ch: nat, scratch: array<Frame>, ctx: array<Frame>, frames: array<Frame>, n: nat,
                     out: array<Frame>, ghost seen: seq<Frame>)
      requires Kernel3(L, ch) && Shaped(seen, ch)
      requires ctx.Length == 2 && ctx[..] == LastTwo(Silence(ch), seen)
      requires scratch != ctx && scratch != frames && scratch != out && out != ctx && out != frames && ctx != frames
      requires n <= frames.Length && n + 2 <= scratch.Length && n <= out.Length && Shaped(frames[..n], ch)
      modifies scratch, ctx, out
      ensures Shaped(seen + frames[..n], ch)
      ensures ctx[..] == LastTwo(Silence(ch), seen + frames[..n])
      ensures ConvRelu(L, Silence(ch), seen + frames[..n]) == ConvRelu(L, Silence(ch), seen) + out[..n]
      ensures Shaped(out[..n], CONV_CH)
    {
      ConvReluAppend(L, Silence(ch), seen, frames[..n]);
      CausalConv1d(L, scratch, ctx, frames, n, out);
      ReluInplace(out, n);
      UpdateCtx2(ctx, frames, n);
    }

    /** Pooling with partial groups, for the next n input frames after `seen`. */
    method PoolStage(k: nat, partial: array<Frame>, partialN: nat, frames: array<Frame>, n: nat,
                     scratch: array<Frame>, out: array<Frame>, ghost seen: seq<Frame>)
      returns (nOut: nat, leftover: nat)
      requires k > 0 && partialN <= partial.Length && k - 1 <= partial.Length
      requires n <= frames.Length && partialN + n <= scratch.Length && (partialN + n) / k <= out.Length
      requires scratch != partial && scratch != frames && scratch != out && partial != frames && partial != out
             && out != frames
      requires Shaped(seen, CONV_CH) && Shaped(frames[..n], CONV_CH)
      requires partial[..partialN] == Leftover(k, seen)
      modifies partial, scratch, out
      ensures nOut == (partialN + n) / k && leftover < k
      ensures Shaped(seen + frames[..n], CONV_CH) && Shaped(out[..nOut], CONV_CH)
      ensures Pool(k, CONV_CH, seen + frames[..n]) == Pool(k, CONV_CH, seen) + out[..nOut]
      ensures partial[..leftover] == Leftover(k, seen + frames[..n])
    {
      LeftoverShaped(k, CONV_CH, seen);
      PoolAppend(k, CONV_CH, seen, frames[..n]);
      nOut, leftover := PoolWithPartial(k, CONV_CH, partial, partialN, frames, n, scratch, out);
    }

    /** Writes the new output frames over the oldest ones. */
    method PushFrames(frames: array<Frame>, n: nat, ghost seen: seq<Frame>)
      requires gapRing.Length == N_GAP && frames != gapRing && n <= frames.Length
      requires Shaped(frames[..n], CONV_CH)
      requires HoldsFrames(seen)
      modifies gapRing, this`gapHead, this`gapCount
      ensures HoldsFrames(seen + frames[..n])
    {
      for f := 0 to n
        invariant HoldsFrames(seen + frames[..f])
      {
        var dst := gapHead % N_GAP;
        ghost var before := gapRing[..];
        Ring.Push(before, seen + frames[..f], frames[f]);
        gapRing[dst] := frames[f];
        assert gapRing[..] == before[dst := frames[f]];
        assert seen + frames[..f] + [frames[f]] == seen + frames[..f + 1];
        gapHead := gapHead + 1;
        if gapCount < N_GAP {
          gapCount := gapCount + 1;
        }
      }
    }

    /** One channel averaged over the occupied slots. */
    method SlotAverage(c: nat) returns (avg: int8)
      requires 0 < gapCount <= gapRing.Length == N_GAP && c < CONV_CH && Shaped(gapRing[..], CONV_CH)
      ensures avg == Mean(Ring.Column(gapRing[..gapCount], c))
    {
      ghost var col := Ring.Column(gapRing[..gapCount], c);
      var sum: int32 := 0;
      for i := 0 to gapCount
        invariant sum == Ring.Sum(col[..i])
      {
        assert col[..i + 1][..i] == col[..i];
        SumFits(col[..i + 1]);
        sum := sum + gapRing[i][c];
      }
      assert col[..gapCount] == col;
      MeanFits(col);
      avg := TruncDiv(sum, gapCount);
    }

    /** The average of the last frames, whatever slot the oldest one is in. */
    method GapAverage(gapOut: array<int8>, ghost seen: seq<Frame>)
      requires gapRing.Length == N_GAP && gapOut.Length == CONV_CH && |seen| > 0 && Shaped(seen, CONV_CH)
      requires HoldsFrames(seen)
      modifies gapOut
      ensures gapOut[..] == Average(Ring.Latest(seen, N_GAP))
    {
      ghost var last := Ring.Latest(seen, N_GAP);
      for c := 0 to CONV_CH
        invariant gapOut[..c] == Average(last)[..c]
      {
        Ring.SlotSum(gapRing[..], seen, c);
        gapOut[c] := SlotAverage(c);
        assert gapOut[c] == AverageAt(last, c);
      }
    }

    lemma NoneLeft(audio: seq<int8>, ys: seq<int8>)
      requires |audio| % HOP == 0 && |ys| == HOP
      ensures |audio| / SINC_STRIDE % 4 == 0
      ensures |audio| % SINC_STRIDE == |audio + ys| % SINC_STRIDE == |audio + ys| % HOP == 0
    {
      var h := |audio| / HOP;
      assert |audio| == HOP * h && |audio + ys| == HOP * (h + 1);
      assert |audio| / SINC_STRIDE == 4 * (25 * h);
    }

    /** The first part of a hop: 1600 samples to 100 frames and then to exactly 25. */
    method FrontStage(newAudio: array<int8>, pool1Out: array<Frame>, ghost sinc: seq<Frame>)
      returns (ghost sinc': seq<Frame>)
      requires Layout() && FrontTracks(processed, sinc) && newAudio.Length == HOP && newAudio != audioRing
      requires pool1Out.Length == 25 && pool1Out != conv1Ctx
      modifies audioRing, conv1Ctx, pool1Out
      ensures Shaped(sinc', SINC_CH) && FrontTracks(processed + newAudio[..], sinc')
      ensures Shaped(pool1Out[..], CONV_CH)
      ensures Pool(4, CONV_CH, ConvRelu(model.conv1, Silence(SINC_CH), sinc'))
           == Pool(4, CONV_CH, ConvRelu(model.conv1, Silence(SINC_CH), sinc)) + pool1Out[..]
    {
      hide ConvRelu, Pool, Leftover, LastTwo, Silence, SincRelu, Zeros;
      var sincOut := new Frame[100];
      ghost var conv1 := ConvRelu(model.conv1, Silence(SINC_CH), sinc);
      NoneLeft(processed, newAudio[..]);
      SincStage(newAudio, sincOut);
      sinc' := sinc + sincOut[..];
      var conv1In, conv1Out := new Frame[102], new Frame[100];
      assert sincOut[..100] == sincOut[..];
      ConvStage(model.conv1, SINC_CH, conv1In, conv1Ctx, sincOut, 100, conv1Out, sinc);
      PoolAppendExact(4, CONV_CH, conv1, conv1Out[..100]);
      var nPool1 := MaxpoolValid(4, CONV_CH, conv1Out, 100, pool1Out);
      assert pool1Out[..] == pool1Out[..25];
    }

    /** A convolution followed by pooling with partial groups, for the next n input
        frames after `seen`. */
    method BodyStage(L: Filter, k: nat, ctx: array<Frame>, partial: array<Frame>, partialN: nat,
                     frames: array<Frame>, n: nat, cap: nat, poolOut: array<Frame>, ghost seen: seq<Frame>)
      returns (nOut: nat, leftover: nat)
      requires Kernel3(L, CONV_CH) && Shaped(seen, CONV_CH)
      requires ctx.Length == 2 && ctx[..] == LastTwo(Silence(CONV_CH), seen)
      requires k > 0 && partialN <= partial.Length && partial.Length == k - 1
      requires partial[..partialN] == Leftover(k, ConvRelu(L, Silence(CONV_CH), seen))
      requires n <= frames.Length && n <= cap && Shaped(frames[..n], CONV_CH) && (partialN + n) / k <= poolOut.Length
      requires ctx != partial && ctx != frames && ctx != poolOut && partial != frames && partial != poolOut
               && frames != poolOut
      modifies ctx, partial, poolOut
      ensures nOut == (partialN + n) / k && leftover < k
      ensures Shaped(seen + frames[..n], CONV_CH) && Shaped(poolOut[..nOut], CONV_CH)
      ensures ctx[..] == LastTwo(Silence(CONV_CH), seen + frames[..n])
      ensures partial[..leftover] == Leftover(k, ConvRelu(L, Silence(CONV_CH), seen + frames[..n]))
      ensures Pool(k, CONV_CH, ConvRelu(L, Silence(CONV_CH), seen + frames[..n]))
           == Pool(k, CONV_CH, ConvRelu(L, Silence(CONV_CH), seen)) + poolOut[..nOut]
    {
      var convIn, convOut := new Frame[cap + 2], new Frame[cap];
      ConvStage(L, CONV_CH, convIn, ctx, frames, n, convOut, seen);
      var poolIn := new Frame[k - 1 + cap];
      nOut, leftover := PoolStage(k, partial, partialN, convOut, n, poolIn, poolOut,
                                    ConvRelu(L, Silence(CONV_CH), seen));
    }

    /** The last convolution, the ring and the head, for the next n frames of the last
        pooling layer. */
    method BackStage(frames: array<Frame>, n: nat, scores: array<int8>, ghost seen: seq<Frame>)
      requires BackTracks(seen) && frames.Length == 4 && 0 < n <= 4 && Shaped(frames[..n], CONV_CH)
      requires conv4Ctx != frames && gapRing != frames && gapRing != conv4Ctx && scores.Length == NUM_CLASSES
      modifies conv4Ctx, gapRing, scores, this`gapHead, this`gapCount
      ensures Shaped(seen + frames[..n], CONV_CH) && BackTracks(seen + frames[..n])
      ensures var ys := ConvRelu(model.conv4, Silence(CONV_CH), seen + frames[..n]);
              |ys| > 0 && scores[..] == model.head(Average(Ring.Latest(ys, N_GAP)))
    {
      var conv4In, conv4Out := new Frame[6], new Frame[4];
      ghost var ys := ConvRelu(model.conv4, Silence(CONV_CH), seen);
      ghost var all := seen + frames[..n];
      ConvStage(model.conv4, CONV_CH, conv4In, conv4Ctx, frames, n, conv4Out, seen);
      ghost var ys' := ys + conv4Out[..n];
      PushFrames(conv4Out, n, ys);
      if gapCount == 0 {
        assert false;
      }
      assert seen + frames[..n] == all;
      Classify(scores, ys');
    }

    /** Average pooling and the head. */
    method Classify(scores: array<int8>, ghost ys: seq<Frame>)
      requires scores.Length == NUM_CLASSES && gapRing.Length == N_GAP && |ys| > 0 && Shaped(ys, CONV_CH)
      requires HoldsFrames(ys)
      modifies scores
      ensures scores[..] == model.head(Average(Ring.Latest(ys, N_GAP)))
    {
      var gapOut := new int8[CONV_CH];
      GapAverage(gapOut, ys);
      var out: Scores := model.head(gapOut[..]);
      forall c | 0 <= c < NUM_CLASSES {
        scores[c] := out[c];
      }
      assert scores[..] == out;
    }

    /** The two middle blocks.  Every scratch buffer has its declared size; pool2 always
        yields at least 6 frames and pool3 at least 3, so the early returns are dead. */
    method MiddleStage(pool1Out: array<Frame>, pool3Out: array<Frame>, ghost pool1: seq<Frame>, ghost pool2: seq<Frame>)
      returns (nPool3: nat, ghost pool2': seq<Frame>)
      requires Layout() && BodyTracks(pool1, pool2)
      requires pool2 == Pool(4, CONV_CH, ConvRelu(model.conv2, Silence(CONV_CH), pool1))
      requires pool1Out.Length == 25 && pool3Out.Length == 4 && Shaped(pool1Out[..], CONV_CH)
      modifies conv2Ctx, conv3Ctx, pool2Buf, pool3Buf, pool3Out, this`pool2N, this`pool3N
      ensures 3 <= nPool3 <= 4 && Shaped(pool3Out[..nPool3], CONV_CH)
      ensures BodyTracks(pool1 + pool1Out[..], pool2')
      ensures pool2' == Pool(4, CONV_CH, ConvRelu(model.conv2, Silence(CONV_CH), pool1 + pool1Out[..]))
      ensures Pool(2, CONV_CH, ConvRelu(model.conv3, Silence(CONV_CH), pool2'))
           == Pool(2, CONV_CH, ConvRelu(model.conv3, Silence(CONV_CH), pool2)) + pool3Out[..nPool3]
    {
      hide ConvRelu, Pool, Leftover, LastTwo, Silence;
      assert pool1Out[..25] == pool1Out[..];
      var pool2Out := new Frame[7];
      var nPool2, left2 := BodyStage(model.conv2, 4, conv2Ctx, pool2Buf, pool2N, pool1Out, 25, 25, pool2Out, pool1);
      pool2N := left2;
      if nPool2 == 0 {
        assert false;
      }
      pool2' := pool2 + pool2Out[..nPool2];
      var left3;
      nPool3, left3 := BodyStage(model.conv3, 2, conv3Ctx, pool3Buf, pool3N, pool2Out, nPool2, 7, pool3Out, pool2);
      pool3N := left3;
      if nPool3 == 0 {
        assert false;
      }
    }

    /** All the layers of one hop, as the outputs of the pooling layers. */
    method RunLayers(newAudio: array<int8>, scores: array<int8>)
      returns (ghost sinc: seq<Frame>, ghost pool1: seq<Frame>, ghost pool2: seq<Frame>, ghost pool3: seq<Frame>)
      requires Tracking() && newAudio.Length == HOP && newAudio != audioRing
      requires scores.Length == NUM_CLASSES && scores != audioRing && scores != newAudio
      modifies audioRing, conv1Ctx, conv2Ctx, conv3Ctx, conv4Ctx, pool2Buf, pool3Buf, gapRing, scores
      modifies this`pool2N, this`pool3N, this`gapHead, this`gapCount
      ensures Shaped(sinc, SINC_CH) && Shaped(pool1, CONV_CH) && Shaped(pool2, CONV_CH) && Shaped(pool3, CONV_CH)
      ensures pool1 == Pool(4, CONV_CH, ConvRelu(model.conv1, Silence(SINC_CH), sinc))
      ensures pool2 == Pool(4, CONV_CH, ConvRelu(model.conv2, Silence(CONV_CH), pool1))
      ensures pool3 == Pool(2, CONV_CH, ConvRelu(model.conv3, Silence(CONV_CH), pool2))
      ensures FrontTracks(processed + newAudio[..], sinc) && BodyTracks(pool1, pool2) && BackTracks(pool3)
      ensures var ys := ConvRelu(model.conv4, Silence(CONV_CH), pool3);
              |ys| > 0 && scores[..] == model.head(Average(Ring.Latest(ys, N_GAP)))
    {
      hide FrontTracks, BodyTracks, BackTracks, ConvRelu, Pool, Silence, Average, Ring.Latest, SincRelu, Zeros;
      ghost var audio := processed + newAudio[..];
      var pool1Out, pool3Out := new Frame[25], new Frame[4];
      sinc := FrontStage(newAudio, pool1Out, net.sinc);
      pool1 := net.pool1 + pool1Out[..];
      var nPool3;
      nPool3, pool2 := MiddleStage(pool1Out, pool3Out, net.pool1, net.pool2);
      pool3 := net.pool3 + pool3Out[..nPool3];
      BackStage(pool3Out, nPool3, scores, net.pool3);
      assert processed + newAudio[..] == audio;
    }

    /** One hop: 1600 new samples in, one row of scores out. */
    method RunHop(newAudio: array<int8>, scores: array<int8>)
      requires Tracking() && newAudio.Length == HOP && newAudio != audioRing
      requires scores.Length == NUM_CLASSES && scores != audioRing && scores != newAudio
      modifies audioRing, conv1Ctx, conv2Ctx, conv3Ctx, conv4Ctx, pool2Buf, pool3Buf, gapRing, scores
      modifies this`pool2N, this`pool3N, this`gapHead, this`gapCount, this`processed, this`net
      ensures processed == old(processed) + newAudio[..]
      ensures Tracking()
      ensures Ready(model, processed) && scores[..] == BatchScores(model, processed)
    {
      hide FrontTracks, BodyTracks, BackTracks, ConvRelu, Pool, Silence, Average, Ring.Latest, SincRelu, Zeros;
      ghost var sinc, pool1, pool2, pool3 := RunLayers(newAudio, scores);
      processed := processed + newAudio[..];
      net := Assemble(model, sinc, pool1, pool2, pool3);
      Tracked();
    }

    /** The counters are the lengths of what is held and of what has been averaged. */
    lemma Levels()
      requires Tracking()
      ensures pool2N == |Leftover(4, net.conv2)| && pool3N == |Leftover(2, net.conv3)|
      ensures gapHead == |net.conv4| && gapCount == if gapHead < N_GAP then gapHead else N_GAP
    {
      hide ConvRelu, LastTwo, Pool, Leftover, FrontTracks;
    }

    lemma Tracked()
      requires Tracking()
      ensures |processed| % HOP == 0 && net == Batch(model, processed)
    {
      hide BodyTracks, BackTracks, LastTwo, ConvRelu, Pool;
      ConsistentIsBatch(model, processed, net);
    }

    // ---- the public interface ------------------------------------------------------

    /** Between calls an incomplete hop is waiting. */
    ghost predicate Valid()
      reads this, audioRing, conv1Ctx, conv2Ctx, conv3Ctx, conv4Ctx, pool2Buf, pool3Buf, gapRing
    {
      Layout() && Tracking() && samplesPending < HOP
    }

    /** Every sample pushed since the reset. */
    ghost function History(): seq<int8>
      requires Layout() && samplesPending <= HOP
      reads this, sampleBuf
    {
      processed + sampleBuf[..samplesPending]
    }

    constructor (m: Model)
      requires m.Valid()
      ensures Valid() && History() == [] && model == m
      ensures fresh(audioRing) && fresh(sampleBuf)
      ensures fresh(conv1Ctx) && fresh(conv2Ctx) && fresh(conv3Ctx) && fresh(conv4Ctx)
      ensures fresh(pool2Buf) && fresh(pool3Buf) && fresh(gapRing)
    {
      model := m;
      audioRing, sampleBuf := new int8[SINC_CONTEXT], new int8[HOP];
      conv1Ctx, conv2Ctx := new Frame[2], new Frame[2];
      conv3Ctx, conv4Ctx := new Frame[2], new Frame[2];
      pool2Buf, pool3Buf, gapRing := new Frame[3], new Frame[1], new Frame[N_GAP];
      new;
      Reset();
    }

    lemma FrontStart()
      requires Layout() && audioRing[..] == Zeros(SINC_CONTEXT) && conv1Ctx[..] == Silence(SINC_CH)
      ensures FrontTracks([], [])
    {
    }

    lemma BodyStart()
      requires Layout() && pool2N == pool3N == 0
      requires conv2Ctx[..] == Silence(CONV_CH) && conv3Ctx[..] == Silence(CONV_CH)
      ensures BodyTracks([], [])
    {
    }

    lemma BackStart()
      requires Layout() && gapHead == gapCount == 0
      requires conv4Ctx[..] == Silence(CONV_CH) && Shaped(gapRing[..], CONV_CH)
      ensures BackTracks([])
    {
    }

    method ClearContexts()
      requires Layout()
      modifies conv1Ctx, conv2Ctx, conv3Ctx, conv4Ctx
      ensures conv1Ctx[..] == Silence(SINC_CH)
      ensures conv2Ctx[..] == conv3Ctx[..] == conv4Ctx[..] == Silence(CONV_CH)
    {
      Fill(conv1Ctx, Zeros(SINC_CH));
      Fill(conv2Ctx, Zeros(CONV_CH));
      Fill(conv3Ctx, Zeros(CONV_CH));
      Fill(conv4Ctx, Zeros(CONV_CH));
    }

    /** memset of the whole state. */
    method ClearState()
      requires Layout()
      modifies this`pool2N, this`pool3N, this`gapHead, this`gapCount, this`samplesPending
      modifies audioRing, conv1Ctx, conv2Ctx, conv3Ctx, conv4Ctx, pool2Buf, pool3Buf, gapRing, sampleBuf
      ensures pool2N == pool3N == gapHead == gapCount == samplesPending == 0
      ensures audioRing[..] == Zeros(SINC_CONTEXT) && conv1Ctx[..] == Silence(SINC_CH)
      ensures conv2Ctx[..] == conv3Ctx[..] == conv4Ctx[..] == Silence(CONV_CH)
      ensures Shaped(gapRing[..], CONV_CH)
    {
      Fill(audioRing, 0);
      Fill(sampleBuf, 0);
      ClearContexts();
      Fill(pool2Buf, Zeros(CONV_CH));
      Fill(pool3Buf, Zeros(CONV_CH));
      Fill(gapRing, Zeros(CONV_CH));
      pool2N, pool3N, gapHead, gapCount, samplesPending := 0, 0, 0, 0, 0;
    }

    method Reset()
      requires Layout()
      modifies this, audioRing, conv1Ctx, conv2Ctx, conv3Ctx, conv4Ctx, pool2Buf, pool3Buf, gapRing, sampleBuf
      ensures Valid() && History() == []
    {
      ClearState();
      processed, net := [], Streams([], [], [], [], [], [], [], []);
      hide FrontTracks, BodyTracks, BackTracks;
      FrontStart();
      BodyStart();
      BackStart();
    }

    /** Appends samples to the waiting hop and runs it when it is complete. */
    method Feed(samples: array<int8>, from: nat, take: nat, scores: array<int8>) returns (ran: bool)
      requires Valid() && from + take <= samples.Length && samplesPending + take <= HOP
      requires samples != audioRing && samples != sampleBuf && samples != scores
      requires scores.Length == NUM_CLASSES && scores != audioRing && scores != sampleBuf
      modifies this, audioRing, conv1Ctx, conv2Ctx, conv3Ctx, conv4Ctx, pool2Buf, pool3Buf, gapRing, sampleBuf, scores
      ensures Valid() && History() == old(History()) + samples[from..from + take]
      ensures ran <==> |processed| > |old(processed)|
      ensures ran ==> Ready(model, processed) && scores[..] == BatchScores(model, processed)
      ensures !ran ==> scores[..] == old(scores[..]) && processed == old(processed)
    {
      hide Tracking, Ready;
      Copy(sampleBuf, samplesPending, samples, from, take);
      samplesPending := samplesPending + take;
      ran := samplesPending == HOP;
      if ran {
        assert sampleBuf[..] == sampleBuf[..HOP];
        RunHop(sampleBuf, scores);
        samplesPending := 0;
      }
    }

    /** Accumulates samples and runs a hop whenever 1600 are waiting. */
    method KwsPush(samples: array<int8>, n: int, scores: array<int8>) returns (produced: bool)
      requires Valid() && n <= samples.Length && samples != audioRing && samples != sampleBuf && samples != scores
      requires scores.Length == NUM_CLASSES && scores != audioRing && scores != sampleBuf
      modifies this, audioRing, conv1Ctx, conv2Ctx, conv3Ctx, conv4Ctx, pool2Buf, pool3Buf, gapRing, sampleBuf, scores
      ensures Valid() && History() == old(History()) + (if n < 0 then [] else samples[..n])
      ensures produced <==> |History()| / HOP > |old(History())| / HOP
      ensures produced ==> Ready(model, processed) && scores[..] == BatchScores(model, processed)
      ensures !produced ==> scores[..] == old(scores[..])
    {
      hide Tracking, Ready, BatchScores;
      produced := false;
      var i := 0;
      ghost var before := History();
      Tracked();
      HopCount(processed, sampleBuf[..samplesPending]);
      while i < n
        invariant 0 <= i <= n || n < 0 == i
        invariant Valid() && History() == before + samples[..i]
        invariant produced <==> |processed| > |old(processed)|
        invariant produced ==> Ready(model, processed) && scores[..] == BatchScores(model, processed)
        invariant !produced ==> scores[..] == old(scores[..]) && processed == old(processed)
      {
        var space := HOP - samplesPending;
        var take := if n - i < space then n - i else space;
        var ran := Feed(samples, i, take, scores);
        assert samples[..i] + samples[i..i + take] == samples[..i + take];
        i := i + take;
        produced := produced || ran;
      }
      Tracked();
      HopCount(processed, sampleBuf[..samplesPending]);
    }
  }

  /** Two engines that have been pushed the same samples, in whatever chunks, are in the
      same state (up to slots that are overwritten before they are read again). */
  lemma HistoryDeterminesState(d: Engine, e: Engine)
    requires d.Valid() && e.Valid() && d.model == e.model && d.History() == e.History()
    ensures d.processed == e.processed && d.samplesPending == e.samplesPending
    ensures d.sampleBuf[..d.samplesPending] == e.sampleBuf[..e.samplesPending]
    ensures d.audioRing[..] == e.audioRing[..]
    ensures d.conv1Ctx[..] == e.conv1Ctx[..] && d.conv2Ctx[..] == e.conv2Ctx[..]
    ensures d.conv3Ctx[..] == e.conv3Ctx[..] && d.conv4Ctx[..] == e.conv4Ctx[..]
    ensures d.pool2N == e.pool2N && d.pool2Buf[..d.pool2N] == e.pool2Buf[..e.pool2N]
    ensures d.pool3N == e.pool3N && d.pool3Buf[..d.pool3N] == e.pool3Buf[..e.pool3N]
    ensures d.gapHead == e.gapHead && d.gapCount == e.gapCount
    ensures d.gapRing[..d.gapCount] == e.gapRing[..e.gapCount]
  {
    d.Tracked();
    e.Tracked();
    var h := d.History();
    SameSplit(d.processed, d.sampleBuf[..d.samplesPending], e.processed, e.sampleBuf[..e.samplesPending]);
    Ring.Contents(d.gapRing[..], d.net.conv4);
    Ring.Contents(e.gapRing[..], e.net.conv4);
  }

  lemma HopCount(a: seq<int8>, b: seq<int8>)
    requires |a| % HOP == 0 && |b| < HOP
    ensures |a + b| / HOP * HOP == |a|
  {
  }

  lemma SameSplit(a: seq<int8>, b: seq<int8>, c: seq<int8>, d: seq<int8>)
    requires a + b == c + d && |a| % HOP == |c| % HOP == 0 && |b| < HOP && |d| < HOP
    ensures a == c && b == d
  {
    assert |a| == |c|;
    assert a == (a + b)[..|a|] && c == (c + d)[..|c|];
    assert b == (a + b)[|a|..] && d == (c + d)[|c|..];
  }

  /** After h hops: how full each buffer is.  The ring is full from the fifth hop on. */
  lemma FillLevels(e: Engine, h: nat)
    requires e.Valid() && |e.processed| == HOP * h
    ensures |e.net.pool2| == 25 * h / 4 && |e.net.conv4| == e.gapHead == 25 * h / 8
    ensures e.pool2N == 25 * h % 4 && e.pool3N == 25 * h / 4 % 2
    ensures e.gapCount == if h >= 5 then N_GAP else 25 * h / 8
  {
    e.Levels();
    assert Audio(e.model, e.processed) && Consistent(e.model, e.net) && e.net.sinc == SincRelu(e.model, e.processed);
    hide Consistent, Engine.Tracking, Engine.Layout, Engine.FrontTracks, SincRelu;
    FrameCounts(e.model, e.processed, e.net);
    FramesPerHop(h);
  }

  lemma FramesPerHop(h: nat)
    ensures HOP * h / 64 == 25 * h && HOP * h / 256 == 25 * h / 4 && HOP * h / 512 == 25 * h / 8
  {
  }

  method Fill<T>(buf: array<T>, x: T)
    modifies buf
    ensures buf[..] == seq(buf.Length, _ => x)
  {
    for i := 0 to buf.Length
      invariant forall j :: 0 <= j < i ==> buf[j] == x
    {
      buf[i] := x;
    }
  }
}
