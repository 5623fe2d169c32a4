/** The sliding window of the always-listening firmware, seen from the outside: which
    stretches of the stream a run of the main loop copies, and when it gives audio up.
    All counters are unbounded here; DmaRing ties the firmware's 32-bit ones to them. */
module WindowLoop {

  /** How far the threshold moves at the end of an iteration. */
  datatype Policy = Dynamic(minStep: nat) | Fixed(step: nat) | NoOverlap
  {
    function Step(iterBytes: nat, clip: nat): nat {
      match this
      case Dynamic(minStep) =>
        var s := if iterBytes < minStep then minStep else iterBytes;
        if s > clip then clip else s
      case Fixed(step) => step
      case NoOverlap => clip
    }
  }

  /** The counter values one pass of the main loop sees: when its wait ends, at the loss
      test, when it resynchronises, and at the bottom. */
  datatype Reads = Reads(start: nat, tested: nat, resync: nat, bottom: nat)
  {
    predicate Ordered() {
      start <= tested <= resync <= bottom
    }
  }

  /** What a pass does to the threshold; `windows` lists the ends of the copied windows. */
  datatype Loop = Loop(threshold: nat, windows: seq<nat>, losses: nat)
  {
    /** The end of the window the pass copies. */
    function Window(r: Reads, clip: nat): nat {
      if r.tested - threshold > clip then r.resync else threshold
    }

    function Pass(r: Reads, policy: Policy, clip: nat): Loop
      requires r.Ordered()
    {
      Loop(Window(r, clip) + policy.Step(r.bottom - r.start, clip),
           windows + [Window(r, clip)],
           losses + if r.tested - threshold > clip then 1 else 0)
    }
  }

  predicate AllOrdered(trace: seq<Reads>) {
    forall k :: 0 <= k < |trace| ==> trace[k].Ordered()
  }

  /** A run, one pass after another. */
  function Run(l: Loop, trace: seq<Reads>, policy: Policy, clip: nat): Loop
    requires AllOrdered(trace)
    decreases |trace|
  {
    if |trace| == 0 then l else Run(l.Pass(trace[0], policy, clip), trace[1..], policy, clip)
  }

  /** The counter never goes back, and a pass starts once its threshold is reached. */
  predicate Plausible(l: Loop, trace: seq<Reads>, policy: Policy, clip: nat)
    requires AllOrdered(trace)
    decreases |trace|
  {
    |trace| > 0 ==>
      && l.threshold <= trace[0].start
      && (|trace| > 1 ==> trace[0].bottom <= trace[1].start)
      && Plausible(l.Pass(trace[0], policy, clip), trace[1..], policy, clip)
  }

  /** A run adds one window per pass. */
  lemma {:induction false} RunExtends(l: Loop, trace: seq<Reads>, policy: Policy, clip: nat)
    requires AllOrdered(trace)
    ensures l.windows <= Run(l, trace, policy, clip).windows
    ensures |Run(l, trace, policy, clip).windows| == |l.windows| + |trace|
    decreases |trace|
  {
    if |trace| > 0 {
      RunExtends(l.Pass(trace[0], policy, clip), trace[1..], policy, clip);
    }
  }

  // ---- lag --------------------------------------------------------------------------------

  /** Bytes that arrive during the passes, bytes the threshold moves by, and bytes that
      arrive between the bottom of one pass and the start of the next. */
  function Measured(trace: seq<Reads>): int {
    if |trace| == 0 then 0 else trace[0].bottom - trace[0].start + Measured(trace[1..])
  }

  function Stepped(trace: seq<Reads>, policy: Policy, clip: nat): int
    requires AllOrdered(trace)
  {
    if |trace| == 0 then 0
    else policy.Step(trace[0].bottom - trace[0].start, clip) + Stepped(trace[1..], policy, clip)
  }

  function Unmeasured(trace: seq<Reads>): int {
    if |trace| < 2 then 0 else trace[1].start - trace[0].bottom + Unmeasured(trace[1..])
  }

  /** Over a run without a resynchronisation the lag of the threshold behind the counter
      changes by exactly the measured bytes, less the steps, plus the unmeasured bytes. */
  lemma {:induction false} LagOverRun(l: Loop, trace: seq<Reads>, policy: Policy, clip: nat)
    requires |trace| > 0 && AllOrdered(trace) && Plausible(l, trace, policy, clip)
    requires Run(l, trace, policy, clip).losses == l.losses
    ensures trace[|trace| - 1].bottom - Run(l, trace, policy, clip).threshold
         == trace[0].start - l.threshold + Measured(trace) - Stepped(trace, policy, clip) + Unmeasured(trace)
    decreases |trace|
  {
    var l' := l.Pass(trace[0], policy, clip);
    LossesGrow(l', trace[1..], policy, clip);
    if |trace| > 1 {
      LagOverRun(l', trace[1..], policy, clip);
    } else {
      assert trace[1..] == [];
    }
  }

  /** How far a pass that measured n bytes moves the window: by those bytes, but at least by
      the minimum and at most by a clip, or as configured. */
  predicate MovesBy(policy: Policy, n: int, clip: int, d: int) {
    && (policy.Dynamic? && policy.minStep <= n <= clip ==> d == n)
    && (policy.Dynamic? && n < policy.minStep <= clip ==> d == policy.minStep)
    && (policy.Dynamic? && (n > clip || policy.minStep > clip) ==> d == clip)
    && (policy.Fixed? ==> d == policy.step)
    && (policy.NoOverlap? ==> d == clip)
  }

  lemma StepMoves(policy: Policy, n: nat, clip: nat, d: int)
    ensures MovesBy(policy, n, clip, d) <==> d == policy.Step(n, clip)
  {
  }

  lemma StepMeets(policy: Policy, n: nat, clip: nat)
    ensures policy.Step(n, clip) <= clip || (policy.Fixed? && policy.step > clip)
    ensures n <= policy.Step(n, clip) <==> n <= if policy.Fixed? then policy.step else clip
  {
  }

  // ---- how the windows slide --------------------------------------------------------------------

  /** Ends of the copied windows, and of the next one. */
  function Ends(l: Loop): (ends: seq<nat>)
    ensures |ends| == |l.windows| + 1
  {
    l.windows + [l.threshold]
  }

  function Gap(ends: seq<nat>, i: nat): int
    requires i + 1 < |ends|
  {
    var first: int, second: int := ends[i], ends[i + 1];
    second - first
  }

  /** From number `base` on, each end lies as far beyond the one before as its pass measured. */
  ghost predicate Slides(ends: seq<nat>, base: nat, trace: seq<Reads>, policy: Policy, clip: nat) {
    && |ends| == base + |trace| + 1
    && forall k :: 0 <= k < |trace| ==>
         MovesBy(policy, trace[k].bottom - trace[k].start, clip, Gap(ends, base + k))
  }

  lemma SlidesOn(ends: seq<nat>, base: nat, trace: seq<Reads>, policy: Policy, clip: nat)
    requires |trace| > 0 && Slides(ends, base + 1, trace[1..], policy, clip)
    requires MovesBy(policy, trace[0].bottom - trace[0].start, clip, Gap(ends, base))
    ensures Slides(ends, base, trace, policy, clip)
  {
    hide MovesBy, Gap;
    forall k | 0 <= k < |trace|
      ensures MovesBy(policy, trace[k].bottom - trace[k].start, clip, Gap(ends, base + k))
    {
      if k > 0 {
        var rest := trace[1..];
        assert MovesBy(policy, rest[k - 1].bottom - rest[k - 1].start, clip, Gap(ends, base + 1 + (k - 1)));
      }
    }
  }

  lemma NextEnd(l: Loop, trace: seq<Reads>, policy: Policy, clip: nat)
    requires AllOrdered(trace) && Run(l, trace, policy, clip).losses == l.losses
    ensures |Ends(Run(l, trace, policy, clip))| == |l.windows| + |trace| + 1
    ensures Ends(Run(l, trace, policy, clip))[|l.windows|] == l.threshold
    ensures |trace| > 0 ==> trace[0].tested - l.threshold <= clip
  {
    RunExtends(l, trace, policy, clip);
    if |trace| > 0 {
      var l' := l.Pass(trace[0], policy, clip);
      LossesGrow(l', trace[1..], policy, clip);
      RunExtends(l', trace[1..], policy, clip);
      var windows := Run(l, trace, policy, clip).windows;
      assert windows[|l.windows|] == l'.windows[|l.windows|];
    }
  }

  /** A run without loss slides its windows by what the passes measured. */
  lemma {:induction false} RunSlides(l: Loop, trace: seq<Reads>, policy: Policy, clip: nat)
    requires AllOrdered(trace) && Run(l, trace, policy, clip).losses == l.losses
    ensures Slides(Ends(Run(l, trace, policy, clip)), |l.windows|, trace, policy, clip)
    decreases |trace|
  {
    hide MovesBy, Ends, Slides;
    NextEnd(l, trace, policy, clip);
    if |trace| > 0 {
      var r, rest, l' := trace[0], trace[1..], l.Pass(trace[0], policy, clip);
      LossesGrow(l', rest, policy, clip);
      RunSlides(l', rest, policy, clip);
      NextEnd(l', rest, policy, clip);
      StepMoves(policy, r.bottom - r.start, clip, l'.threshold - l.threshold);
      var ends := Ends(Run(l', rest, policy, clip));
      assert Gap(ends, |l.windows|) == l'.threshold - l.threshold;
      SlidesOn(ends, |l.windows|, trace, policy, clip);
    } else {
      NoSlide(Ends(l), |l.windows|, policy, clip);
    }
  }

  lemma NoSlide(ends: seq<nat>, base: nat, policy: Policy, clip: nat)
    requires |ends| == base + 1
    ensures Slides(ends, base, [], policy, clip)
  {
  }

  /** Under the dynamic policy two consecutive windows of a loss-free run share exactly the
      clip less what was measured between them. */
  lemma WindowsOverlap(l: Loop, trace: seq<Reads>, minStep: nat, clip: nat, k: nat)
    requires AllOrdered(trace) && k < |trace| && Run(l, trace, Dynamic(minStep), clip).losses == l.losses
    requires minStep <= trace[k].bottom - trace[k].start <= clip
    ensures |Ends(Run(l, trace, Dynamic(minStep), clip))| == |l.windows| + |trace| + 1
    ensures var ends, n := Ends(Run(l, trace, Dynamic(minStep), clip)), trace[k].bottom - trace[k].start;
            var first: int, second: int := ends[|l.windows| + k], ends[|l.windows| + k + 1];
            && first - (second - clip) == clip - n
            && forall p: nat :: InWindow(p, first, clip) && InWindow(p, second, clip) <==> second - clip <= p < first
  {
    RunSlides(l, trace, Dynamic(minStep), clip);
    assert Gap(Ends(Run(l, trace, Dynamic(minStep), clip)), |l.windows| + k) == trace[k].bottom - trace[k].start;
  }

  // ---- coverage -------------------------------------------------------------------------------

  predicate InWindow(p: nat, end: nat, clip: nat) {
    end - clip <= p < end
  }

  /** Byte p lies in a window already copied. */
  ghost predicate Copied(l: Loop, p: nat, clip: nat) {
    exists k :: 0 <= k < |l.windows| && InWindow(p, l.windows[k], clip)
  }

  /** Every byte below the threshold is in a copied window or in the next one. */
  ghost predicate Covered(l: Loop, clip: nat) {
    forall p: nat :: p < l.threshold ==> Copied(l, p, clip) || InWindow(p, l.threshold, clip)
  }

  lemma PassCovers(l: Loop, r: Reads, policy: Policy, clip: nat)
    requires Covered(l, clip) && r.Ordered() && r.tested - l.threshold <= clip
    requires policy.Fixed? ==> policy.step <= clip
    ensures Covered(l.Pass(r, policy, clip), clip)
  {
    var l' := l.Pass(r, policy, clip);
    forall p: nat | p < l'.threshold ensures Copied(l', p, clip) || InWindow(p, l'.threshold, clip) {
      assert l'.windows[|l.windows|] == l.threshold;
      if Copied(l, p, clip) {
        var k :| 0 <= k < |l.windows| && InWindow(p, l.windows[k], clip);
        assert l'.windows[k] == l.windows[k];
      }
    }
  }

  /** A loss-free run leaves no byte outside every window. */
  lemma {:induction false} RunCovers(l: Loop, trace: seq<Reads>, policy: Policy, clip: nat)
    requires Covered(l, clip) && AllOrdered(trace) && Plausible(l, trace, policy, clip)
    requires policy.Fixed? ==> policy.step <= clip
    requires Run(l, trace, policy, clip).losses == l.losses
    ensures Covered(Run(l, trace, policy, clip), clip)
    decreases |trace|
  {
    if |trace| > 0 {
      var l' := l.Pass(trace[0], policy, clip);
      LossesGrow(l', trace[1..], policy, clip);
      PassCovers(l, trace[0], policy, clip);
      RunCovers(l', trace[1..], policy, clip);
    }
  }

  lemma {:induction false} LossesGrow(l: Loop, trace: seq<Reads>, policy: Policy, clip: nat)
    requires AllOrdered(trace)
    ensures Run(l, trace, policy, clip).losses >= l.losses
    decreases |trace|
  {
    if |trace| > 0 {
      LossesGrow(l.Pass(trace[0], policy, clip), trace[1..], policy, clip);
    }
  }

  // ---- what is forfeited ------------------------------------------------------------------------

  predicate Increasing(ends: seq<nat>) {
    forall i, j :: 0 <= i < j < |ends| ==> ends[i] <= ends[j]
  }

  /** The windows copied so far end in increasing order, up to the threshold. */
  ghost predicate Sorted(l: Loop) {
    Increasing(l.windows) && forall k :: 0 <= k < |l.windows| ==> l.windows[k] <= l.threshold
  }

  /** Byte p lies before window k and not before the end of the window that precedes it. */
  predicate InGap(ends: seq<nat>, k: nat, p: nat, clip: nat) {
    k < |ends| && p < ends[k] - clip && (k > 0 ==> ends[k - 1] <= p)
  }

  lemma {:induction false} FirstPast(ends: seq<nat>, p: nat) returns (k: nat)
    requires Increasing(ends) && |ends| > 0 && p < ends[|ends| - 1]
    ensures k < |ends| && p < ends[k] && forall i :: 0 <= i < k ==> ends[i] <= p
  {
    if |ends| == 1 || ends[|ends| - 2] <= p {
      k := |ends| - 1;
    } else {
      k := FirstPast(ends[..|ends| - 1], p);
      assert forall i :: 0 <= i <= k ==> ends[..|ends| - 1][i] == ends[i];
    }
  }

  /** The bytes below the last window that no window holds are those of the gaps. */
  lemma UncoveredAreGaps(l: Loop, p: nat, clip: nat)
    requires Increasing(l.windows) && |l.windows| > 0 && p < l.windows[|l.windows| - 1]
    ensures !Copied(l, p, clip) <==> exists k: nat :: InGap(l.windows, k, p, clip)
  {
    var k := FirstPast(l.windows, p);
    if p < l.windows[k] - clip {
      assert InGap(l.windows, k, p, clip);
    } else {
      assert InWindow(p, l.windows[k], clip);
    }
  }

  lemma {:induction false} RunSorted(l: Loop, trace: seq<Reads>, policy: Policy, clip: nat)
    requires AllOrdered(trace) && Sorted(l)
    ensures Sorted(Run(l, trace, policy, clip))
    decreases |trace|
  {
    if |trace| > 0 {
      RunSorted(l.Pass(trace[0], policy, clip), trace[1..], policy, clip);
    }
  }

  /** The last pass of a run. */
  lemma {:induction false} RunLast(l: Loop, trace: seq<Reads>, policy: Policy, clip: nat)
    requires |trace| > 0 && AllOrdered(trace)
    ensures Run(l, trace, policy, clip)
         == Run(l, trace[..|trace| - 1], policy, clip).Pass(trace[|trace| - 1], policy, clip)
    decreases |trace|
  {
    if |trace| > 1 {
      var l' := l.Pass(trace[0], policy, clip);
      RunLast(l', trace[1..], policy, clip);
      assert trace[1..][..|trace| - 2] == trace[..|trace| - 1][1..];
    } else {
      assert trace[1..] == [] && trace[..0] == [];
    }
  }

  /** The state of a run before pass k. */
  function Before(trace: seq<Reads>, k: nat, policy: Policy, clip: nat): Loop
    requires AllOrdered(trace) && k <= |trace|
  {
    Run(Loop(clip, [], 0), trace[..k], policy, clip)
  }

  lemma PassAt(trace: seq<Reads>, k: nat, policy: Policy, clip: nat)
    requires AllOrdered(trace) && k < |trace|
    ensures Before(trace, k + 1, policy, clip) == Before(trace, k, policy, clip).Pass(trace[k], policy, clip)
  {
    RunLast(Loop(clip, [], 0), trace[..k + 1], policy, clip);
    assert trace[..k + 1][..k] == trace[..k];
  }

  lemma {:induction false} PassCount(trace: seq<Reads>, k: nat, policy: Policy, clip: nat)
    requires AllOrdered(trace) && k <= |trace|
    ensures |Before(trace, k, policy, clip).windows| == k
  {
    if k > 0 {
      PassCount(trace, k - 1, policy, clip);
      PassAt(trace, k - 1, policy, clip);
    }
  }

  /** Later passes only add windows. */
  lemma {:induction false} BeforeWindows(trace: seq<Reads>, k: nat, n: nat, policy: Policy, clip: nat)
    requires AllOrdered(trace) && k <= n <= |trace|
    ensures |Before(trace, k, policy, clip).windows| == k && |Before(trace, n, policy, clip).windows| == n
    ensures Before(trace, n, policy, clip).windows[..k] == Before(trace, k, policy, clip).windows
    decreases n
  {
    PassCount(trace, k, policy, clip);
    PassCount(trace, n, policy, clip);
    if k < n {
      BeforeWindows(trace, k, n - 1, policy, clip);
      PassAt(trace, n - 1, policy, clip);
    }
  }

  /** Pass k took the audio-loss branch. */
  predicate Lost(trace: seq<Reads>, k: nat, policy: Policy, clip: nat)
    requires AllOrdered(trace) && k < |trace|
  {
    trace[k].tested - Before(trace, k, policy, clip).threshold > clip
  }

  /** The first byte that pass k has not yet seen copied: the end of the window before it. */
  function Reached(trace: seq<Reads>, k: nat, policy: Policy, clip: nat): nat
    requires AllOrdered(trace) && k < |trace|
  {
    if k == 0 then 0
    else
      PassCount(trace, k, policy, clip);
      Before(trace, k, policy, clip).windows[k - 1]
  }

  /** Byte p is one of those that the resynchronisation of pass k skips. */
  predicate Skips(trace: seq<Reads>, k: nat, policy: Policy, clip: nat, p: nat)
    requires AllOrdered(trace)
  {
    && k < |trace| && Lost(trace, k, policy, clip)
    && Reached(trace, k, policy, clip) <= p < trace[k].resync - clip
  }

  lemma GapIsSkip(trace: seq<Reads>, k: nat, policy: Policy, clip: nat, p: nat)
    requires AllOrdered(trace) && k < |trace| && (policy.Fixed? ==> policy.step <= clip)
    ensures InGap(Before(trace, |trace|, policy, clip).windows, k, p, clip) <==> Skips(trace, k, policy, clip, p)
  {
    BeforeWindows(trace, k, |trace|, policy, clip);
    BeforeWindows(trace, k + 1, |trace|, policy, clip);
    PassAt(trace, k, policy, clip);
    var ends := Before(trace, |trace|, policy, clip).windows;
    assert ends[..k + 1][k] == ends[k];
    if k > 0 {
      assert ends[..k][k - 1] == ends[k - 1];
      PassAt(trace, k - 1, policy, clip);
      PassCount(trace, k - 1, policy, clip);
    }
  }

  /** What a run gives up, however often it resynchronises: a byte below the last window is
      in no window exactly if some resynchronisation skipped it. */
  lemma Forfeited(trace: seq<Reads>, policy: Policy, clip: nat, p: nat)
    requires AllOrdered(trace) && |trace| > 0 && (policy.Fixed? ==> policy.step <= clip)
    requires p < Before(trace, |trace| - 1, policy, clip).Window(trace[|trace| - 1], clip)
    ensures !Copied(Before(trace, |trace|, policy, clip), p, clip) <==>
            exists k: nat :: Skips(trace, k, policy, clip, p)
  {
    var end, n := Before(trace, |trace|, policy, clip), |trace|;
    PassCount(trace, n - 1, policy, clip);
    PassCount(trace, n, policy, clip);
    PassAt(trace, n - 1, policy, clip);
    RunSorted(Loop(clip, [], 0), trace[..n], policy, clip);
    UncoveredAreGaps(end, p, clip);
    forall k: nat ensures InGap(end.windows, k, p, clip) <==> Skips(trace, k, policy, clip, p) {
      if k < n {
        GapIsSkip(trace, k, policy, clip, p);
      }
    }
  }

  /** The bytes a resynchronisation skips are the lag beyond one clip and the step before. */
  lemma SkippedBytes(trace: seq<Reads>, k: nat, policy: Policy, clip: nat)
    requires AllOrdered(trace) && 0 < k < |trace| && Lost(trace, k, policy, clip)
    ensures trace[k].resync - clip - Reached(trace, k, policy, clip)
         == (trace[k].resync - Before(trace, k, policy, clip).threshold - clip)
            + policy.Step(trace[k - 1].bottom - trace[k - 1].start, clip)
  {
    PassAt(trace, k - 1, policy, clip);
    PassCount(trace, k - 1, policy, clip);
  }

  // ---- loss ---------------------------------------------------------------------------------

  /** Every pass meets its step, and no byte arrives unmeasured: a pass whose threshold is
      already reached starts at once, and one that waits starts at the burst reaching it. */
  predicate Prompt(l: Loop, prev: nat, trace: seq<Reads>, policy: Policy, clip: nat, burst: nat)
    requires AllOrdered(trace)
    decreases |trace|
  {
    |trace| > 0 ==>
      var r := trace[0];
      && r.tested == r.start
      && (if prev >= l.threshold then r.start == prev else l.threshold <= r.start < l.threshold + burst)
      && r.bottom - r.start <= policy.Step(r.bottom - r.start, clip)
      && Prompt(l.Pass(r, policy, clip), r.bottom, trace[1..], policy, clip, burst)
  }

  /** The audio-loss branch is then never taken, and the lag stays under one burst. */
  lemma {:induction false} NoLoss(l: Loop, prev: nat, trace: seq<Reads>, policy: Policy, clip: nat, burst: nat)
    requires burst <= clip + 1 && prev - l.threshold < burst
    requires AllOrdered(trace) && Prompt(l, prev, trace, policy, clip, burst)
    ensures var end := Run(l, trace, policy, clip);
            end.losses == l.losses && (|trace| > 0 ==> trace[|trace| - 1].bottom - end.threshold < burst)
    decreases |trace|
  {
    if |trace| > 0 {
      var r := trace[0];
      assert r.start - l.threshold < burst;
      NoLoss(l.Pass(r, policy, clip), r.bottom, trace[1..], policy, clip, burst);
    }
  }

  /** Conversely, passes that always exceed their step lose audio, within clip + 2 passes. */
  lemma {:induction false} CertainLoss(l: Loop, trace: seq<Reads>, policy: Policy, clip: nat, lag: nat)
    requires |trace| > 0 && AllOrdered(trace) && Plausible(l, trace, policy, clip)
    requires forall k :: 0 <= k < |trace| ==>
               trace[k].bottom - trace[k].start > policy.Step(trace[k].bottom - trace[k].start, clip)
    requires l.threshold + lag <= trace[0].start && lag + |trace| > clip + 1
    ensures Run(l, trace, policy, clip).losses > l.losses
    decreases |trace|
  {
    var l' := l.Pass(trace[0], policy, clip);
    if trace[0].tested - l.threshold > clip {
      LossesGrow(l', trace[1..], policy, clip);
    } else {
      CertainLoss(l', trace[1..], policy, clip, lag + 1);
    }
  }
}
