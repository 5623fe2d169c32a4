/** The capture side and the main loop of the streaming firmware together: words from the
    DMA in, keyword reports out. */
module KeywordDevice {
  import opened FixedPoint
  import opened StreamSpec
  import HopCapture
  import KeywordFirmware
  import ScoreDetector

  /** The samples of the hops the main loop has taken. */
  function Taken(hops: seq<HopCapture.Hop>): (s: seq<seq<int8>>)
    ensures |s| == |hops|
  {
    seq(|hops|, k requires 0 <= k < |hops| => hops[k].kept)
  }

  /** What the DMA, the handler and the main loop have done: `serving` means that the main
      loop has copied a hop which it has not scored yet. */
  datatype State = State(capture: HopCapture.State, serving: bool)

  function Step(s: State, e: HopCapture.Event, depth: nat, size: nat): State {
    if e.Main? && s.serving then s.(serving := false)
    else State(HopCapture.Step(s.capture, e, depth, size), s.serving || (e.Main? && Takes(s.capture)))
  }

  predicate Takes(s: HopCapture.State) { s.place.SecondTest? && s.ready }

  function Run(s: State, events: seq<HopCapture.Event>, depth: nat, size: nat): State {
    if |events| == 0 then s
    else Step(Run(s, events[..|events| - 1], depth, size), events[|events| - 1], depth, size)
  }

  class Device {
    const capture: HopCapture.Capture
    const firmware: KeywordFirmware.Firmware
    var serving: bool

    ghost predicate Apart() {
      var safe, hop := capture.safeHop, capture.hopBuf;
      && safe != firmware.engine.audioRing && safe != firmware.engine.sampleBuf
      && safe != firmware.detector.smoothScores
      && hop != firmware.engine.audioRing && hop != firmware.engine.sampleBuf && hop != firmware.detector.smoothScores
    }

    ghost predicate Valid()
      reads this, capture, capture.dmaBatch, capture.hopBuf, capture.safeHop, firmware
      reads firmware.engine, firmware.engine.audioRing, firmware.engine.conv1Ctx, firmware.engine.conv2Ctx
      reads firmware.engine.conv3Ctx, firmware.engine.conv4Ctx, firmware.engine.pool2Buf, firmware.engine.pool3Buf
      reads firmware.engine.gapRing, firmware.engine.sampleBuf, firmware.detector, firmware.detector.scoreHistory
    {
      && Apart() && capture.size >= HOP && capture.Valid() && firmware.Valid()
      && HopCapture.Inv(capture.Now(), capture.depth, capture.size)
      && Taken(capture.hops) == firmware.hops + (if serving then [capture.safeHop[..]] else [])
    }

    ghost function Now(): State
      requires capture.Valid()
      reads this, capture, capture.dmaBatch, capture.hopBuf
    {
      State(capture.Now(), serving)
    }

    constructor (m: Model, window: nat, threshold: int, debounce: nat, depth: nat)
      requires m.Valid() && window > 0 && depth > 0
      ensures Valid() && Now() == State(HopCapture.INITIAL, false)
      ensures capture.depth == depth && firmware.engine.model == m
    {
      hide HopCapture.Inv, KeywordFirmware.Firmware.Valid;
      firmware := new KeywordFirmware.Firmware(m, window, threshold, debounce);
      capture := new HopCapture.Capture(depth, HOP);
      serving := false;
      new;
      HopCapture.InitialInv(capture.depth, capture.size);
    }

    /** The DMA and the handler: neither touches the hop being served. */
    method Move(w: word)
      requires Valid()
      modifies capture`moved, capture`words, capture`heard, capture.dmaBatch
      ensures Valid() && Now() == Step(old(Now()), HopCapture.Word(w), capture.depth, capture.size)
      ensures firmware.hops == old(firmware.hops)
    {
      hide HopCapture.Inv, KeywordFirmware.Firmware.Valid;
      HopCapture.RunKeeps(capture.Now(), [HopCapture.Word(w)], capture.depth, capture.size);
      HopCapture.OneEvent(capture.Now(), HopCapture.Word(w), capture.depth, capture.size);
      capture.DmaWord(w);
    }

    method TrapHandler()
      requires Valid()
      modifies capture`moved, capture`hopPos, capture`hopReady, capture`dmaEnabled, capture`place, capture`dropped
      modifies capture.hopBuf
      ensures Valid() && Now() == Step(old(Now()), HopCapture.Interrupt, capture.depth, capture.size)
      ensures firmware.hops == old(firmware.hops)
    {
      hide HopCapture.Inv, KeywordFirmware.Firmware.Valid;
      HopCapture.RunKeeps(capture.Now(), [HopCapture.Interrupt], capture.depth, capture.size);
      HopCapture.OneEvent(capture.Now(), HopCapture.Interrupt, capture.depth, capture.size);
      capture.TrapHandler();
    }

    /** The main loop copies a hop in one step and scores the copy in another, so the DMA
        and the handler may run in between. */
    method TakeOrWait()
      requires Valid() && !serving
      modifies this`serving, capture`hops, capture`dropped, capture`hopPos, capture`hopReady, capture`moved
      modifies capture`dmaEnabled, capture`place, capture.safeHop
      ensures Valid() && Now() == Step(old(Now()), HopCapture.Main, capture.depth, capture.size)
    {
      hide HopCapture.Inv, KeywordFirmware.Firmware.Valid;
      ghost var before := capture.Now();
      HopCapture.RunKeeps(before, [HopCapture.Main], capture.depth, capture.size);
      HopCapture.OneEvent(before, HopCapture.Main, capture.depth, capture.size);
      HopCapture.ReadyIsFull(before, capture.depth, capture.size);
      TakenNext(before, firmware.hops);
      assert before.ready ==> before.buf == capture.hopBuf[..];
      serving := capture.MainLoop();
    }

    method Serve()
      requires Valid() && serving
      modifies this`serving
      modifies firmware`hops, firmware.engine, firmware.engine.audioRing, firmware.engine.conv1Ctx
      modifies firmware.engine.conv2Ctx, firmware.engine.conv3Ctx, firmware.engine.conv4Ctx
      modifies firmware.engine.pool2Buf, firmware.engine.pool3Buf, firmware.engine.gapRing
      modifies firmware.engine.sampleBuf, firmware.detector, firmware.detector.scoreHistory
      modifies firmware.detector.smoothScores
      ensures Valid() && Now() == Step(old(Now()), HopCapture.Main, capture.depth, capture.size)
    {
      hide HopCapture.Inv, KeywordFirmware.Firmware.Valid;
      var verdict := firmware.ServeHop(capture.safeHop);
      serving := false;
      assert firmware.hops + [] == firmware.hops;
    }

    method Occur(e: HopCapture.Event)
      requires Valid()
      modifies this`serving, capture, capture.dmaBatch, capture.hopBuf, capture.safeHop
      modifies firmware`hops, firmware.engine, firmware.engine.audioRing, firmware.engine.conv1Ctx
      modifies firmware.engine.conv2Ctx, firmware.engine.conv3Ctx, firmware.engine.conv4Ctx
      modifies firmware.engine.pool2Buf, firmware.engine.pool3Buf, firmware.engine.gapRing
      modifies firmware.engine.sampleBuf, firmware.detector, firmware.detector.scoreHistory
      modifies firmware.detector.smoothScores
      ensures Valid() && Now() == Step(old(Now()), e, capture.depth, capture.size)
    {
      match e {
        case Word(w) => Move(w);
        case Interrupt => TrapHandler();
        case Main =>
          if serving {
            Serve();
          } else {
            TakeOrWait();
          }
      }
    }

    /** Any interleaving. */
    method RunEvents(events: seq<HopCapture.Event>)
      requires Valid()
      modifies this`serving, capture, capture.dmaBatch, capture.hopBuf, capture.safeHop
      modifies firmware`hops, firmware.engine, firmware.engine.audioRing, firmware.engine.conv1Ctx
      modifies firmware.engine.conv2Ctx, firmware.engine.conv3Ctx, firmware.engine.conv4Ctx
      modifies firmware.engine.pool2Buf, firmware.engine.pool3Buf, firmware.engine.gapRing
      modifies firmware.engine.sampleBuf, firmware.detector, firmware.detector.scoreHistory
      modifies firmware.detector.smoothScores
      ensures Valid() && Now() == Run(old(Now()), events, capture.depth, capture.size)
    {
      hide Step, HopCapture.Inv, KeywordFirmware.Firmware.Valid;
      for i := 0 to |events|
        invariant Valid() && Now() == Run(old(Now()), events[..i], capture.depth, capture.size)
      {
        Occur(events[i]);
        assert events[..i + 1][..i] == events[..i];
      }
      assert events[..|events|] == events;
    }
  }

  lemma TakenNext(before: HopCapture.State, served: seq<seq<int8>>)
    requires Taken(before.hops) == served
    ensures Taken(HopCapture.MainStep(before).hops) == served + (if Takes(before) then [before.buf] else [])
  {
  }

  // ---- from words to reports -------------------------------------------------------------------

  /** The first n hops' worth of a recording: `size` samples out of every `period`. */
  function Stretches(heard: seq<int8>, n: nat, size: nat, period: nat): seq<int8>
    requires size <= period && HopCapture.HopStart(n, period) <= |heard|
  {
    if n == 0 then []
    else
      HopCapture.NextPlace(n - 1, period);
      var at := HopCapture.HopStart(n - 1, period);
      Stretches(heard, n - 1, size, period) + heard[at..at + size]
  }

  function Period(depth: nat, size: nat): nat
    requires depth > 0
  {
    size + HopCapture.Excess(depth, size)
  }

  lemma HopsHeard(s: HopCapture.State, depth: nat, size: nat)
    requires depth > 0 && HopCapture.Inv(s, depth, size)
    ensures HopCapture.HopStart(|s.hops|, Period(depth, size)) <= |s.heard|
  {
    HopCapture.JoinedLength(s.hops, depth, size);
  }

  lemma {:induction false} Earlier(n: nat, k: nat, period: nat)
    requires n <= k
    ensures HopCapture.HopStart(n, period) <= HopCapture.HopStart(k, period)
    decreases k - n
  {
    if n < k {
      HopCapture.NextPlace(n, period);
      Earlier(n + 1, k, period);
    }
  }

  /** The recording of the first n hops taken, whatever the interleaving was. */
  lemma {:induction false} TakenStretches(s: HopCapture.State, depth: nat, size: nat, n: nat)
    requires depth > 0 && HopCapture.Inv(s, depth, size) && n <= |s.hops|
    ensures HopCapture.HopStart(n, Period(depth, size)) <= |s.heard|
    ensures KeywordFirmware.Heard(Taken(s.hops)[..n]) == Stretches(s.heard, n, size, Period(depth, size))
  {
    hide HopCapture.Inv, HopCapture.HopStart, HopCapture.Excess, KeywordFirmware.Heard, Stretches;
    var hops, period := Taken(s.hops), Period(depth, size);
    HopsHeard(s, depth, size);
    Earlier(n, |s.hops|, period);
    if n > 0 {
      TakenStretches(s, depth, size, n - 1);
      HopCapture.HopsInOrder(s, depth, size, n - 1);
      HeardUpTo(hops, n);
      NextStretch(s.heard, n, size, period, hops[n - 1]);
    } else {
      NoStretch(hops, s.heard, size, period);
    }
  }

  lemma HeardUpTo(hops: seq<seq<int8>>, n: nat)
    requires 0 < n <= |hops|
    ensures KeywordFirmware.Heard(hops[..n]) == KeywordFirmware.Heard(hops[..n - 1]) + hops[n - 1]
  {
    assert hops[..n] == hops[..n - 1] + [hops[n - 1]];
    KeywordFirmware.HeardNext(hops[..n - 1], hops[n - 1]);
  }

  lemma NextStretch(heard: seq<int8>, n: nat, size: nat, period: nat, hop: seq<int8>)
    requires 0 < n && size <= period && HopCapture.HopStart(n, period) <= |heard|
    requires var at := HopCapture.HopStart(n - 1, period); at + size <= |heard| && heard[at..at + size] == hop
    ensures Stretches(heard, n, size, period) == Stretches(heard, n - 1, size, period) + hop
  {
  }

  lemma NoStretch(hops: seq<seq<int8>>, heard: seq<int8>, size: nat, period: nat)
    requires size <= period
    ensures HopCapture.HopStart(0, period) == 0
    ensures KeywordFirmware.Heard(hops[..0]) == Stretches(heard, 0, size, period) == []
  {
  }

  /** If the batch divides the hop, the stretches leave nothing out. */
  lemma {:induction false} StretchesWhole(heard: seq<int8>, n: nat, size: nat)
    requires HopCapture.HopStart(n, size) <= |heard|
    ensures Stretches(heard, n, size, size) == heard[..HopCapture.HopStart(n, size)]
  {
    HopCapture.NextPlace(if n > 0 then n - 1 else 0, size);
    if n > 0 {
      StretchesWhole(heard, n - 1, size);
    }
  }

  /** The recording the network has scored after n hops. */
  ghost function Recording(d: Device, n: nat): seq<int8>
    requires d.capture.depth > 0
    requires HopCapture.HopStart(n, Period(d.capture.depth, d.capture.size)) <= |d.capture.heard|
    reads d.capture
  {
    Stretches(d.capture.heard, n, d.capture.size, Period(d.capture.depth, d.capture.size))
  }

  /** For every interleaving: if the words the DMA moved carry the samples xs, in bits 16 to
      23, row k of the scores is that of the network run once over the samples of hops 0 to
      k; with a batch that divides the hop those are all samples up to there. */
  lemma ScoresOfTheStream(d: Device, k: nat, xs: seq<int8>)
    requires d.Valid() && k < |d.firmware.hops| && HopCapture.Carry(d.capture.words, xs)
    ensures HopCapture.HopStart(k + 1, Period(d.capture.depth, d.capture.size)) <= |xs|
    ensures var audio := if d.capture.size % d.capture.depth == 0 then xs[..(k + 1) * d.capture.size]
                         else Stretches(xs, k + 1, d.capture.size, Period(d.capture.depth, d.capture.size));
            && Ready(d.firmware.engine.model, KeywordFirmware.Complete(audio))
            && d.firmware.detector.rows[k] == BatchScores(d.firmware.engine.model, KeywordFirmware.Complete(audio))
  {
    hide Ready, BatchScores;
    HopCapture.HeardCarried(d.capture.Now(), d.capture.depth, d.capture.size, xs);
    ScoresOfHeard(d, k);
  }

  lemma ScoresOfHeard(d: Device, k: nat)
    requires d.Valid() && k < |d.firmware.hops|
    ensures HopCapture.HopStart(k + 1, Period(d.capture.depth, d.capture.size)) <= |d.capture.heard|
    ensures Ready(d.firmware.engine.model, KeywordFirmware.Complete(Recording(d, k + 1)))
    ensures d.firmware.detector.rows[k]
         == BatchScores(d.firmware.engine.model, KeywordFirmware.Complete(Recording(d, k + 1)))
    ensures d.capture.size % d.capture.depth == 0
        ==> Recording(d, k + 1) == d.capture.heard[..HopCapture.HopStart(k + 1, d.capture.size)]
  {
    hide HopCapture.Inv, Ready, BatchScores;
    var c, f := d.capture, d.firmware;
    TakenStretches(c.Now(), c.depth, c.size, k + 1);
    assert Taken(c.hops)[..k + 1] == f.hops[..k + 1];
    assert KeywordFirmware.ScoredAt(f.engine.model, f.hops[..k + 1], f.detector.rows[k]);
    if c.size % c.depth == 0 {
      StretchesWhole(c.heard, k + 1, c.size);
    }
  }

  /** Two devices of one configuration that heard the same samples for n hops. */
  ghost predicate Alike(d: Device, e: Device, n: nat)
    reads d.capture, e.capture
  {
    && d.firmware.engine.model == e.firmware.engine.model
    && d.capture.depth == e.capture.depth && d.capture.size == e.capture.size
    && d.firmware.detector.window == e.firmware.detector.window
    && d.firmware.detector.threshold == e.firmware.detector.threshold
    && d.firmware.detector.debounceHops == e.firmware.detector.debounceHops
    && d.capture.depth > 0
    && var end := HopCapture.HopStart(n, Period(d.capture.depth, d.capture.size));
       end <= |d.capture.heard| && end <= |e.capture.heard| && d.capture.heard[..end] == e.capture.heard[..end]
  }

  lemma SameRow(d: Device, e: Device, n: nat, k: nat)
    requires d.Valid() && e.Valid() && Alike(d, e, n) && k < n <= |d.firmware.hops| && n <= |e.firmware.hops|
    ensures |d.firmware.detector.rows| == |d.firmware.hops| && |e.firmware.detector.rows| == |e.firmware.hops|
    ensures d.firmware.detector.rows[k] == e.firmware.detector.rows[k]
  {
    hide HopCapture.Inv, Ready, BatchScores, Stretches, HopCapture.HopStart;
    ScoresOfHeard(d, k);
    ScoresOfHeard(e, k);
    SameStretches(d.capture.heard, e.capture.heard, n, k + 1, d.capture.size, Period(d.capture.depth, d.capture.size));
  }

  /** The interleaving does not matter: they have made the same n reports. */
  lemma ReportsOfTheStream(d: Device, e: Device, n: nat)
    requires d.Valid() && e.Valid() && Alike(d, e, n) && n <= |d.firmware.hops| && n <= |e.firmware.hops|
    ensures d.firmware.detector.verdicts[..n] == e.firmware.detector.verdicts[..n]
  {
    hide HopCapture.Inv, ScoreDetector.Run, ScoreDetector.Smoothed;
    var x, y := d.firmware.detector, e.firmware.detector;
    forall k | 0 <= k < n ensures x.rows[k] == y.rows[k] {
      SameRow(d, e, n, k);
    }
    assert x.rows[..n] == y.rows[..n];
    ScoreDetector.ReportsStand(x.rows, x.window, x.threshold, x.debounceHops, n);
    ScoreDetector.ReportsStand(y.rows, y.window, y.threshold, y.debounceHops, n);
  }

  lemma {:induction false} SameStretches(a: seq<int8>, b: seq<int8>, n: nat, k: nat, size: nat, period: nat)
    requires k <= n && size <= period && HopCapture.HopStart(n, period) <= |a| && HopCapture.HopStart(n, period) <= |b|
    requires a[..HopCapture.HopStart(n, period)] == b[..HopCapture.HopStart(n, period)]
    ensures HopCapture.HopStart(k, period) <= |a| && HopCapture.HopStart(k, period) <= |b|
    ensures Stretches(a, k, size, period) == Stretches(b, k, size, period)
  {
    Earlier(k, n, period);
    if k > 0 {
      SameStretches(a, b, n, k - 1, size, period);
      HopCapture.NextPlace(k - 1, period);
      SamePart(a, b, HopCapture.HopStart(k - 1, period), size, HopCapture.HopStart(n, period));
    }
  }

  lemma SamePart(a: seq<int8>, b: seq<int8>, at: nat, size: nat, end: nat)
    requires at + size <= end <= |a| && end <= |b| && a[..end] == b[..end]
    ensures a[at..at + size] == b[at..at + size]
  {
    assert a[at..at + size] == a[..end][at..at + size];
    assert b[at..at + size] == b[..end][at..at + size];
  }
}
