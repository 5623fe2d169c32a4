/** The hand-over of hops between the DMA interrupt handler and the main loop of the
    streaming firmware, for every interleaving of the two with the DMA. */
module HopCapture {
  import opened FixedPoint
  import Ring

  /** The handler's reading of a FIFO word: bits 16 to 23, as a signed byte. */
  function Sample(w: word): int8 {
    var b := (w / 0x1_0000) % 256;
    if b < 128 then b else b - 256
  }

  function Samples(words: seq<word>): (s: seq<int8>)
    ensures |s| == |words|
  {
    seq(|words|, i requires 0 <= i < |words| => Sample(words[i]))
  }

  /** A FIFO word as the microphone interface fills it: the sample in bits 16 to 23, anything
      above and below it. */
  function FifoWord(high: nat, x: int8, low: nat): word
    requires high < 256 && low < 0x1_0000
  {
    var sample: int := x;
    high * 0x100_0000 + (if sample < 0 then sample + 256 else sample) * 0x1_0000 + low
  }

  /** The words carry these samples. */
  ghost predicate Carry(words: seq<word>, xs: seq<int8>) {
    |words| == |xs| && forall i :: 0 <= i < |xs| ==> Carries(words[i], xs[i])
  }

  ghost predicate Carries(w: word, x: int8) {
    exists high: nat, low: nat :: high < 256 && low < 0x1_0000 && w == FifoWord(high, x, low)
  }

  lemma SampleOf(high: nat, x: int8, low: nat)
    requires high < 256 && low < 0x1_0000
    ensures Sample(FifoWord(high, x, low)) == x
  {
    var b := if x < 0 then (x as int) + 256 else x;
    var w := FifoWord(high, x, low);
    assert w == (high * 256 + b) * 0x1_0000 + low;
    Ring.ModShift(high * 256 + b, low, 0x1_0000);
    Ring.ModShift(high, b, 256);
  }

  lemma SamplesCarried(words: seq<word>, xs: seq<int8>)
    requires Carry(words, xs)
    ensures Samples(words) == xs
  {
    forall i | 0 <= i < |xs| ensures Sample(words[i]) == xs[i] {
      assert Carries(words[i], xs[i]);
      var high: nat, low: nat :| high < 256 && low < 0x1_0000 && words[i] == FifoWord(high, xs[i], low);
      SampleOf(high, xs[i], low);
    }
  }

  /** Where the main loop is: before the first test of hop_ready, between a failed first
      test and the wfi instruction, stopped in wfi, or before the second test. */
  datatype Place = FirstTest | BeforeWfi | Waiting | SecondTest

  /** What happens next: the DMA moves a word, the handler of a complete burst runs, or
      the main loop makes a step. */
  datatype Event = Word(w: word) | Interrupt | Main

  /** A hop the main loop has taken, and what the handler could not store for it. */
  datatype Hop = Hop(kept: seq<int8>, dropped: seq<int8>)

  /** The shared state, with its history: `words` is every word the DMA has moved and `heard`
      the samples in them. */
  datatype State = State(batch: seq<word>, buf: seq<int8>, ready: bool, enabled: bool, place: Place,
                         dropped: seq<int8>, hops: seq<Hop>, words: seq<word>, heard: seq<int8>)

  const INITIAL: State := State([], [], false, true, FirstTest, [], [], [], [])

  function First(s: seq<int8>, n: nat): seq<int8> { if |s| <= n then s else s[..n] }

  function Rest(s: seq<int8>, n: nat): seq<int8> { if |s| <= n then [] else s[n..] }

  /** Whatever samples the words carry: they follow what was there, as far as they fit, and
      the rest is late. */
  ghost predicate Stored(before: seq<int8>, words: seq<word>, size: nat, kept: seq<int8>, late: seq<int8>) {
    forall xs :: Carry(words, xs) ==>
      kept + late == before + xs && |kept| == if |before + xs| <= size then |before + xs| else size
  }

  lemma StoredCarried(before: seq<int8>, words: seq<word>, size: nat)
    ensures Stored(before, words, size, First(before + Samples(words), size), Rest(before + Samples(words), size))
  {
    forall xs | Carry(words, xs)
      ensures First(before + Samples(words), size) + Rest(before + Samples(words), size) == before + xs
      ensures |before + Samples(words)| == |before + xs|
    {
      SamplesCarried(words, xs);
      Split(before + xs, size);
    }
  }

  lemma NothingBeyond(s: seq<int8>, n: nat)
    requires |s| <= n
    ensures First(s, n) == s && Rest(s, n) == []
  {
  }

  lemma OneMore(s: seq<int8>, x: int8, n: nat)
    ensures |First(s, n)| < n ==> First(s + [x], n) == First(s, n) + [x] && Rest(s + [x], n) == Rest(s, n)
    ensures |First(s, n)| >= n ==> First(s + [x], n) == First(s, n) && Rest(s + [x], n) == Rest(s, n) + [x]
  {
  }

  function WordStep(s: State, w: word, depth: nat): State {
    if s.enabled && |s.batch| < depth
    then s.(batch := s.batch + [w], words := s.words + [w], heard := s.heard + [Sample(w)])
    else s
  }

  function InterruptStep(s: State, depth: nat, size: nat): State {
    if |s.batch| != depth then s
    else
      var all := s.buf + Samples(s.batch);
      var full := |all| >= size;
      s.(buf := First(all, size), dropped := s.dropped + Rest(all, size), batch := [],
         ready := s.ready || full, enabled := !full,
         place := if s.place.Waiting? then SecondTest else s.place)
  }

  /** The copy and the re-arming happen with the DMA disabled, so as one step. */
  function MainStep(s: State): State {
    match s.place
    case FirstTest => s.(place := if s.ready then SecondTest else BeforeWfi)
    case BeforeWfi => s.(place := Waiting)
    case Waiting => s
    case SecondTest =>
      if !s.ready then s.(place := FirstTest)
      else s.(hops := s.hops + [Hop(s.buf, s.dropped)], buf := [], dropped := [], batch := [],
              ready := false, enabled := true, place := FirstTest)
  }

  function Step(s: State, e: Event, depth: nat, size: nat): State {
    match e
    case Word(w) => WordStep(s, w, depth)
    case Interrupt => InterruptStep(s, depth, size)
    case Main => MainStep(s)
  }

  function Run(s: State, events: seq<Event>, depth: nat, size: nat): State
    decreases |events|
  {
    if |events| == 0 then s else Run(Step(s, events[0], depth, size), events[1..], depth, size)
  }

  /** The firmware's objects. */
  class Capture {
    const depth: nat              // I2S_FIFO_DEPTH
    const size: nat               // HOP_BUF_SZ
    const dmaBatch: array<word>
    const hopBuf: array<int8>
    const safeHop: array<int8>
    var moved: nat                // words of the current burst in dmaBatch
    var hopPos: nat
    var hopReady: bool
    var dmaEnabled: bool
    var place: Place

    ghost var dropped: seq<int8>
    ghost var hops: seq<Hop>
    ghost var words: seq<word>
    ghost var heard: seq<int8>

    ghost predicate Valid()
      reads this
    {
      && 0 < depth <= size && dmaBatch.Length == depth && hopBuf.Length == size && safeHop.Length == size
      && hopBuf != safeHop && moved <= depth && hopPos <= size
    }

    ghost function Now(): State
      requires Valid()
      reads this, dmaBatch, hopBuf
    {
      State(dmaBatch[..moved], hopBuf[..hopPos], hopReady, dmaEnabled, place, dropped, hops, words, heard)
    }

    constructor (depth: nat, hop: nat)
      requires 0 < depth
      ensures Valid() && Now() == INITIAL && this.depth == depth
      ensures size == if depth >= hop then depth else hop
      ensures fresh(dmaBatch) && fresh(hopBuf) && fresh(safeHop)
    {
      this.depth := depth;
      size := if depth >= hop then depth else hop;
      dmaBatch := new word[depth](_ => 0);
      hopBuf := new int8[if depth >= hop then depth else hop](_ => 0);
      safeHop := new int8[if depth >= hop then depth else hop](_ => 0);
      moved, hopPos, hopReady, dmaEnabled, place := 0, 0, false, true, FirstTest;
      dropped, hops, words, heard := [], [], [], [];
    }

    method DmaArm()
      requires Valid()
      modifies this`moved, this`dmaEnabled
      ensures Valid() && moved == 0 && dmaEnabled
    {
      dmaEnabled := true;
      moved := 0;
    }

    method DmaWord(w: word)
      requires Valid()
      modifies this`moved, this`words, this`heard, dmaBatch
      ensures Valid() && Now() == WordStep(old(Now()), w, depth)
    {
      if dmaEnabled && moved < depth {
        dmaBatch[moved] := w;
        moved := moved + 1;
        words := words + [w];
        heard := heard + [Sample(w)];
        assert dmaBatch[..moved] == old(dmaBatch[..moved]) + [w];
      }
    }

    /** The loop of the handler over the batch. */
    method Extract()
      requires Valid() && moved == depth
      modifies this`hopPos, this`dropped, hopBuf
      ensures Valid()
      ensures var all := old(hopBuf[..hopPos]) + Samples(dmaBatch[..]);
              hopBuf[..hopPos] == First(all, size) && dropped == old(dropped) + Rest(all, size)
      ensures exists late :: dropped == old(dropped) + late
                             && Stored(old(hopBuf[..hopPos]), dmaBatch[..], size, hopBuf[..hopPos], late)
    {
      hide First, Rest, Stored;
      ghost var before, samples := hopBuf[..hopPos], Samples(dmaBatch[..]);
      NothingBeyond(before, size);
      assert before + samples[..0] == before;
      for i := 0 to depth
        invariant hopPos <= size && Valid()
        invariant hopBuf[..hopPos] == First(before + samples[..i], size)
        invariant dropped == old(dropped) + Rest(before + samples[..i], size)
      {
        ghost var all := before + samples[..i];
        assert before + samples[..i + 1] == all + [samples[i]];
        OneMore(all, samples[i], size);
        var q7 := Sample(dmaBatch[i]);
        if hopPos < size {
          hopBuf[hopPos] := q7;
          hopPos := hopPos + 1;
          assert hopBuf[..hopPos] == hopBuf[..hopPos - 1] + [q7];
        } else {
          dropped := dropped + [q7];
        }
      }
      assert samples[..depth] == samples;
      StoredCarried(before, dmaBatch[..], size);
      assert Stored(before, dmaBatch[..], size, hopBuf[..hopPos], Rest(before + samples, size));
    }

    method TrapHandler()
      requires Valid()
      modifies this`moved, this`hopPos, this`hopReady, this`dmaEnabled, this`place, this`dropped, hopBuf
      ensures Valid() && Now() == InterruptStep(old(Now()), depth, size)
    {
      if moved == depth {
        assert dmaBatch[..moved] == dmaBatch[..];
        Extract();
        if hopPos >= size {
          hopReady := true;
          dmaEnabled := false;
          moved := 0;
        } else {
          DmaArm();
        }
        place := if place.Waiting? then SecondTest else place;
      }
    }

    /** The main loop's copy of a complete hop. */
    method TakeHop()
      requires Valid() && hopPos == size
      modifies this`hops, this`dropped, this`hopPos, this`hopReady, this`moved, this`dmaEnabled, safeHop
      ensures Valid() && safeHop[..] == hopBuf[..] == old(hopBuf[..])
      ensures hops == old(hops) + [Hop(hopBuf[..], old(dropped))] && dropped == []
      ensures hopPos == 0 && !hopReady && moved == 0 && dmaEnabled
    {
      Copy(safeHop, 0, hopBuf, 0, size);
      hops := hops + [Hop(hopBuf[..], dropped)];
      dropped := [];
      hopPos := 0;
      hopReady := false;
      DmaArm();
    }

    method MainLoop() returns (taken: bool)
      requires Valid() && Inv(Now(), depth, size)
      modifies this`hops, this`dropped, this`hopPos, this`hopReady, this`moved, this`dmaEnabled, this`place, safeHop
      ensures Valid() && Now() == MainStep(old(Now()))
      ensures taken <==> old(place.SecondTest? && hopReady)
      ensures taken ==> safeHop[..] == old(hopBuf[..])
    {
      ReadyIsFull(Now(), depth, size);
      hide Inv;
      taken := false;
      match place {
        case FirstTest =>
          place := if hopReady then SecondTest else BeforeWfi;
        case BeforeWfi =>
          place := Waiting;
        case Waiting =>
        case SecondTest =>
          if hopReady {
            assert hopBuf[..hopPos] == hopBuf[..];
            TakeHop();
            taken := true;
          }
          place := FirstTest;
      }
    }
  }

  lemma ReadyIsFull(s: State, depth: nat, size: nat)
    requires Inv(s, depth, size)
    ensures s.ready ==> |s.buf| == size && !s.enabled
  {
  }

  // ---- what every interleaving keeps ---------------------------------------------------------

  function Joined(hops: seq<Hop>): seq<int8> {
    if |hops| == 0 then [] else Joined(hops[..|hops| - 1]) + hops[|hops| - 1].kept + hops[|hops| - 1].dropped
  }

  /** A hop is made of whole batches, the last of which completed it. */
  ghost predicate Whole(kept: nat, dropped: nat, depth: nat, size: nat)
    requires depth > 0
  {
    kept == size && dropped < depth && (kept + dropped) % depth == 0
  }

  ghost predicate Inv(s: State, depth: nat, size: nat) {
    && 0 < depth <= size && |s.batch| <= depth && |s.buf| <= size
    && s.enabled == !s.ready
    && (if s.ready then Whole(|s.buf|, |s.dropped|, depth, size) && s.batch == []
        else |s.buf| < size && |s.buf| % depth == 0 && s.dropped == [])
    && (forall k :: 0 <= k < |s.hops| ==> Whole(|s.hops[k].kept|, |s.hops[k].dropped|, depth, size))
    && s.heard == Joined(s.hops) + s.buf + s.dropped + Samples(s.batch)
    && s.heard == Samples(s.words)
  }

  lemma InitialInv(depth: nat, size: nat)
    requires 0 < depth <= size
    ensures Inv(INITIAL, depth, size)
  {
    Ring.ModShift(0, 0, depth);
  }

  lemma WordKeeps(s: State, w: word, depth: nat, size: nat)
    requires Inv(s, depth, size)
    ensures Inv(WordStep(s, w, depth), depth, size)
  {
    assert Samples(s.batch + [w]) == Samples(s.batch) + [Sample(w)];
    assert Samples(s.words + [w]) == Samples(s.words) + [Sample(w)];
  }

  lemma InterruptKeeps(s: State, depth: nat, size: nat)
    requires Inv(s, depth, size)
    ensures Inv(InterruptStep(s, depth, size), depth, size)
  {
    if |s.batch| == depth {
      var s' := InterruptStep(s, depth, size);
      OneBatchMore(|s.buf|, depth);
      Split(s.buf + Samples(s.batch), size);
      Regroup(Joined(s.hops), s.buf, Samples(s.batch), s'.buf, s'.dropped);
    }
  }

  lemma OneBatchMore(n: nat, depth: nat)
    requires depth > 0 && n % depth == 0
    ensures (n + depth) % depth == 0
  {
    assert n + depth == (n / depth + 1) * depth + 0;
    Ring.ModShift(n / depth + 1, 0, depth);
  }

  lemma Split(all: seq<int8>, size: nat)
    ensures First(all, size) + Rest(all, size) == all
    ensures |First(all, size)| == if |all| <= size then |all| else size
  {
  }

  lemma Regroup(joined: seq<int8>, buf: seq<int8>, batch: seq<int8>, buf': seq<int8>, dropped': seq<int8>)
    requires buf' + dropped' == buf + batch
    ensures joined + buf + [] + batch == joined + buf' + dropped' + []
  {
    assert joined + buf + [] + batch == joined + (buf + batch);
    assert joined + buf' + dropped' + [] == joined + (buf' + dropped');
  }

  lemma MainKeeps(s: State, depth: nat, size: nat)
    requires Inv(s, depth, size)
    ensures Inv(MainStep(s), depth, size)
  {
    if s.place.SecondTest? && s.ready {
      var hop := Hop(s.buf, s.dropped);
      assert (s.hops + [hop])[..|s.hops|] == s.hops;
      assert Joined(s.hops + [hop]) == Joined(s.hops) + s.buf + s.dropped;
      Ring.ModShift(0, 0, depth);
    }
  }

  /** Whatever the interleaving: a ready hop means the DMA is disabled, and everything the
      DMA moved is in order in the hops taken and the buffers. */
  lemma {:induction false} RunKeeps(s: State, events: seq<Event>, depth: nat, size: nat)
    requires Inv(s, depth, size)
    ensures Inv(Run(s, events, depth, size), depth, size)
    decreases |events|
  {
    if |events| > 0 {
      match events[0] {
        case Word(w) => WordKeeps(s, w, depth, size);
        case Interrupt => InterruptKeeps(s, depth, size);
        case Main => MainKeeps(s, depth, size);
      }
      RunKeeps(Step(s, events[0], depth, size), events[1..], depth, size);
    }
  }

  // ---- the hops ----------------------------------------------------------------------------------

  /** Samples of the last batch that do not fit the hop. */
  function Excess(depth: nat, size: nat): (n: nat)
    requires depth > 0
    ensures n < depth && (n == 0 <==> size % depth == 0)
  {
    if size % depth == 0 then 0 else depth - size % depth
  }

  lemma WholeExcess(kept: nat, dropped: nat, depth: nat, size: nat)
    requires depth > 0 && Whole(kept, dropped, depth, size)
    ensures dropped == Excess(depth, size)
  {
    Ring.SumMod(size, dropped, depth);
    SmallMultiple(size % depth + dropped, depth);
  }

  lemma SmallMultiple(x: nat, depth: nat)
    requires depth > 0 && x < 2 * depth && x % depth == 0
    ensures x == 0 || x == depth
  {
    if x < depth {
      Ring.ModShift(0, x, depth);
    } else {
      Ring.ModShift(1, x - depth, depth);
    }
  }

  function HopStart(k: nat, period: nat): nat { k * period }

  lemma NextPlace(k: nat, period: nat)
    ensures HopStart(k + 1, period) == HopStart(k, period) + period && HopStart(0, period) == 0
  {
  }

  lemma {:induction false} JoinedLength(hops: seq<Hop>, depth: nat, size: nat)
    requires depth > 0
    requires forall k :: 0 <= k < |hops| ==> Whole(|hops[k].kept|, |hops[k].dropped|, depth, size)
    ensures |Joined(hops)| == HopStart(|hops|, size + Excess(depth, size))
    decreases |hops|
  {
    NextPlace(if |hops| > 0 then |hops| - 1 else 0, size + Excess(depth, size));
    if |hops| > 0 {
      var last := hops[|hops| - 1];
      WholeExcess(|last.kept|, |last.dropped|, depth, size);
      JoinedLength(hops[..|hops| - 1], depth, size);
    }
  }

  lemma {:induction false} JoinedAt(hops: seq<Hop>, depth: nat, size: nat, k: nat)
    requires depth > 0 && k < |hops|
    requires forall i :: 0 <= i < |hops| ==> Whole(|hops[i].kept|, |hops[i].dropped|, depth, size)
    ensures var at := HopStart(k, size + Excess(depth, size));
            at + size <= |Joined(hops)| && Joined(hops)[at..at + size] == hops[k].kept
    decreases |hops|
  {
    var n := |hops| - 1;
    JoinedLength(hops[..n], depth, size);
    if k < n {
      JoinedAt(hops[..n], depth, size, k);
    }
  }

  /** Hop k is one unbroken stretch of what the DMA moved, starting k whole periods in; the
      periods have no gap between the hops exactly when the batch divides the hop. */
  lemma HopsInOrder(s: State, depth: nat, size: nat, k: nat)
    requires Inv(s, depth, size) && k < |s.hops|
    ensures var at := HopStart(k, size + Excess(depth, size));
            at + size <= |s.heard| && s.heard[at..at + size] == s.hops[k].kept
    ensures |s.hops[k].dropped| == 0 <==> size % depth == 0
  {
    JoinedAt(s.hops, depth, size, k);
    WholeExcess(|s.hops[k].kept|, |s.hops[k].dropped|, depth, size);
  }

  /** What has been heard are the samples that the words carry. */
  lemma HeardCarried(s: State, depth: nat, size: nat, xs: seq<int8>)
    requires Inv(s, depth, size) && Carry(s.words, xs)
    ensures s.heard == xs
  {
    SamplesCarried(s.words, xs);
  }

  // ---- the missed wake-up --------------------------------------------------------------------------

  /** A hop is ready, but the main loop waits for an interrupt that cannot come. */
  predicate Stuck(s: State) {
    s.ready && s.place.Waiting?
  }

  lemma {:induction false} StuckForever(s: State, events: seq<Event>, depth: nat, size: nat)
    requires Inv(s, depth, size) && Stuck(s)
    ensures Run(s, events, depth, size) == s
    decreases |events|
  {
    if |events| > 0 {
      StuckForever(s, events[1..], depth, size);
    }
  }

  /** The interrupt that completed a hop came after its test and before wfi. */
  predicate Missed(s: State) {
    s.ready && s.place.BeforeWfi?
  }

  /** A run gets stuck exactly if somewhere in it the loop goes on to wfi in such a state. */
  lemma {:induction false} StuckExactly(s: State, events: seq<Event>, depth: nat, size: nat)
    requires Inv(s, depth, size) && !Stuck(s)
    ensures Stuck(Run(s, events, depth, size))
       <==> exists i :: 0 <= i < |events| && events[i].Main? && Missed(Run(s, events[..i], depth, size))
    decreases |events|
  {
    if |events| > 0 {
      hide Inv;
      var s', rest := Step(s, events[0], depth, size), events[1..];
      RunKeeps(s, events[..1], depth, size);
      assert Run(s, events[..1], depth, size) == s' by {
        OneEvent(s, events[0], depth, size);
        assert events[..1] == [events[0]];
      }
      assert Run(s, events[..0], depth, size) == s;
      if Stuck(s') {
        StuckForever(s', rest, depth, size);
        assert events[0].Main? && Missed(Run(s, events[..0], depth, size));
      } else {
        StuckExactly(s', rest, depth, size);
        forall i | 0 < i < |events|
          ensures Run(s, events[..i], depth, size) == Run(s', rest[..i - 1], depth, size)
        {
          assert events[..i][1..] == rest[..i - 1];
        }
        if i :| 0 <= i < |rest| && rest[i].Main? && Missed(Run(s', rest[..i], depth, size)) {
          assert events[i + 1].Main? && Missed(Run(s, events[..i + 1], depth, size));
        }
      }
    }
  }

  lemma OneEvent(s: State, e: Event, depth: nat, size: nat)
    ensures Run(s, [e], depth, size) == Step(s, e, depth, size)
  {
    assert [e][1..] == [];
  }

  lemma {:induction false} RunWords(s: State, n: nat, depth: nat, size: nat)
    requires s.enabled && |s.batch| + n <= depth
    ensures var s' := Run(s, seq(n, _ => Word(0)), depth, size);
            |s'.batch| == |s.batch| + n && s' == s.(batch := s'.batch, words := s'.words, heard := s'.heard)
    decreases n
  {
    var words := seq(n, _ => Word(0));
    if n > 0 {
      assert words[1..] == seq(n - 1, _ => Word(0));
      RunWords(WordStep(s, 0, depth), n - 1, depth, size);
    }
  }

  lemma {:induction false} RunAppend(s: State, a: seq<Event>, b: seq<Event>, depth: nat, size: nat)
    ensures Run(s, a + b, depth, size) == Run(Run(s, a, depth, size), b, depth, size)
    decreases |a|
  {
    if |a| == 0 {
      assert a + b == b;
    } else {
      assert (a + b)[1..] == a[1..] + b;
      RunAppend(Step(s, a[0], depth, size), a[1..], b, depth, size);
    }
  }

  /** A batch of words and its interrupt. */
  function Batch(depth: nat): seq<Event> {
    seq(depth, _ => Word(0)) + [Interrupt]
  }

  lemma RunBatch(s: State, depth: nat, size: nat)
    requires Inv(s, depth, size) && s.enabled && s.batch == []
    ensures var s' := Run(s, Batch(depth), depth, size);
            && s'.place == (if s.place.Waiting? then SecondTest else s.place) && s'.batch == []
            && s'.ready == (|s.buf| + depth >= size) && Inv(s', depth, size)
            && (!s'.ready ==> |s'.buf| == |s.buf| + depth)
  {
    var words := seq(depth, _ => Word(0));
    RunAppend(s, words, [Interrupt], depth, size);
    RunWords(s, depth, depth, size);
    var full := Run(s, words, depth, size);
    OneEvent(full, Interrupt, depth, size);
    RunKeeps(s, Batch(depth), depth, size);
  }

  /** A run that starts with `filled` samples in the hop buffer: the loop serves every batch
      in time until the one that completes the hop, which comes between its test and wfi. */
  function LateBatch(filled: nat, depth: nat, size: nat): seq<Event>
    requires depth > 0
    decreases size - filled
  {
    if filled + depth < size
    then [Main, Main] + Batch(depth) + [Main] + LateBatch(filled + depth, depth, size)
    else [Main] + Batch(depth) + [Main]
  }

  lemma {:induction false} LateFrom(s: State, depth: nat, size: nat)
    requires 0 < depth && Inv(s, depth, size) && s.place.FirstTest? && !s.ready && s.batch == []
    ensures Stuck(Run(s, LateBatch(|s.buf|, depth, size), depth, size))
    decreases size - |s.buf|
  {
    hide Inv;
    var n := |s.buf|;
    if n + depth < size {
      var waiting := MainStep(MainStep(s));
      Run4(s, [Main, Main], Batch(depth), [Main], LateBatch(n + depth, depth, size), depth, size);
      TwoEvents(s, Main, Main, depth, size);
      RunKeeps(s, [Main, Main], depth, size);
      RunBatch(waiting, depth, size) by { NotReady(waiting, depth, size); }
      var served := Run(waiting, Batch(depth), depth, size);
      OneEvent(served, Main, depth, size);
      RunKeeps(served, [Main], depth, size);
      LateFrom(MainStep(served), depth, size);
    } else {
      var tested := MainStep(s);
      Run4(s, [Main], Batch(depth), [Main], [], depth, size);
      assert [Main] + Batch(depth) + [Main] + [] == [Main] + Batch(depth) + [Main];
      OneEvent(s, Main, depth, size);
      RunKeeps(s, [Main], depth, size);
      RunBatch(tested, depth, size) by { NotReady(tested, depth, size); }
      OneEvent(Run(tested, Batch(depth), depth, size), Main, depth, size);
    }
  }

  lemma NotReady(s: State, depth: nat, size: nat)
    requires Inv(s, depth, size)
    ensures !s.ready <==> s.enabled
  {
  }

  lemma TwoEvents(s: State, d: Event, e: Event, depth: nat, size: nat)
    ensures Run(s, [d, e], depth, size) == Step(Step(s, d, depth, size), e, depth, size)
  {
    assert [d, e][1..] == [e];
    OneEvent(Step(s, d, depth, size), e, depth, size);
  }

  lemma Run4(s: State, a: seq<Event>, b: seq<Event>, c: seq<Event>, d: seq<Event>, depth: nat, size: nat)
    ensures Run(s, a + b + c + d, depth, size)
         == Run(Run(Run(Run(s, a, depth, size), b, depth, size), c, depth, size), d, depth, size)
  {
    RunAppend(s, a + b + c, d, depth, size);
    RunAppend(s, a + b, c, depth, size);
    RunAppend(s, a, b, depth, size);
  }

  /** For every batch and every hop size, of one batch or of many, the state is reached. */
  lemma WakeUpMissed(depth: nat, size: nat)
    requires 0 < depth <= size
    ensures Stuck(Run(INITIAL, LateBatch(0, depth, size), depth, size))
  {
    InitialInv(depth, size);
    LateFrom(INITIAL, depth, size);
  }
}
