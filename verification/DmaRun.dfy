/** What happens to the capture ring as a function of the hardware events: the DMA moving
    bytes and completed bursts being handled, between any two steps of the main loop. */
module DmaRun {
  import opened FixedPoint
  import opened WindowLoop

  /** The DMA moves one byte, or the interrupt handler of a complete burst runs. */
  datatype Event = Byte(sample: int8) | BurstDone

  /** Every byte the DMA has moved, and how many of them belong to the burst in flight. */
  datatype Hardware = Hardware(stream: seq<int8>, moved: nat)
  {
    /** Bytes of completed bursts that the interrupt handler has counted. */
    function Counted(): int { |stream| - moved }

    predicate Sane(burst: nat) { 0 < burst && moved <= burst && moved <= |stream| }
  }

  /** The DMA starts no burst before the handler of the last one has run. */
  function Happen(h: Hardware, e: Event, burst: nat): Hardware {
    match e
    case Byte(sample) => if h.moved < burst then Hardware(h.stream + [sample], h.moved + 1) else h
    case BurstDone => if h.moved == burst then Hardware(h.stream, 0) else h
  }

  function After(h: Hardware, events: seq<Event>, burst: nat): Hardware
    decreases |events|
  {
    if |events| == 0 then h else After(Happen(h, events[0], burst), events[1..], burst)
  }

  function AfterAll(h: Hardware, schedule: seq<seq<Event>>, burst: nat): Hardware
    decreases |schedule|
  {
    if |schedule| == 0 then h else AfterAll(After(h, schedule[0], burst), schedule[1..], burst)
  }

  // ---- how much can happen ---------------------------------------------------------------

  function Arrivals(events: seq<Event>): (n: nat) {
    if |events| == 0 then 0 else (if events[0].Byte? then 1 else 0) + Arrivals(events[1..])
  }

  function TotalArrivals(schedule: seq<seq<Event>>): (n: nat) {
    if |schedule| == 0 then 0 else Arrivals(schedule[0]) + TotalArrivals(schedule[1..])
  }

  /** Handler runs among the events. */
  function Bursts(events: seq<Event>): (n: nat) {
    if |events| == 0 then 0 else (if events[0].BurstDone? then 1 else 0) + Bursts(events[1..])
  }

  /** The stream only grows, by at most the bytes that arrive, and the counter only advances. */
  predicate Grown(h: Hardware, h': Hardware, arrivals: nat, burst: nat) {
    && h'.Sane(burst) && h.stream <= h'.stream
    && |h'.stream| <= |h.stream| + arrivals && h.Counted() <= h'.Counted()
  }

  lemma {:induction false} AfterGrows(h: Hardware, events: seq<Event>, burst: nat)
    requires h.Sane(burst)
    ensures Grown(h, After(h, events, burst), Arrivals(events), burst)
    ensures Bursts(events) == 0 ==> After(h, events, burst).Counted() == h.Counted()
    ensures Bursts(events) <= 1 ==> After(h, events, burst).Counted() <= h.Counted() + burst
    decreases |events|
  {
    if |events| > 0 {
      AfterGrows(Happen(h, events[0], burst), events[1..], burst);
    }
  }

  lemma {:induction false} AfterAllGrows(h: Hardware, schedule: seq<seq<Event>>, burst: nat)
    requires h.Sane(burst)
    ensures Grown(h, AfterAll(h, schedule, burst), TotalArrivals(schedule), burst)
    decreases |schedule|
  {
    if |schedule| > 0 {
      AfterGrows(h, schedule[0], burst);
      AfterAllGrows(After(h, schedule[0], burst), schedule[1..], burst);
    }
  }

  lemma {:induction false} AfterAppend(h: Hardware, a: seq<Event>, b: seq<Event>, burst: nat)
    ensures After(h, a + b, burst) == After(After(h, a, burst), b, burst)
    decreases |a|
  {
    if |a| == 0 {
      assert a + b == b;
    } else {
      assert (a + b)[1..] == a[1..] + b;
      AfterAppend(Happen(h, a[0], burst), a[1..], b, burst);
    }
  }

  lemma OneEvent(h: Hardware, e: Event, burst: nat)
    ensures After(h, [e], burst) == Happen(h, e, burst)
  {
  }

  lemma {:induction false} AfterAllAppend(h: Hardware, a: seq<seq<Event>>, b: seq<seq<Event>>, burst: nat)
    ensures AfterAll(h, a + b, burst) == AfterAll(AfterAll(h, a, burst), b, burst)
    decreases |a|
  {
    if |a| == 0 {
      assert a + b == b;
    } else {
      assert (a + b)[1..] == a[1..] + b;
      AfterAllAppend(After(h, a[0], burst), a[1..], b, burst);
    }
  }

  // ---- the wait --------------------------------------------------------------------------

  datatype Waited = Waited(ready: bool, hw: Hardware)

  /** Polling the counter, with events between the polls, until it reaches the threshold. */
  function Wait(h: Hardware, threshold: nat, polls: seq<seq<Event>>, burst: nat): Waited
    decreases |polls|
  {
    if h.Counted() >= threshold then Waited(true, h)
    else if |polls| == 0 then Waited(false, h)
    else Wait(After(h, polls[0], burst), threshold, polls[1..], burst)
  }

  /** The wait completes exactly if the events on offer bring the counter to the threshold. */
  lemma {:induction false} WaitCompletes(h: Hardware, threshold: nat, polls: seq<seq<Event>>, burst: nat)
    requires h.Sane(burst)
    ensures Wait(h, threshold, polls, burst).ready <==> AfterAll(h, polls, burst).Counted() >= threshold
    decreases |polls|
  {
    if h.Counted() >= threshold {
      AfterAllGrows(h, polls, burst);
    } else if |polls| > 0 {
      AfterGrows(h, polls[0], burst);
      WaitCompletes(After(h, polls[0], burst), threshold, polls[1..], burst);
    }
  }

  lemma {:induction false} WaitGrows(h: Hardware, threshold: nat, polls: seq<seq<Event>>, burst: nat)
    requires h.Sane(burst)
    ensures var w := Wait(h, threshold, polls, burst);
            Grown(h, w.hw, TotalArrivals(polls), burst) && (w.ready <==> w.hw.Counted() >= threshold)
    decreases |polls|
  {
    if h.Counted() < threshold && |polls| > 0 {
      AfterGrows(h, polls[0], burst);
      WaitGrows(After(h, polls[0], burst), threshold, polls[1..], burst);
    }
  }

  /** If at most one burst completes between two polls the wait ends within a burst. */
  lemma {:induction false} WaitIsPrompt(h: Hardware, threshold: nat, polls: seq<seq<Event>>, burst: nat)
    requires h.Sane(burst) && h.Counted() < threshold
    requires forall k :: 0 <= k < |polls| ==> Bursts(polls[k]) <= 1
    ensures Wait(h, threshold, polls, burst).hw.Counted() < threshold + burst
    decreases |polls|
  {
    if |polls| > 0 {
      AfterGrows(h, polls[0], burst);
      if After(h, polls[0], burst).Counted() < threshold {
        WaitIsPrompt(After(h, polls[0], burst), threshold, polls[1..], burst);
      }
    }
  }

  // ---- one pass --------------------------------------------------------------------------

  /** The events that fall into each stretch of one pass; those of `copy` come before
      the single reads of the window. */
  datatype Schedule = Schedule(beforeStart: seq<Event>, beforeTest: seq<Event>,
                               afterTest: seq<Event>, afterCount: seq<Event>,
                               copy: seq<seq<Event>>, work: seq<Event>)
  {
    function Total(): nat {
      Arrivals(beforeStart) + Arrivals(beforeTest) + Arrivals(afterTest)
      + Arrivals(afterCount) + TotalArrivals(copy) + Arrivals(work)
    }
  }

  /** The hardware at the points of a pass where the counter is read. */
  datatype Stages = Stages(start: Hardware, tested: Hardware, resync: Hardware, copied: Hardware, bottom: Hardware)
  {
    function Seen(): Reads
      requires 0 <= start.Counted() <= tested.Counted() <= resync.Counted() <= bottom.Counted()
    {
      Reads(start.Counted(), tested.Counted(), resync.Counted(), bottom.Counted())
    }
  }

  /** The audio-loss branch is taken, and only then do the events within it happen. */
  function Resynced(h: Hardware, threshold: nat, s: Schedule, clip: nat, burst: nat): Hardware {
    if h.Counted() - threshold > clip then After(After(h, s.afterTest, burst), s.afterCount, burst) else h
  }

  function PassStages(h: Hardware, threshold: nat, s: Schedule, clip: nat, burst: nat): (p: Stages)
    requires h.Sane(burst)
    ensures p.bottom.Sane(burst)
    ensures 0 <= h.Counted() <= p.start.Counted() <= p.tested.Counted() <= p.resync.Counted() <= p.bottom.Counted()
    ensures h.stream <= p.copied.stream <= p.bottom.stream
  {
    var start := After(h, s.beforeStart, burst);
    AfterGrows(h, s.beforeStart, burst);
    var tested := After(start, s.beforeTest, burst);
    AfterGrows(start, s.beforeTest, burst);
    var resync := Resynced(tested, threshold, s, clip, burst);
    ResyncGrows(tested, threshold, s, clip, burst);
    var copied := AfterAll(resync, s.copy, burst);
    AfterAllGrows(resync, s.copy, burst);
    AfterGrows(copied, s.work, burst);
    Stages(start, tested, resync, copied, After(copied, s.work, burst))
  }

  lemma ResyncGrows(h: Hardware, threshold: nat, s: Schedule, clip: nat, burst: nat)
    requires h.Sane(burst)
    ensures Grown(h, Resynced(h, threshold, s, clip, burst), Arrivals(s.afterTest) + Arrivals(s.afterCount), burst)
  {
    AfterGrows(h, s.afterTest, burst);
    AfterGrows(After(h, s.afterTest, burst), s.afterCount, burst);
  }

  // ---- the loop -----------------------------------------------------------------------------

  /** One turn of the endless loop: events while it waits, and events during its pass. */
  datatype Round = Round(polls: seq<seq<Event>>, schedule: Schedule)

  datatype Turns = Turns(trace: seq<Reads>, hw: Hardware)

  /** The counter values read by the passes of the loop, one pass for every round whose wait
      completes; a round whose wait does not complete leaves the loop waiting. */
  function Loops(h: Hardware, l: Loop, rounds: seq<Round>, policy: Policy, clip: nat, burst: nat): (t: Turns)
    requires h.Sane(burst)
    ensures t.hw.Sane(burst) && h.Counted() <= t.hw.Counted()
    ensures AllOrdered(t.trace) && Plausible(l, t.trace, policy, clip)
    ensures |t.trace| > 0 ==> h.Counted() <= t.trace[0].start
    decreases |rounds|
  {
    if |rounds| == 0 then Turns([], h)
    else
      WaitGrows(h, l.threshold, rounds[0].polls, burst);
      var w := Wait(h, l.threshold, rounds[0].polls, burst);
      if !w.ready then Loops(w.hw, l, rounds[1..], policy, clip, burst)
      else
        var p := PassStages(w.hw, l.threshold, rounds[0].schedule, clip, burst);
        var rest := Loops(p.bottom, l.Pass(p.Seen(), policy, clip), rounds[1..], policy, clip, burst);
        assert ([p.Seen()] + rest.trace)[1..] == rest.trace;
        Turns([p.Seen()] + rest.trace, rest.hw)
  }

  lemma LoopsNext(h: Hardware, l: Loop, rounds: seq<Round>, policy: Policy, clip: nat, burst: nat)
    requires h.Sane(burst)
    ensures |rounds| == 0 ==> Loops(h, l, rounds, policy, clip, burst) == Turns([], h)
    ensures |rounds| > 0 ==>
              var w := Wait(h, l.threshold, rounds[0].polls, burst);
              w.hw.Sane(burst)
              && if !w.ready then Loops(h, l, rounds, policy, clip, burst)
                                 == Loops(w.hw, l, rounds[1..], policy, clip, burst)
                 else
                   var p := PassStages(w.hw, l.threshold, rounds[0].schedule, clip, burst);
                   var rest := Loops(p.bottom, l.Pass(p.Seen(), policy, clip), rounds[1..], policy, clip, burst);
                   Loops(h, l, rounds, policy, clip, burst) == Turns([p.Seen()] + rest.trace, rest.hw)
  {
    if |rounds| > 0 {
      WaitGrows(h, l.threshold, rounds[0].polls, burst);
    }
  }

  /** No burst completes between the end of a wait and the loss test, and at most one
      between two polls. */
  predicate Calm(rounds: seq<Round>) {
    forall k :: 0 <= k < |rounds| ==>
      && Bursts(rounds[k].schedule.beforeStart) == 0 && Bursts(rounds[k].schedule.beforeTest) == 0
      && forall i :: 0 <= i < |rounds[k].polls| ==> Bursts(rounds[k].polls[i]) <= 1
  }

  /** Every pass takes no more bytes than its step. */
  predicate StepsMet(trace: seq<Reads>, policy: Policy, clip: nat)
    requires AllOrdered(trace)
  {
    forall k :: 0 <= k < |trace| ==>
      trace[k].bottom - trace[k].start <= policy.Step(trace[k].bottom - trace[k].start, clip)
  }

  lemma CalmStages(h: Hardware, threshold: nat, s: Schedule, clip: nat, burst: nat)
    requires h.Sane(burst) && Bursts(s.beforeStart) == 0 && Bursts(s.beforeTest) == 0
    ensures var p := PassStages(h, threshold, s, clip, burst);
            p.start.Counted() == p.tested.Counted() == h.Counted()
  {
    AfterGrows(h, s.beforeStart, burst);
    AfterGrows(After(h, s.beforeStart, burst), s.beforeTest, burst);
  }

  lemma CalmWait(h: Hardware, threshold: nat, prev: nat, polls: seq<seq<Event>>, burst: nat)
    requires h.Sane(burst) && prev <= h.Counted() && (forall k :: 0 <= k < |polls| ==> Bursts(polls[k]) <= 1)
    requires if prev >= threshold then prev == h.Counted() else h.Counted() < threshold
    ensures var w := Wait(h, threshold, polls, burst);
            && w.hw.Sane(burst) && prev <= w.hw.Counted() && (w.ready <==> w.hw.Counted() >= threshold)
            && if prev >= threshold then w.ready && w.hw.Counted() == prev else w.hw.Counted() < threshold + burst
  {
    WaitGrows(h, threshold, polls, burst);
    if h.Counted() < threshold {
      WaitIsPrompt(h, threshold, polls, burst);
    }
  }

  lemma StepsMetTail(r: Reads, rest: seq<Reads>, policy: Policy, clip: nat)
    requires r.Ordered() && AllOrdered(rest) && AllOrdered([r] + rest) && StepsMet([r] + rest, policy, clip)
    ensures r.bottom - r.start <= policy.Step(r.bottom - r.start, clip) && StepsMet(rest, policy, clip)
  {
    var trace := [r] + rest;
    assert trace[0] == r;
    forall k | 0 <= k < |rest|
      ensures rest[k].bottom - rest[k].start <= policy.Step(rest[k].bottom - rest[k].start, clip)
    {
      assert rest[k] == trace[k + 1];
    }
  }

  lemma PromptNext(l: Loop, prev: nat, r: Reads, rest: seq<Reads>, policy: Policy, clip: nat, burst: nat)
    requires r.Ordered() && AllOrdered(rest) && AllOrdered([r] + rest) && r.tested == r.start
    requires if prev >= l.threshold then r.start == prev else l.threshold <= r.start < l.threshold + burst
    requires r.bottom - r.start <= policy.Step(r.bottom - r.start, clip)
    requires Prompt(l.Pass(r, policy, clip), r.bottom, rest, policy, clip, burst)
    ensures Prompt(l, prev, [r] + rest, policy, clip, burst)
  {
    assert ([r] + rest)[1..] == rest;
  }

  /** Calm rounds give a prompt run. */
  lemma {:induction false} CalmIsPrompt(h: Hardware, l: Loop, prev: nat, rounds: seq<Round>,
                                        policy: Policy, clip: nat, burst: nat)
    requires h.Sane(burst) && Calm(rounds) && prev <= h.Counted()
    requires if prev >= l.threshold then prev == h.Counted() else h.Counted() < l.threshold
    requires StepsMet(Loops(h, l, rounds, policy, clip, burst).trace, policy, clip)
    ensures Prompt(l, prev, Loops(h, l, rounds, policy, clip, burst).trace, policy, clip, burst)
    decreases |rounds|
  {
    hide PassStages, Wait, Bursts, StepsMet, Policy.Step;
    if |rounds| > 0 {
      var round := rounds[0];
      var w := Wait(h, l.threshold, round.polls, burst);
      CalmWait(h, l.threshold, prev, round.polls, burst);
      if !w.ready {
        CalmIsPrompt(w.hw, l, prev, rounds[1..], policy, clip, burst);
      } else {
        var p := PassStages(w.hw, l.threshold, round.schedule, clip, burst);
        CalmStages(w.hw, l.threshold, round.schedule, clip, burst);
        var l' := l.Pass(p.Seen(), policy, clip);
        var rest := Loops(p.bottom, l', rounds[1..], policy, clip, burst);
        StepsMetTail(p.Seen(), rest.trace, policy, clip);
        CalmIsPrompt(p.bottom, l', p.bottom.Counted(), rounds[1..], policy, clip, burst);
        PromptNext(l, prev, p.Seen(), rest.trace, policy, clip, burst);
      }
    } else {
      assert Loops(h, l, rounds, policy, clip, burst).trace == [];
    }
  }

  /** From a lag of less than a burst, calm rounds whose passes meet their steps never lose
      audio and leave no byte below the threshold outside every window. */
  lemma NoAudioLost(h: Hardware, l: Loop, rounds: seq<Round>, policy: Policy, clip: nat, burst: nat)
    requires h.Sane(burst) && Calm(rounds) && burst <= clip + 1 && h.Counted() - l.threshold < burst
    requires Covered(l, clip) && (policy.Fixed? ==> policy.step <= clip)
    requires StepsMet(Loops(h, l, rounds, policy, clip, burst).trace, policy, clip)
    ensures var trace := Loops(h, l, rounds, policy, clip, burst).trace;
            var end := Run(l, trace, policy, clip);
            end.losses == l.losses && Covered(end, clip)
  {
    var trace := Loops(h, l, rounds, policy, clip, burst).trace;
    CalmIsPrompt(h, l, h.Counted(), rounds, policy, clip, burst);
    NoLoss(l, h.Counted(), trace, policy, clip, burst);
    RunCovers(l, trace, policy, clip);
  }

  /** If every wait is offered enough events, every round makes its pass. */
  lemma {:induction false} EveryRoundPasses(h: Hardware, l: Loop, rounds: seq<Round>,
                                            policy: Policy, clip: nat, burst: nat)
    requires h.Sane(burst)
    requires forall k, g: Hardware :: 0 <= k < |rounds| && g.Sane(burst) && g.Counted() >= h.Counted() ==>
               Delivers(g, rounds[k], clip, burst)
    requires l.threshold <= h.Counted() + clip && (policy.Fixed? ==> policy.step <= clip)
    ensures |Loops(h, l, rounds, policy, clip, burst).trace| == |rounds|
    decreases |rounds|
  {
    if |rounds| > 0 {
      assert Delivers(h, rounds[0], clip, burst);
      WaitCompletes(h, l.threshold, rounds[0].polls, burst);
      WaitGrows(h, l.threshold, rounds[0].polls, burst);
      var w := Wait(h, l.threshold, rounds[0].polls, burst);
      var p := PassStages(w.hw, l.threshold, rounds[0].schedule, clip, burst);
      forall k, g: Hardware | 0 <= k < |rounds[1..]| && g.Sane(burst) && g.Counted() >= p.bottom.Counted()
        ensures Delivers(g, rounds[1..][k], clip, burst)
      {
        assert Delivers(g, rounds[k + 1], clip, burst);
      }
      EveryRoundPasses(p.bottom, l.Pass(p.Seen(), policy, clip), rounds[1..], policy, clip, burst);
    }
  }

  /** The events offered to the wait of a round advance the counter by a clip. */
  predicate Delivers(h: Hardware, round: Round, clip: nat, burst: nat) {
    AfterAll(h, round.polls, burst).Counted() >= h.Counted() + clip
  }
}
