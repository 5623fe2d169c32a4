/** Continuous capture: the DMA and its interrupt fill a ring of audio bytes while the main
    loop waits for, copies and slides a window over it.  The firmware's 32-bit counters are
    tied to ghost counters that never wrap, and its runs to those of DmaRun. */
module DmaRing {
  import opened FixedPoint
  import Ring
  import opened DmaRun
  import opened WindowLoop

  /** The signed 32-bit reading of a difference of two counters. */
  function Signed(d: word): int { if d < TWO31 then d else d - WORD }

  function Minus(a: word, b: word): word { (a - b) % WORD }

  lemma SignedGap(a: nat, b: nat)
    requires -TWO31 <= a - b < TWO31
    ensures Signed(Minus(a % WORD, b % WORD)) == a - b
  {
    var d := a % WORD - b % WORD;
    assert a - b == d + WORD * (a / WORD - b / WORD);
    var k := a / WORD - b / WORD;
    assert k == 0 || k == 1 || k == -1;
  }

  lemma UnsignedGap(a: nat, b: nat)
    requires 0 <= a - b < WORD
    ensures Minus(a % WORD, b % WORD) == a - b
  {
    var k := a / WORD - b / WORD;
    assert a - b == a % WORD - b % WORD + WORD * k;
    assert k == 0 || k == 1;
  }

  class Capture {
    const ringSize: nat       // KWS_RING_SAMPLES
    const burst: nat          // bytes per DMA burst
    const clip: nat           // ring bytes per model clip
    const decimate: nat       // ring bytes per model sample
    const audioRing: array<int8>
    var daddr: nat            // programmed DMA destination, as an offset into the ring
    var moved: nat            // bytes of the current burst already moved by the DMA
    var bytesWritten: word
    var nextInference: word   // threshold: the end of the next window

    ghost var stream: seq<int8>   // every byte the DMA has moved
    ghost var threshold: nat      // nextInference without its wrap

    ghost function Now(): Hardware
      reads this`stream, this`moved
    {
      Hardware(stream, moved)
    }

    /** Bytes of completed bursts that the interrupt handler has counted. */
    ghost function Counted(): int
      reads this`stream, this`moved
    {
      Now().Counted()
    }

    ghost predicate Valid()
      reads this, audioRing
    {
      && 0 < burst && ringSize % burst == 0 && 0 < ringSize && WORD % ringSize == 0
      && 0 < clip && 0 < decimate && clip < TWO31 - burst
      && audioRing.Length == ringSize
      && Now().Sane(burst) && Counted() % burst == 0
      && daddr == Counted() % ringSize
      && bytesWritten == Counted() % WORD && nextInference == threshold % WORD
      && Ring.Holds(audioRing[..], stream)
    }

    lemma Bounds()
      requires Valid()
      ensures Now().Sane(burst) && 0 <= Counted() <= |stream| <= Counted() + burst
      ensures bytesWritten == Counted() % WORD && 0 < clip && 0 < ringSize
    {
    }

    lemma BurstFits()
      requires Valid()
      ensures daddr + burst <= ringSize
    {
      MultipleFits(Counted(), burst, ringSize);
    }

    constructor (ringSize: nat, burst: nat, clip: nat, decimate: nat)
      requires 0 < burst && ringSize % burst == 0 && 0 < ringSize && WORD % ringSize == 0
      requires 0 < clip && 0 < decimate && clip < TWO31 - burst
      ensures Valid() && Now() == Hardware([], 0) && threshold == clip
      ensures this.ringSize == ringSize && this.burst == burst && this.clip == clip && this.decimate == decimate
      ensures fresh(audioRing)
    {
      this.ringSize, this.burst, this.clip, this.decimate := ringSize, burst, clip, decimate;
      audioRing := new int8[ringSize](_ => 0);
      daddr, moved, bytesWritten, nextInference := 0, 0, 0, clip;
      stream, threshold := [], clip;
      new;
      NothingCounted(burst, ringSize);
    }

    // ---- hardware -------------------------------------------------------------------------

    method Occur(e: Event)
      requires Valid()
      modifies this`daddr, this`moved, this`bytesWritten, this`stream, audioRing
      ensures Valid() && Now() == Happen(old(Now()), e, burst)
    {
      match e
      case Byte(sample) =>
        if moved < burst {
          Move(sample);
        }
      case BurstDone =>
        if moved == burst {
          BurstInterrupt();
        }
    }

    /** The DMA moves a byte. */
    method Move(sample: int8)
      requires Valid() && moved < burst
      modifies this`moved, this`stream, audioRing
      ensures Valid() && stream == old(stream) + [sample] && moved == old(moved) + 1
    {
      BurstFits();
      SlotInBurst(Counted(), moved, daddr, ringSize);
      Ring.Push(audioRing[..], stream, sample);
      audioRing[daddr + moved] := sample;
      assert audioRing[..] == old(audioRing[..])[|stream| % ringSize := sample];
      moved := moved + 1;
      stream := stream + [sample];
    }

    /** The handler: the next burst goes after this one, and the counter follows. */
    method BurstInterrupt()
      requires Valid() && moved == burst
      modifies this`daddr, this`moved, this`bytesWritten
      ensures Valid() && Counted() == old(Counted()) + burst && moved == 0
    {
      BurstFits();
      NextBurst(Counted(), burst, daddr, ringSize);
      NextCount(Counted(), burst);
      var nextDaddr := daddr + burst;
      if nextDaddr >= ringSize {
        nextDaddr := 0;
      }
      daddr := nextDaddr;
      bytesWritten := (bytesWritten + burst) % WORD;
      moved := 0;
    }

    method RunEvents(events: seq<Event>)
      requires Valid()
      modifies this`daddr, this`moved, this`bytesWritten, this`stream, audioRing
      ensures Valid() && Now() == After(old(Now()), events, burst)
      decreases |events|
    {
      if |events| > 0 {
        Occur(events[0]);
        RunEvents(events[1..]);
      }
    }

    // ---- main loop ---------------------------------------------------------------------------

    /** The wait condition: the window is complete. */
    method WindowComplete() returns (ready: bool)
      requires Valid() && -TWO31 <= Counted() - threshold < TWO31
      ensures ready <==> Counted() >= threshold
    {
      SignedGap(Counted(), threshold);
      ready := !(Signed(Minus(bytesWritten, nextInference)) < 0);
    }

    /** The wait for the next window, with the hardware running between the polls. */
    method Await(polls: seq<seq<Event>>) returns (ready: bool)
      requires Valid() && -TWO31 <= Counted() - threshold && |stream| + TotalArrivals(polls) < threshold + TWO31
      modifies this`daddr, this`moved, this`bytesWritten, this`stream, audioRing
      ensures Valid() && Waited(ready, Now()) == Wait(old(Now()), threshold, polls, burst)
      decreases |polls|
    {
      hide Ring.Holds;
      Bounds();
      ready := WindowComplete();
      if !ready && |polls| > 0 {
        AfterGrows(Now(), polls[0], burst);
        RunEvents(polls[0]);
        ready := Await(polls[1..]);
      }
    }

    /** The audio-loss guard: with more than one clip waiting, the window jumps to the
        newest complete one.  The counter is read anew for each use. */
    method LossGuard(ghost s: Schedule, afterTest: seq<Event>, afterCount: seq<Event>) returns (lost: int)
      requires Valid() && threshold <= Counted() && |stream| + Arrivals(afterTest) < threshold + TWO31
      requires afterTest == s.afterTest && afterCount == s.afterCount
      modifies this`daddr, this`moved, this`bytesWritten, this`stream, this`nextInference, this`threshold, audioRing
      ensures Valid() && Now() == Resynced(old(Now()), old(threshold), s, clip, burst)
      ensures threshold == if old(Counted()) - old(threshold) > clip then Counted() else old(threshold)
      ensures lost == if old(Counted()) - old(threshold) > clip
                      then After(old(Now()), afterTest, burst).Counted() - old(threshold) - clip else 0
    {
      hide Ring.Holds;
      Bounds();
      SignedGap(Counted(), threshold);
      lost := 0;
      if Signed(Minus(bytesWritten, nextInference)) > clip {
        AfterGrows(Now(), afterTest, burst);
        RunEvents(afterTest);
        UnsignedGap(Counted(), threshold);
        lost := Minus(bytesWritten, nextInference) - clip;
        RunEvents(afterCount);
        nextInference := bytesWritten;
        threshold := Counted();
      }
    }

    /** One read of the copy, by an index computed in 32 bits from wrapped counters. */
    method ReadSample(snapStartRing: nat, j: nat, samples: nat) returns (x: int8)
      requires Valid() && snapStartRing == Minus(nextInference, clip) % ringSize
      requires j < samples && samples * decimate == clip && clip <= threshold <= |stream|
      ensures ReadAt(x, stream, threshold - clip + Product(j, decimate), ringSize)
    {
      Within(j, samples, decimate);
      WindowSlot(threshold, clip, j * decimate, ringSize);
      Ring.SlotOwner(audioRing[..], stream, threshold - clip + j * decimate);
      var ringIdx := ((snapStartRing + j * decimate) % WORD) % ringSize;
      x := audioRing[ringIdx];
    }

    /** The decimating copy, with the hardware running before every read: whatever happens,
        sample j is the newest byte in the slot of stream position start + j * decimate. */
    method Snapshot(input: array<int8>, schedule: seq<seq<Event>>)
      requires Valid() && input != audioRing
      requires input.Length * decimate == clip && |schedule| == input.Length
      requires clip <= threshold <= Counted()
      modifies this`daddr, this`moved, this`bytesWritten, this`stream, audioRing, input
      ensures Valid() && Now() == AfterAll(old(Now()), schedule, burst)
      ensures ReadFrom(input[..], old(Now()), schedule, threshold - clip, decimate, burst, ringSize)
    {
      hide Ring.Holds;
      ghost var h, from := Now(), threshold - clip;
      var snapStartByte := Minus(nextInference, clip);
      Bounds();
      var snapStartRing := snapStartByte % ringSize;
      assert schedule[..0] == [];
      for j := 0 to input.Length
        invariant Valid() && threshold == old(threshold) && nextInference == old(nextInference)
        invariant Now() == AfterAll(h, schedule[..j], burst) && threshold <= h.Counted() <= |h.stream|
        invariant ReadUpTo(input[..], j, h, schedule, from, decimate, burst, ringSize)
      {
        NextRead(h, schedule, j, burst);
        RunEvents(schedule[j]);
        StillComplete(h, schedule, j, burst);
        ghost var copied := input[..];
        input[j] := ReadSample(snapStartRing, j, input.Length);
        ReadOne(copied, input[..], j, h, schedule, from, decimate, burst, ringSize);
      }
      assert schedule[..input.Length] == schedule;
    }

    /** The bottom of the loop: the step is measured by the counter, not by the clock. */
    method Advance(iterStart: word, policy: Policy, ghost start: nat)
      requires Valid() && iterStart == start % WORD && 0 <= Counted() - start < WORD
      modifies this`nextInference, this`threshold
      ensures Valid() && threshold == old(threshold) + policy.Step(Counted() - start, clip)
      ensures MovesBy(policy, Counted() - start, clip, threshold - old(threshold))
    {
      UnsignedGap(Counted(), start);
      var iterBytes := Minus(bytesWritten, iterStart);
      var stepBytes;
      match policy {
        case Fixed(step) =>
          stepBytes := step;
        case NoOverlap =>
          stepBytes := clip;
        case Dynamic(minStep) =>
          stepBytes := iterBytes;
          if stepBytes < minStep {
            stepBytes := minStep;
          }
          if stepBytes > clip {
            stepBytes := clip;
          }
      }
      NextCount(threshold, stepBytes);
      nextInference := (nextInference + stepBytes) % WORD;
      threshold := threshold + stepBytes;
    }

    /** The first half of a pass: the counter is noted, the loss guard taken or not, and the
        window copied.  Either way the copy is exactly the decimated stream if twice the
        clip, a burst and the bytes that arrive meanwhile fit the ring. */
    method TakeWindow(input: array<int8>, s: Schedule) returns (iterStartBw: word, ghost p: Stages)
      requires Valid() && input != audioRing && input.Length * decimate == clip
      requires clip <= threshold <= Counted() && |s.copy| == input.Length
      requires 2 * clip + burst + TotalArrivals(s.copy) <= ringSize && |stream| + s.Total() < threshold + TWO31
      modifies this`daddr, this`moved, this`bytesWritten, this`stream, this`nextInference,
               this`threshold, audioRing, input
      ensures Valid() && p == PassStages(old(Now()), old(threshold), s, clip, burst) && Now() == p.copied
      ensures iterStartBw == p.start.Counted() % WORD
      ensures threshold == Loop(old(threshold), [], 0).Window(p.Seen(), clip) && clip <= threshold <= Counted()
      ensures Sampled(input[..], stream, threshold - clip, decimate)
    {
      hide Valid, Sampled, Arrivals, TotalArrivals, AfterAll, After, PassStages, Resynced, Loop.Window;
      ghost var h := Now();
      Bounds();
      p := PassStages(h, threshold, s, clip, burst);
      WindowFits(h, threshold, s, clip, burst);
      RunEvents(s.beforeStart);
      Bounds();
      iterStartBw := bytesWritten;
      RunEvents(s.beforeTest);
      Bounds();
      var lost := LossGuard(s, s.afterTest, s.afterCount);
      Bounds();
      Snapshot(input, s.copy);
      Intact(input[..], p.resync, s.copy, threshold - clip, decimate, burst, ringSize);
    }

    /** One pass of the main loop, from a completed wait, with the hardware running
        between any two of its steps. */
    method Pass(input: array<int8>, policy: Policy, s: Schedule, ghost before: Loop) returns (ghost p: Stages)
      requires Valid() && input != audioRing && input.Length * decimate == clip
      requires clip <= threshold <= Counted() && |s.copy| == input.Length
      requires 2 * clip + burst + TotalArrivals(s.copy) <= ringSize
      requires |stream| + s.Total() < threshold + TWO31 && before.threshold == threshold
      modifies this`daddr, this`moved, this`bytesWritten, this`stream, this`nextInference,
               this`threshold, audioRing, input
      ensures Valid() && p == PassStages(old(Now()), old(threshold), s, clip, burst) && Now() == p.bottom
      ensures threshold == before.Pass(p.Seen(), policy, clip).threshold
      ensures Sampled(input[..], stream, before.Window(p.Seen(), clip) - clip, decimate)
      ensures clip <= before.Window(p.Seen(), clip) <= Counted()
    {
      hide Valid, Sampled, Arrivals, TotalArrivals, AfterAll, After, PassStages, Resynced, Policy.Step;
      hide Loop.Window, Loop.Pass;
      Bounds();
      PassEnd(Now(), threshold, s, before, policy, clip, burst);
      var iterStartBw;
      iterStartBw, p := TakeWindow(input, s);
      ghost var mid := stream;
      RunEvents(s.work);
      Resample(input[..], mid, stream, threshold - clip, decimate);
      Advance(iterStartBw, policy, p.start.Counted());
    }

    /** The endless loop, for as long as there are rounds.  The counter values it reads are
        those of the run of DmaRun, one pass for every round whose wait completes, and the
        copy of every pass is the decimated stream up to that pass's window; the input
        buffer holds the last of them.  Calm rounds whose passes meet their steps never
        lose audio. */
    method MainLoop(input: array<int8>, policy: Policy, rounds: seq<Round>, ghost before: Loop)
      returns (ghost copies: seq<seq<int8>>)
      requires Valid() && input != audioRing && input.Length * decimate == clip
      requires clip <= threshold <= Counted() + QUARTER && |stream| <= threshold + QUARTER
      requires policy.Fixed? ==> policy.step <= QUARTER
      requires forall k :: 0 <= k < |rounds| ==> Fits(rounds[k], input.Length, clip, burst, ringSize)
      requires before.threshold == threshold
      modifies this`daddr, this`moved, this`bytesWritten, this`stream, this`nextInference,
               this`threshold, audioRing, input
      ensures Valid()
      ensures var t := Loops(old(Now()), before, rounds, policy, clip, burst);
              var end := Run(before, t.trace, policy, clip);
              && Now() == t.hw && threshold == end.threshold && |copies| == |t.trace|
              && WindowsCopied(copies, end.windows, |before.windows|, stream, clip, decimate)
      ensures input[..] == if |copies| > 0 then copies[|copies| - 1] else old(input[..])
      ensures var t := Loops(old(Now()), before, rounds, policy, clip, burst);
              Calm(rounds) && StepsMet(t.trace, policy, clip) && burst <= clip + 1
              && old(Counted()) - before.threshold < burst && Covered(before, clip)
              && (policy.Fixed? ==> policy.step <= clip)
              ==> Run(before, t.trace, policy, clip).losses == before.losses
                  && Covered(Run(before, t.trace, policy, clip), clip)
      ensures var t := Loops(old(Now()), before, rounds, policy, clip, burst);
              var end := Run(before, t.trace, policy, clip);
              end.losses == before.losses ==> Slides(Ends(end), |before.windows|, t.trace, policy, clip)
    {
      copies := RunRounds(input, policy, rounds, before);
      ghost var h := old(Now());
      if Calm(rounds) && StepsMet(Loops(h, before, rounds, policy, clip, burst).trace, policy, clip)
         && burst <= clip + 1 && h.Counted() - before.threshold < burst && Covered(before, clip)
         && (policy.Fixed? ==> policy.step <= clip) {
        NoAudioLost(h, before, rounds, policy, clip, burst);
      }
      ghost var trace := Loops(h, before, rounds, policy, clip, burst).trace;
      if Run(before, trace, policy, clip).losses == before.losses {
        RunSlides(before, trace, policy, clip);
      }
    }

    /** One turn: the wait and, if it completes, the pass. */
    method Turn(input: array<int8>, policy: Policy, round: Round, ghost before: Loop)
      returns (ready: bool, ghost l: Loop)
      requires Valid() && input != audioRing && input.Length * decimate == clip
      requires clip <= threshold <= Counted() + QUARTER && |stream| <= threshold + QUARTER
      requires policy.Fixed? ==> policy.step <= QUARTER
      requires Fits(round, input.Length, clip, burst, ringSize) && before.threshold == threshold
      modifies this`daddr, this`moved, this`bytesWritten, this`stream, this`nextInference,
               this`threshold, audioRing, input
      ensures Valid() && old(stream) <= stream
      ensures clip <= threshold <= Counted() + QUARTER && |stream| <= threshold + QUARTER && l.threshold == threshold
      ensures var w := Wait(old(Now()), before.threshold, round.polls, burst);
              w.hw.Sane(burst) && ready == w.ready
              && if !ready then Now() == w.hw && l == before
                 else
                   var p := PassStages(w.hw, before.threshold, round.schedule, clip, burst);
                   Now() == p.bottom && l == before.Pass(p.Seen(), policy, clip)
                   && CopyOf(input[..], before.Window(p.Seen(), clip), stream, clip, decimate)
      ensures !ready ==> input[..] == old(input[..])
    {
      hide Valid, Sampled, Arrivals, TotalArrivals, PassStages, Wait;
      Bounds();
      WaitGrows(Now(), threshold, round.polls, burst);
      ready := Await(round.polls);
      Bounds();
      l := before;
      if ready {
        PassFacts(Now(), threshold, round.schedule, before, policy, clip, burst);
        ghost var p := Pass(input, policy, round.schedule, before);
        Bounds();
        l := before.Pass(p.Seen(), policy, clip);
      }
    }

    method RunRounds(input: array<int8>, policy: Policy, rounds: seq<Round>, ghost before: Loop)
      returns (ghost copies: seq<seq<int8>>)
      requires Valid() && input != audioRing && input.Length * decimate == clip
      requires clip <= threshold <= Counted() + QUARTER && |stream| <= threshold + QUARTER
      requires policy.Fixed? ==> policy.step <= QUARTER
      requires forall k :: 0 <= k < |rounds| ==> Fits(rounds[k], input.Length, clip, burst, ringSize)
      requires before.threshold == threshold
      modifies this`daddr, this`moved, this`bytesWritten, this`stream, this`nextInference,
               this`threshold, audioRing, input
      ensures Valid() && old(stream) <= stream
      ensures var t := Loops(old(Now()), before, rounds, policy, clip, burst);
              var end := Run(before, t.trace, policy, clip);
              && Now() == t.hw && threshold == end.threshold && |copies| == |t.trace|
              && WindowsCopied(copies, end.windows, |before.windows|, stream, clip, decimate)
      ensures input[..] == if |copies| > 0 then copies[|copies| - 1] else old(input[..])
      decreases |rounds|
    {
      hide Valid, CopyOf, PassStages, Wait, Loops, Run, Fits, WindowsCopied;
      copies := [];
      ghost var h := Now();
      Bounds();
      LoopsNext(h, before, rounds, policy, clip, burst);
      if |rounds| > 0 {
        var ready;
        ghost var l;
        ready, l := Turn(input, policy, rounds[0], before);
        ghost var copy, mid, g := input[..], stream, Now();
        ghost var rest := RunRounds(input, policy, rounds[1..], l);
        copies := rest;
        if ready {
          ghost var p := PassStages(Wait(h, before.threshold, rounds[0].polls, burst).hw, before.threshold,
                                    rounds[0].schedule, clip, burst);
          copies := [copy] + rest;
          CopyKept(copy, before.Window(p.Seen(), clip), mid, stream, clip, decimate);
          CopyMore(copy, rest, before, p.Seen(), Loops(g, l, rounds[1..], policy, clip, burst).trace,
                   stream, policy, clip, decimate);
        }
      } else {
        NothingCopied(before, stream, policy, clip, decimate);
      }
    }
  }

  const QUARTER: int := 0x4000_0000

  /** The size condition on the copy, and gaps that stay far from half the counter range. */
  predicate Fits(round: Round, samples: nat, clip: nat, burst: nat, ringSize: nat) {
    && |round.schedule.copy| == samples
    && 2 * clip + burst + TotalArrivals(round.schedule.copy) <= ringSize
    && TotalArrivals(round.polls) + round.schedule.Total() + clip + burst <= QUARTER
  }

  // ---- what a copy holds ---------------------------------------------------------------------

  /** x is the newest byte in the slot of stream position p. */
  predicate ReadAt(x: int8, stream: seq<int8>, p: nat, ringSize: nat) {
    0 < ringSize && p < |stream| && x == stream[Ring.Owner(|stream|, p, ringSize)]
  }

  /** The first n reads of a copy that starts at stream position `from`, each made after the
      events that precede it. */
  ghost predicate ReadUpTo(input: seq<int8>, n: nat, h: Hardware, schedule: seq<seq<Event>>, from: nat,
                           decimate: nat, burst: nat, ringSize: nat) {
    n <= |input| == |schedule| && forall j :: 0 <= j < n ==>
      ReadAt(input[j], AfterAll(h, schedule[..j + 1], burst).stream, from + Product(j, decimate), ringSize)
  }

  ghost predicate ReadFrom(input: seq<int8>, h: Hardware, schedule: seq<seq<Event>>, from: nat,
                           decimate: nat, burst: nat, ringSize: nat) {
    ReadUpTo(input, |input|, h, schedule, from, decimate, burst, ringSize)
  }

  /** The input is every decimate-th byte of the stream from `from` on. */
  ghost predicate Sampled(input: seq<int8>, stream: seq<int8>, from: nat, decimate: nat) {
    forall j :: 0 <= j < |input| ==>
      from + Product(j, decimate) < |stream| && input[j] == stream[from + Product(j, decimate)]
  }

  lemma NextRead(h: Hardware, schedule: seq<seq<Event>>, j: nat, burst: nat)
    requires j < |schedule| && h.Sane(burst)
    ensures AfterAll(h, schedule[..j + 1], burst) == After(AfterAll(h, schedule[..j], burst), schedule[j], burst)
    ensures h.stream <= AfterAll(h, schedule[..j + 1], burst).stream <= AfterAll(h, schedule, burst).stream
  {
    Ring.TakeNext(schedule, j);
    AfterAllAppend(h, schedule[..j], [schedule[j]], burst);
    AfterAllAppend(h, schedule[..j + 1], schedule[j + 1..], burst);
    AfterAllGrows(h, schedule[..j + 1], burst);
    AfterAllGrows(AfterAll(h, schedule[..j + 1], burst), schedule[j + 1..], burst);
  }

  lemma StillComplete(h: Hardware, schedule: seq<seq<Event>>, j: nat, burst: nat)
    requires j < |schedule| && h.Sane(burst)
    ensures |h.stream| <= |AfterAll(h, schedule[..j + 1], burst).stream|
  {
    AfterAllGrows(h, schedule[..j + 1], burst);
  }

  lemma ReadOne(before: seq<int8>, after: seq<int8>, j: nat, h: Hardware, schedule: seq<seq<Event>>, from: nat,
                decimate: nat, burst: nat, ringSize: nat)
    requires ReadUpTo(before, j, h, schedule, from, decimate, burst, ringSize)
    requires j < |before| == |after| && after[..j] == before[..j]
    requires ReadAt(after[j], AfterAll(h, schedule[..j + 1], burst).stream, from + Product(j, decimate), ringSize)
    ensures ReadUpTo(after, j + 1, h, schedule, from, decimate, burst, ringSize)
  {
    hide ReadAt, AfterAll;
    forall k | 0 <= k < j
      ensures ReadAt(after[k], AfterAll(h, schedule[..k + 1], burst).stream, from + Product(k, decimate), ringSize)
    {
      assert after[k] == after[..j][k] == before[k];
    }
  }

  /** If the stream has moved on by at most one ring from the window start when the copy is
      done, the copy is the decimated stream. */
  lemma Intact(input: seq<int8>, h: Hardware, schedule: seq<seq<Event>>, from: nat,
               decimate: nat, burst: nat, ringSize: nat)
    requires h.Sane(burst) && 0 < ringSize && ReadFrom(input, h, schedule, from, decimate, burst, ringSize)
    requires |AfterAll(h, schedule, burst).stream| <= from + ringSize
    ensures Sampled(input, AfterAll(h, schedule, burst).stream, from, decimate)
  {
    hide AfterAll, ReadAt;
    var end := AfterAll(h, schedule, burst).stream;
    forall j | 0 <= j < |input|
      ensures from + Product(j, decimate) < |end| && input[j] == end[from + Product(j, decimate)]
    {
      hide Product;
      NextRead(h, schedule, j, burst);
      ProductPositive(j, decimate);
      ReadIntact(input[j], AfterAll(h, schedule[..j + 1], burst).stream, end, from + Product(j, decimate), ringSize);
    }
  }

  lemma ReadIntact(x: int8, seen: seq<int8>, end: seq<int8>, p: nat, ringSize: nat)
    requires ReadAt(x, seen, p, ringSize) && seen <= end && |end| <= p + ringSize
    ensures p < |end| && x == end[p]
  {
    Ring.OwnerStays(|seen|, p, ringSize);
  }

  lemma ProductPositive(a: nat, b: nat)
    ensures Product(a, b) >= 0
  {
  }

  lemma Resample(input: seq<int8>, earlier: seq<int8>, later: seq<int8>, from: nat, decimate: nat)
    requires Sampled(input, earlier, from, decimate) && earlier <= later
    ensures Sampled(input, later, from, decimate)
  {
    forall j | 0 <= j < |input|
      ensures from + Product(j, decimate) < |later| && input[j] == later[from + Product(j, decimate)]
    {
      assert earlier[from + Product(j, decimate)] == later[from + Product(j, decimate)];
    }
  }

  /** Copy number k is the decimated stream up to the end of window at + k. */
  ghost predicate WindowsCopied(copies: seq<seq<int8>>, ends: seq<nat>, at: nat, stream: seq<int8>,
                                clip: nat, decimate: nat) {
    at + |copies| == |ends| && forall k :: 0 <= k < |copies| ==> CopyOf(copies[k], ends[at + k], stream, clip, decimate)
  }

  ghost predicate CopyOf(copy: seq<int8>, end: nat, stream: seq<int8>, clip: nat, decimate: nat) {
    clip <= end && Sampled(copy, stream, end - clip, decimate)
  }

  lemma CopyKept(copy: seq<int8>, end: nat, earlier: seq<int8>, later: seq<int8>, clip: nat, decimate: nat)
    requires CopyOf(copy, end, earlier, clip, decimate) && earlier <= later
    ensures CopyOf(copy, end, later, clip, decimate)
  {
    Resample(copy, earlier, later, end - clip, decimate);
  }

  lemma NothingCopied(l: Loop, stream: seq<int8>, policy: Policy, clip: nat, decimate: nat)
    ensures Run(l, [], policy, clip) == l && WindowsCopied([], l.windows, |l.windows|, stream, clip, decimate)
  {
  }

  lemma CopyMore(copy: seq<int8>, rest: seq<seq<int8>>, l: Loop, r: Reads, trace: seq<Reads>, stream: seq<int8>,
                 policy: Policy, clip: nat, decimate: nat)
    requires r.Ordered() && AllOrdered(trace) && AllOrdered([r] + trace)
    requires CopyOf(copy, l.Window(r, clip), stream, clip, decimate)
    requires var l' := l.Pass(r, policy, clip);
             WindowsCopied(rest, Run(l', trace, policy, clip).windows, |l'.windows|, stream, clip, decimate)
    ensures Run(l, [r] + trace, policy, clip) == Run(l.Pass(r, policy, clip), trace, policy, clip)
    ensures WindowsCopied([copy] + rest, Run(l, [r] + trace, policy, clip).windows, |l.windows|, stream, clip, decimate)
  {
    assert ([r] + trace)[1..] == trace;
    hide CopyOf, Run;
    var l' := l.Pass(r, policy, clip);
    var ends := Run(l', trace, policy, clip).windows;
    RunExtends(l', trace, policy, clip);
    assert ends[|l.windows|] == l'.windows[|l.windows|] == l.Window(r, clip);
    var copies := [copy] + rest;
    forall k | 0 <= k < |copies| ensures CopyOf(copies[k], ends[|l.windows| + k], stream, clip, decimate) {
      if k > 0 {
        assert CopyOf(rest[k - 1], ends[|l'.windows| + (k - 1)], stream, clip, decimate);
      }
    }
  }

  // ---- when the ring is large enough ------------------------------------------------------------

  /** The states in which the loss guard lets the copy start: at most a clip waits beyond
      the threshold, and a burst of any length is in flight. */
  predicate AfterGuard(threshold: nat, counted: nat, moved: nat, clip: nat, burst: nat) {
    clip <= threshold <= counted <= threshold + clip && moved <= burst
  }

  /** Every ring that holds a stream of n bytes still holds every byte of the window. */
  ghost predicate WindowKept(threshold: nat, n: nat, clip: nat, ringSize: nat)
    requires clip <= threshold <= n && 0 < ringSize
  {
    forall ring: seq<int8>, stream: seq<int8>, p: nat ::
      |ring| == ringSize && |stream| == n && Ring.Holds(ring, stream) && threshold - clip <= p < threshold ==>
        ring[p % ringSize] == stream[p]
  }

  /** The window is intact exactly while the stream has moved on by at most one ring from
      its start; after that its first byte has been overwritten. */
  lemma WindowKeptExactly(threshold: nat, n: nat, clip: nat, ringSize: nat)
    requires 0 < clip <= threshold <= n && 0 < ringSize
    ensures WindowKept(threshold, n, clip, ringSize) <==> n <= threshold - clip + ringSize
  {
    var from := threshold - clip;
    if n <= from + ringSize {
      forall ring: seq<int8>, stream: seq<int8>, p: nat |
        |ring| == ringSize && |stream| == n && Ring.Holds(ring, stream) && from <= p < threshold
        ensures ring[p % ringSize] == stream[p]
      {
        Ring.SlotOwner(ring, stream, p);
      }
    } else {
      var stream: seq<int8> := seq(n, i => if i == from then 1 else 0);
      var ring := Ring.Filled(stream, ringSize, 0);
      Ring.FilledHolds(stream, ringSize, 0);
      Ring.SlotOwner(ring, stream, from);
      assert ring[from % ringSize] != stream[from];
    }
  }

  /** The loss guard alone protects the copied bytes, whatever lag and burst in flight it
      lets through, if and only if twice the clip, one burst and the bytes that arrive
      during the copy fit the ring. */
  lemma GuardSuffices(clip: nat, burst: nat, arrivals: nat, ringSize: nat)
    requires 0 < clip && 0 < ringSize
    ensures (forall threshold: nat, counted: nat, moved: nat :: AfterGuard(threshold, counted, moved, clip, burst) ==>
               WindowKept(threshold, counted + moved + arrivals, clip, ringSize))
       <==> 2 * clip + burst + arrivals <= ringSize
  {
    forall threshold: nat, counted: nat, moved: nat | AfterGuard(threshold, counted, moved, clip, burst)
      ensures WindowKept(threshold, counted + moved + arrivals, clip, ringSize)
         <==> counted + moved + arrivals <= threshold - clip + ringSize
    {
      WindowKeptExactly(threshold, counted + moved + arrivals, clip, ringSize);
    }
    assert AfterGuard(clip, 2 * clip, burst, clip, burst);
  }

  /** k complete bursts of silence. */
  function Silence(k: nat, burst: nat): seq<Event> {
    if k == 0 then [] else Silence(k - 1, burst) + (seq(burst, _ => Byte(0)) + [BurstDone])
  }

  lemma {:induction false} BytesMoved(h: Hardware, n: nat, burst: nat)
    requires h.moved + n <= burst
    ensures After(h, seq(n, _ => Byte(0)), burst) == Hardware(h.stream + Zeros(n), h.moved + n)
    decreases n
  {
    var events := seq(n, _ => Byte(0));
    if n == 0 {
      assert h.stream + Zeros(0) == h.stream;
    } else {
      assert events[1..] == seq(n - 1, _ => Byte(0));
      BytesMoved(Happen(h, events[0], burst), n - 1, burst);
      assert h.stream + [0] + Zeros(n - 1) == h.stream + Zeros(n);
    }
  }

  lemma {:induction false} AfterSilence(k: nat, burst: nat)
    requires 0 < burst
    ensures After(Hardware([], 0), Silence(k, burst), burst) == Hardware(Zeros(Product(k, burst)), 0)
  {
    if k > 0 {
      var h, zeros := Hardware(Zeros(Product(k - 1, burst)), 0), seq(burst, _ => Byte(0));
      AfterSilence(k - 1, burst);
      AfterAppend(Hardware([], 0), Silence(k - 1, burst), zeros + [BurstDone], burst);
      AfterAppend(h, zeros, [BurstDone], burst);
      BytesMoved(h, burst, burst);
      OneEvent(Hardware(h.stream + Zeros(burst), burst), BurstDone, burst);
      assert Product(k, burst) == Product(k - 1, burst) + burst;
      assert h.stream + Zeros(burst) == Zeros(Product(k, burst));
    }
  }

  /** The full-rate configuration, a clip of 16000 bytes in a ring of 16384, after 16385
      bytes, with a burst of any length. */
  function FullRate(burst: nat): Hardware
    requires 0 < burst
  {
    After(Hardware([], 0), Silence(16384 / burst, burst) + [Byte(1)], burst)
  }

  /** In the full-rate configuration the capture reaches, from its start and before the
      first copy, a state 385 bytes past the threshold.  The wait completes there and the
      loss guard lets the copy start, but its first sample is not the stream's. */
  lemma FullRateClipOverrun(burst: nat, input: seq<int8>, schedule: seq<seq<Event>>)
    requires 0 < burst && 16384 % burst == 0
    requires |schedule| == 8000 == |input| && forall j :: 0 <= j < 8000 ==> schedule[j] == []
    requires ReadFrom(input, FullRate(burst), schedule, 0, 2, burst, 16384)
    ensures |FullRate(burst).stream| == 16000 + 385 && 16000 <= FullRate(burst).Counted() <= 2 * 16000
    ensures input[0] != FullRate(burst).stream[0]
  {
    var k, h := 16384 / burst, FullRate(burst);
    AfterSilence(k, burst);
    assert Product(k, burst) == 16384;
    AfterAppend(Hardware([], 0), Silence(k, burst), [Byte(1)], burst);
    OneEvent(Hardware(Zeros(16384), 0), Byte(1), burst);
    assert h == Hardware(Zeros(16384) + [1], 1);
    assert schedule[..1] == [[]];
    assert AfterAll(h, [[]], burst) == AfterAll(After(h, [], burst), [], burst) == h;
    assert Product(0, 2) == 0 && ReadAt(input[0], h.stream, 0 + Product(0, 2), 16384);
  }

  // ---- stages -----------------------------------------------------------------------------------

  /** The stages of a pass are what the events of its stretches make of one another. */
  lemma StageFacts(h: Hardware, threshold: nat, s: Schedule, clip: nat, burst: nat)
    requires h.Sane(burst)
    ensures var p := PassStages(h, threshold, s, clip, burst);
            && p.start == After(h, s.beforeStart, burst) && p.tested == After(p.start, s.beforeTest, burst)
            && p.resync == Resynced(p.tested, threshold, s, clip, burst)
            && p.copied == AfterAll(p.resync, s.copy, burst) && p.bottom == After(p.copied, s.work, burst)
            && p.start.Sane(burst) && p.tested.Sane(burst) && p.resync.Sane(burst) && p.copied.Sane(burst)
            && |p.tested.stream| <= |h.stream| + Arrivals(s.beforeStart) + Arrivals(s.beforeTest)
            && |p.resync.stream| <= |p.tested.stream| + Arrivals(s.afterTest) + Arrivals(s.afterCount)
            && |p.copied.stream| <= |p.resync.stream| + TotalArrivals(s.copy)
            && |p.bottom.stream| <= |p.copied.stream| + Arrivals(s.work)
            && p.copied.Counted() >= p.resync.Counted() && p.bottom.Counted() >= p.copied.Counted()
            && p.copied.stream <= p.bottom.stream
  {
    AfterGrows(h, s.beforeStart, burst);
    var start := After(h, s.beforeStart, burst);
    AfterGrows(start, s.beforeTest, burst);
    var tested := After(start, s.beforeTest, burst);
    ResyncGrows(tested, threshold, s, clip, burst);
    var resync := Resynced(tested, threshold, s, clip, burst);
    AfterAllGrows(resync, s.copy, burst);
    AfterGrows(AfterAll(resync, s.copy, burst), s.work, burst);
  }

  /** What the copy of a pass relies on. */
  lemma WindowFits(h: Hardware, threshold: nat, s: Schedule, clip: nat, burst: nat)
    requires h.Sane(burst) && threshold <= h.Counted() && |h.stream| + s.Total() < threshold + TWO31
    ensures var p := PassStages(h, threshold, s, clip, burst);
            var end := Loop(threshold, [], 0).Window(p.Seen(), clip);
            && p.start == After(h, s.beforeStart, burst) && p.tested == After(p.start, s.beforeTest, burst)
            && p.resync == Resynced(p.tested, threshold, s, clip, burst) && p.resync.Sane(burst)
            && p.copied == AfterAll(p.resync, s.copy, burst)
            && |p.tested.stream| + Arrivals(s.afterTest) < threshold + TWO31
            && end == (if p.tested.Counted() - threshold > clip then p.resync.Counted() else threshold)
            && threshold <= end <= p.resync.Counted() <= p.copied.Counted()
            && |p.copied.stream| <= end + clip + burst + TotalArrivals(s.copy)
  {
    hide PassStages;
    StageFacts(h, threshold, s, clip, burst);
  }

  /** What the rest of a pass relies on. */
  lemma PassEnd(h: Hardware, threshold: nat, s: Schedule, before: Loop, policy: Policy, clip: nat, burst: nat)
    requires h.Sane(burst) && before.threshold == threshold <= h.Counted()
    requires |h.stream| + s.Total() < threshold + TWO31
    ensures var p := PassStages(h, threshold, s, clip, burst);
            var r := p.Seen();
            && p.bottom == After(p.copied, s.work, burst) && p.copied.stream <= p.bottom.stream
            && 0 <= p.bottom.Counted() - p.start.Counted() < WORD
            && before.Window(r, clip) == Loop(threshold, [], 0).Window(r, clip) <= p.bottom.Counted()
            && before.Pass(r, policy, clip).threshold
               == before.Window(r, clip) + policy.Step(p.bottom.Counted() - p.start.Counted(), clip)
  {
    hide PassStages, Policy.Step;
    StageFacts(h, threshold, s, clip, burst);
  }

  /** How far the hardware and the threshold can be apart after a pass. */
  lemma PassFacts(h: Hardware, threshold: nat, s: Schedule, before: Loop, policy: Policy, clip: nat, burst: nat)
    requires h.Sane(burst) && before.threshold == threshold <= h.Counted()
    ensures var p := PassStages(h, threshold, s, clip, burst);
            var l := before.Pass(p.Seen(), policy, clip);
            && |p.bottom.stream| <= |h.stream| + s.Total() && h.stream <= p.bottom.stream
            && |p.bottom.stream| <= l.threshold + clip + burst + s.Total()
            && threshold <= l.threshold <= p.bottom.Counted() + if policy.Fixed? then policy.step else clip
  {
    hide PassStages;
    StageFacts(h, threshold, s, clip, burst);
  }

  lemma Within(j: nat, samples: nat, decimate: nat)
    requires j < samples && 0 < decimate
    ensures 0 <= j * decimate < samples * decimate
  {
    Ring.Multiples(j, samples, decimate);
    Ring.Multiples(0, j, decimate);
  }

  lemma ModMod(x: nat, m: nat, r: nat)
    requires 0 < r && 0 < m && m % r == 0
    ensures (x % m) % r == x % r
  {
    ModOfSum(x, x / m, m, m / r, r, (x % m) / r, (x % m) % r);
  }

  lemma ModOfSum(x: int, a: int, m: int, k: int, r: int, b: int, c: int)
    requires x == a * m + (b * r + c) && m == k * r && 0 <= c < r
    ensures x % r == c
  {
    assert a * m == (a * k) * r;
    Ring.ModShift(a * k + b, c, r);
  }

  /** The ring index of a window byte, computed in 32 bits from wrapped counters. */
  lemma WindowSlot(threshold: nat, clip: nat, offset: nat, ringSize: nat)
    requires clip <= threshold && 0 < ringSize && WORD % ringSize == 0 && clip < WORD
    ensures ((Minus(threshold % WORD, clip) % ringSize + offset) % WORD) % ringSize
         == (threshold - clip + offset) % ringSize
  {
    var from := threshold - clip;
    assert Minus(threshold % WORD, clip) == from % WORD;
    ModMod(from, WORD, ringSize);
    ModMod(from % ringSize + offset, WORD, ringSize);
    Ring.SumMod(from, offset, ringSize);
  }

  lemma MultipleFits(c: nat, burst: nat, ringSize: nat)
    requires 0 < burst && 0 < ringSize && ringSize % burst == 0 && c % burst == 0
    ensures c % ringSize + burst <= ringSize
  {
    var k, r := ringSize / burst, c / ringSize;
    var m := c / burst - r * k;
    assert c % ringSize == m * burst by { Remainder(c / burst, k, r, burst, c, ringSize); }
    if m >= k {
      Ring.Multiples(k, m, burst);
    } else {
      Ring.Multiples(m, k, burst);
    }
  }

  lemma Remainder(q: int, k: int, r: int, burst: int, c: int, ringSize: int)
    requires 0 < ringSize && r == c / ringSize && c == q * burst && ringSize == k * burst
    ensures c % ringSize == (q - r * k) * burst
  {
    assert c % ringSize == c - r * ringSize;
    assert r * (k * burst) == (r * k) * burst;
  }

  lemma SlotInBurst(c: nat, moved: nat, daddr: nat, ringSize: nat)
    requires 0 < ringSize && daddr == c % ringSize && daddr + moved < ringSize
    ensures (c + moved) % ringSize == daddr + moved
  {
    Ring.ModShift(c / ringSize, daddr + moved, ringSize);
  }

  lemma FullTurn(c: nat, d: nat, n: nat)
    requires 0 < n && c % n + d == n
    ensures (c + d) % n == 0
  {
    assert c + d == (c / n + 1) * n + 0;
    Ring.ModShift(c / n + 1, 0, n);
  }

  lemma NextBurst(c: nat, burst: nat, daddr: nat, ringSize: nat)
    requires 0 < burst && 0 < ringSize && daddr == c % ringSize && daddr + burst <= ringSize && c % burst == 0
    ensures (c + burst) % ringSize == if daddr + burst == ringSize then 0 else daddr + burst
    ensures (c + burst) % burst == 0
  {
    if daddr + burst == ringSize {
      FullTurn(c, burst, ringSize);
    } else {
      SlotInBurst(c, burst, daddr, ringSize);
    }
    FullTurn(c, burst, burst);
  }

  lemma NextCount(c: nat, burst: nat)
    ensures (c % WORD + burst) % WORD == (c + burst) % WORD
  {
  }

  lemma NothingCounted(burst: nat, ringSize: nat)
    requires 0 < burst && 0 < ringSize
    ensures 0 % burst == 0 && 0 % ringSize == 0
  {
    Ring.ModShift(0, 0, burst);
    Ring.ModShift(0, 0, ringSize);
  }
}
