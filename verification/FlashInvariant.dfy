/** What every run of the flash simulator keeps. */
module FlashInvariant {
  import opened FixedPoint
  import opened FlashSpec

  /** A falling edge that completes a command byte. */
  predicate Completes(s: Sim, p: Pins, op: byte) {
    var g := ShiftIn(Tick(s.flash), p.dat);
    Falling(s, p) && g.state != QuadReadIdle && g.state != DualReadIdle && g.count == 8 && g.ireg % 256 == op
  }

  /** States that a read leaves behind when it ends. */
  predicate ReadState(s: State) {
    s == QuadReadCmd || s == QuadRead || s == DualReadCmd || s == DualRead
  }

  /** The byte boundary at which a read state takes its mode byte. */
  predicate TakesModeByte(g: Flash) {
    match g.state
    case QuadReadCmd => g.count == 40
    case DualReadCmd => g.count == 40 && !g.sreg.wip
    case QuadRead => g.count == 32
    case DualRead => g.count == 32
    case _ => false
  }

  /** A read that has ended, its state left over, takes 0xA? for its mode byte from another
      transaction, on the one-bit bus. */
  predicate Stray(s: Sim, p: Pins) {
    var g := ShiftIn(Tick(s.flash), p.dat);
    Falling(s, p) && TakesStray(g)
  }

  predicate TakesStray(g: Flash) {
    g.mode == Spi && TakesModeByte(g) && g.ireg % 256 / 16 == 0xA
  }

  /** No transaction is so long that the 32-bit counter of its bits wraps. */
  predicate Short(s: Sim, ins: seq<Pins>)
    requires s.flash.Valid()
    decreases |ins|
  {
    |ins| == 0 || (s.flash.count < WORD - 4 && Short(Step(s, ins[0]), ins[1..]))
  }

  predicate Harmless(s: Sim, ins: seq<Pins>)
    requires s.flash.Valid()
    decreases |ins|
  {
    |ins| == 0 || (s.flash.count < WORD - 4 && !Stray(s, ins[0]) && Harmless(Step(s, ins[0]), ins[1..]))
  }

  function Run(s: Sim, ins: seq<Pins>): (r: Sim)
    requires s.flash.Valid()
    ensures r.flash.Valid()
    decreases |ins|
  {
    if |ins| == 0 then s else Run(Step(s, ins[0]), ins[1..])
  }

  /** Commands that the simulator answers without leaving its state. */
  const IGNORED: set<byte> := {0x66, 0x81, 0x99}

  predicate BusMatches(f: Flash) {
    match f.state
    case QuadReadIdle => f.mode == Quad && f.count < 24 && f.count % 4 == 0
    case DualReadIdle => f.mode == Dual && f.count < 24 && f.count % 2 == 0
    case QuadRead => ReadBus(f, Quad, 24)
    case QuadReadCmd => ReadBus(f, Quad, 8)
    case DualRead => ReadBus(f, Dual, 24)
    case DualReadCmd => ReadBus(f, Dual, 8)
    case QuadPageProgram => f.mode == if f.count >= 32 then Quad else Spi
    case _ => f.mode == Spi
  }

  /** Either the read is under way on its own bus, or it has ended and its state is
      left over until a command replaces it. */
  predicate ReadBus(f: Flash, m: Mode, from: int) {
    (f.mode == m && f.count >= from) || (f.mode == Spi && f.modeByte / 16 != 0xA)
  }

  /** What holds in every state that can be reached, whatever the host does: a write in
      progress has time left, and no other one is accepted. */
  ghost predicate WriteInv(f: Flash) {
    && f.Valid() && f.state != DeepPowerDown
    && (f.sreg.wip ==> f.writeCount > 0)
    && (Writing(f.state) ==> !f.sreg.wip)
  }

  ghost predicate Inv(f: Flash) {
    && WriteInv(f)
    && (Writing(f.state) ==> !f.sreg.deepSleep && f.count >= 8)
    && (f.sreg.deepSleep ==> f.state == Idle)
    && BusMatches(f)
  }

  lemma InvTick(f: Flash)
    requires Inv(f)
    ensures Inv(Tick(f))
  {
  }

  lemma InvFinishWrite(f: Flash)
    requires Inv(f) && Writing(f.state)
    ensures Inv(FinishWrite(f).(count := 0))
  {
    hide ProgramPage, EraseRange;
  }

  lemma InvDeselect(f: Flash)
    requires Inv(f)
    ensures Inv(Deselect(f)) && Deselect(f).count == 0
  {
    hide ProgramPage, EraseRange;
    if Writing(f.state) {
      InvFinishWrite(f);
    }
  }

  ghost predicate CommandReady(f: Flash) {
    && f.Valid() && f.count == 8 && f.mode == Spi && f.state != QuadReadIdle && f.state != DualReadIdle
    && f.state != DeepPowerDown && (f.sreg.wip ==> f.writeCount > 0) && (f.sreg.deepSleep ==> f.state == Idle)
  }

  lemma InvWriteCommand(f: Flash, op: byte)
    requires CommandReady(f) && op in {0x01, 0x02, 0x32, 0xc7, 0xd8}
    ensures Inv(Decode(f, op))
  {
  }

  lemma InvReadCommand(f: Flash, op: byte)
    requires CommandReady(f) && op in {0x03, 0x05, 0x0b, 0x35, 0x9f, 0xbb, 0xeb}
    ensures Inv(Decode(f, op))
  {
  }

  /** A command ends the previous transaction's state, unless it is ignored. */
  lemma InvDecode(f: Flash, op: byte)
    requires CommandReady(f) && op !in IGNORED
    ensures Inv(Decode(f, op))
  {
    hide Decode, Inv;
    if op in {0x01, 0x02, 0x32, 0xc7, 0xd8} {
      InvWriteCommand(f, op);
    } else if op in {0x03, 0x05, 0x0b, 0x35, 0x9f, 0xbb, 0xeb} {
      InvReadCommand(f, op);
    } else {
      InvControlCommand(f, op);
    }
  }

  /** An ignored command leaves the state of the flash as it is. */
  lemma InvIgnored(f: Flash, op: byte)
    requires CommandReady(f) && op in IGNORED && BusMatches(f) && !Writing(f.state)
    ensures Inv(Decode(f, op))
  {
    assert Decode(f, op) == f || Decode(f, op) == Load(f, 0);
    hide Decode;
  }

  lemma InvControlCommand(f: Flash, op: byte)
    requires CommandReady(f) && op !in IGNORED
    requires op !in {0x01, 0x02, 0x32, 0xc7, 0xd8, 0x03, 0x05, 0x0b, 0x35, 0x9f, 0xbb, 0xeb}
    ensures Inv(Decode(f, op))
  {
  }

  lemma InvByteDone(f: Flash)
    requires f.Valid() && f.count >= 16
    requires f.state != QuadReadIdle && f.state != DualReadIdle
    requires Inv(f) || (f.state == QuadPageProgram && f.count == 32 && Inv(f.(mode := Quad)))
    requires !TakesStray(f)
    ensures Inv(ByteDone(f))
  {
    if Programming(f.state) || f.state == WriteStatus || f.state == SectorErase {
      InvDataIn(f);
    } else {
      InvDataOut(f);
    }
  }

  lemma InvDataIn(f: Flash)
    requires f.Valid() && f.count >= 16
    requires Programming(f.state) || f.state == WriteStatus || f.state == SectorErase
    requires Inv(f) || (f.state == QuadPageProgram && f.count == 32 && Inv(f.(mode := Quad)))
    ensures Inv(DataIn(f))
  {
  }

  lemma InvDataOut(f: Flash)
    requires Inv(f) && f.count >= 16 && !Programming(f.state) && f.state != WriteStatus && f.state != SectorErase
    requires f.state != QuadReadIdle && f.state != DualReadIdle && !TakesStray(f)
    ensures Inv(DataOut(f))
  {
  }

  lemma ShiftFacts(f: Flash, dat: nibble)
    requires f.Valid() && f.count < WORD - 4
    ensures var g := ShiftIn(f, dat);
            g == f.(ireg := g.ireg, oreg := g.oreg, count := f.count + Width(f.mode))
  {
  }

  lemma ShiftKeeps(f: Flash, dat: nibble)
    ensures var g := ShiftIn(f, dat); g == f.(ireg := g.ireg, oreg := g.oreg, count := g.count)
  {
  }

  lemma InvEdge(f: Flash, dat: nibble)
    requires Inv(f) && f.count < WORD - 4 && !TakesStray(ShiftIn(f, dat))
    ensures Inv(Edge(f, dat))
  {
    hide Decode, ByteDone, ShiftIn;
    ShiftFacts(f, dat);
    InvShifted(f, ShiftIn(f, dat));
  }

  ghost predicate Shifted(f: Flash, g: Flash) {
    && Inv(f) && g == f.(ireg := g.ireg, oreg := g.oreg, count := g.count)
    && g.count == f.count + Width(f.mode) && !TakesStray(g)
  }

  lemma InvIdleRead(f: Flash, g: Flash)
    requires Shifted(f, g) && (g.state == QuadReadIdle || g.state == DualReadIdle)
    ensures Inv(Process(g))
  {
    hide Decode, ByteDone;
    assert g.count % Width(f.mode) == 0 && g.count <= 24;
    if g.state == QuadReadIdle {
      assert Process(g) == EnterRead(g, QuadRead);
    } else {
      assert Process(g) == EnterRead(g, DualRead);
    }
  }

  lemma InvCommand(f: Flash, g: Flash)
    requires Shifted(f, g) && g.state != QuadReadIdle && g.state != DualReadIdle
    requires g.count == 8
    ensures Inv(Process(g))
  {
    hide Decode;
    assert CommandReady(Load(g, 0xa5)) && !Writing(g.state);
    if g.ireg % 256 in IGNORED {
      InvIgnored(Load(g, 0xa5), g.ireg % 256);
    } else {
      InvDecode(Load(g, 0xa5), g.ireg % 256);
    }
  }

  lemma InvBoundary(f: Flash, g: Flash)
    requires Shifted(f, g) && g.state != QuadReadIdle && g.state != DualReadIdle
    requires g.count % 8 == 0 && g.count != 8
    ensures Inv(Process(g))
  {
    hide ByteDone;
    InvByteDone(Load(g, 0));
  }

  lemma InvMidByte(f: Flash, g: Flash)
    requires Shifted(f, g) && g.state != QuadReadIdle && g.state != DualReadIdle && g.count % 8 != 0
    ensures Inv(Process(g))
  {
    hide Decode, ByteDone;
    assert g.count != 8 && g.count != 32 && Process(g) == g;
    assert BusMatches(g);
  }

  lemma InvShifted(f: Flash, g: Flash)
    requires Shifted(f, g)
    ensures Inv(Process(g))
  {
    if g.state == QuadReadIdle || g.state == DualReadIdle {
      InvIdleRead(f, g);
    } else if g.count == 8 {
      InvCommand(f, g);
    } else if g.count % 8 == 0 {
      InvBoundary(f, g);
    } else {
      InvMidByte(f, g);
    }
  }

  lemma InvStep(s: Sim, p: Pins)
    requires Inv(s.flash) && s.flash.count < WORD - 4 && !Stray(s, p)
    ensures Inv(Step(s, p).flash)
    ensures p.csn ==> Step(s, p).flash.count == 0
  {
    hide Deselect, Edge;
    InvTick(s.flash);
    var t := Tick(s.flash);
    if p.csn {
      InvDeselect(t);
    } else if Falling(s, p) {
      InvEdge(t, p.dat);
    }
  }

  /** Every run without a stray mode byte keeps the invariant. */
  lemma {:induction false} InvRun(s: Sim, ins: seq<Pins>)
    requires Inv(s.flash) && Harmless(s, ins)
    ensures Inv(Run(s, ins).flash)
    decreases |ins|
  {
    if |ins| > 0 {
      InvStep(s, ins[0]);
      InvRun(Step(s, ins[0]), ins[1..]);
    }
  }

  // ---- stray mode bytes -----------------------------------------------------------------

  /** A left-over read state has not yet taken a command. */
  predicate Fresh(f: Flash) {
    ReadState(f.state) && f.mode == Spi ==> f.count < 8
  }

  /** No ignored command is completed while the state of an earlier read is left over. */
  predicate NoneIgnored(s: Sim, ins: seq<Pins>)
    requires s.flash.Valid()
    decreases |ins|
  {
    |ins| == 0 ||
    ((ReadState(s.flash.state) ==> forall op <- IGNORED :: !Completes(s, ins[0], op))
     && NoneIgnored(Step(s, ins[0]), ins[1..]))
  }

  lemma FreshDecode(f: Flash, op: byte)
    requires CommandReady(f) && (ReadState(f.state) ==> op !in IGNORED)
    ensures Fresh(Decode(f, op))
  {
    if op == 0xbb || op == 0xeb {
      assert f.sreg.deepSleep || Decode(f, op).mode != Spi;
    } else if ReadState(Decode(f, op).state) {
      OnlyReadsRead(f, op);
    }
    hide Decode;
  }

  lemma OnlyReadsRead(f: Flash, op: byte)
    requires op != 0xbb && op != 0xeb && ReadState(Decode(f, op).state)
    ensures Decode(f, op).state == f.state && (f.sreg.deepSleep || op in IGNORED)
  {
  }

  lemma FreshProcess(f: Flash, g: Flash)
    requires Inv(f) && Fresh(f) && g == f.(ireg := g.ireg, oreg := g.oreg, count := g.count)
    requires g.count == f.count + Width(f.mode)
    requires g.count == 8 && ReadState(g.state) ==> g.ireg % 256 !in IGNORED
    ensures !TakesStray(g) && Fresh(Process(g))
  {
    hide Decode, ByteDone;
    if g.count == 8 && g.state != QuadReadIdle && g.state != DualReadIdle {
      FreshDecode(Load(g, 0xa5), g.ireg % 256);
    }
    ByteKeepsRead(Load(g, 0));
  }

  lemma ByteKeepsRead(f: Flash)
    requires f.Valid()
    ensures ByteDone(f).state == f.state && ByteDone(f).count == f.count
    ensures ReadState(f.state) ==> ByteDone(f).mode == f.mode
  {
  }

  lemma TickKeeps(f: Flash)
    ensures Tick(f).state == f.state && Tick(f).mode == f.mode && Tick(f).count == f.count
  {
  }

  lemma FreshStep(s: Sim, p: Pins)
    requires Inv(s.flash) && Fresh(s.flash) && s.flash.count < WORD - 4
    requires ReadState(s.flash.state) ==> forall op <- IGNORED :: !Completes(s, p, op)
    ensures !Stray(s, p) && Fresh(Step(s, p).flash)
  {
    hide Deselect, Process, ShiftIn, Inv, TakesStray;
    var t := Tick(s.flash);
    InvTick(s.flash);
    TickKeeps(s.flash);
    if p.csn {
      InvDeselect(t);
    } else if Falling(s, p) {
      var g := ShiftIn(t, p.dat);
      InvSound(t);
      ShiftFacts(t, p.dat);
      var op: byte := g.ireg % 256;
      assert g.count == 8 && ReadState(g.state) ==> Completes(s, p, op);
      FreshProcess(t, g);
    }
  }

  /** Only an ignored command on top of a finished read makes a stray mode byte possible. */
  lemma {:induction false} OnlyIgnoredStray(s: Sim, ins: seq<Pins>)
    requires Inv(s.flash) && Fresh(s.flash) && Short(s, ins) && NoneIgnored(s, ins)
    ensures Harmless(s, ins)
    decreases |ins|
  {
    if |ins| > 0 {
      hide Step, Completes, Stray;
      FreshStep(s, ins[0]);
      InvStep(s, ins[0]);
      OnlyIgnoredStray(Step(s, ins[0]), ins[1..]);
    }
  }

  /** A stray mode byte has been taken; chip select has not risen since. */
  ghost predicate Doomed(f: Flash) {
    && f.Valid() && f.mode == Spi && ReadState(f.state) && f.modeByte / 16 == 0xA
    && f.count >= if f.state == QuadReadCmd || f.state == DualReadCmd then 40 else 32
  }

  lemma StrayDooms(s: Sim, p: Pins)
    requires Inv(s.flash) && s.flash.count < WORD - 4 && Stray(s, p)
    ensures Doomed(Step(s, p).flash)
  {
    hide Process, ShiftIn, Inv, TakesStray;
    InvSound(s.flash);
    ShiftKeeps(Tick(s.flash), p.dat);
    StrayTaken(ShiftIn(Tick(s.flash), p.dat));
  }

  lemma StrayTaken(g: Flash)
    requires g.Valid() && TakesStray(g)
    ensures Doomed(Process(g))
  {
    hide Decode, DataIn;
  }

  lemma DoomedEnds(f: Flash)
    requires Doomed(f)
    ensures IdleReadFaults(Deselect(f))
  {
  }

  lemma DoomedEdge(f: Flash, g: Flash)
    requires Doomed(f) && g == f.(ireg := g.ireg, oreg := g.oreg, count := g.count) && g.count == f.count + 1
    ensures Doomed(Process(g))
  {
    hide Decode, DataIn;
  }

  lemma DoomedStep(s: Sim, p: Pins)
    requires Doomed(s.flash) && s.flash.count < WORD - 4
    ensures if p.csn then IdleReadFaults(Step(s, p).flash) else Doomed(Step(s, p).flash)
  {
    hide Process, ShiftIn, Deselect;
    var t := Tick(s.flash);
    if p.csn {
      DoomedEnds(t);
    } else if Falling(s, p) {
      ShiftFacts(t, p.dat);
      DoomedEdge(t, ShiftIn(t, p.dat));
    }
  }

  /** At some point of the run the flash is in an idle read state whose assertion fails. */
  ghost predicate Breaks(s: Sim, ins: seq<Pins>)
    requires s.flash.Valid()
  {
    exists i :: 0 <= i <= |ins| && IdleReadFaults(Run(s, ins[..i]).flash)
  }

  /** A stray mode byte is taken and chip select rises later on. */
  ghost predicate StrayEnds(s: Sim, ins: seq<Pins>)
    requires s.flash.Valid()
  {
    exists j, k :: 0 <= j < k < |ins| && Stray(Run(s, ins[..j]), ins[j]) && ins[k].csn
  }

  lemma RunFrom(s: Sim, ins: seq<Pins>, i: nat)
    requires s.flash.Valid() && i < |ins|
    ensures Run(s, ins[..i + 1]) == Run(Step(s, ins[0]), ins[1..][..i]) && Run(s, ins[..0]) == s
  {
    assert ins[..i + 1][1..] == ins[1..][..i];
  }

  lemma BreaksNext(s: Sim, ins: seq<Pins>)
    requires s.flash.Valid() && |ins| > 0
    ensures Breaks(s, ins) <==> IdleReadFaults(s.flash) || Breaks(Step(s, ins[0]), ins[1..])
  {
    hide Step, IdleReadFaults;
    forall i: nat | i < |ins| ensures Run(s, ins[..i + 1]) == Run(Step(s, ins[0]), ins[1..][..i]) {
      RunFrom(s, ins, i);
    }
    assert Run(s, ins[..0]) == s;
    if i :| 0 <= i <= |ins| && IdleReadFaults(Run(s, ins[..i]).flash) {
      assert i > 0 ==> Run(s, ins[..(i - 1) + 1]) == Run(Step(s, ins[0]), ins[1..][..i - 1]);
    }
    if i :| 0 <= i <= |ins| - 1 && IdleReadFaults(Run(Step(s, ins[0]), ins[1..][..i]).flash) {
      assert IdleReadFaults(Run(s, ins[..i + 1]).flash);
    }
  }

  lemma StrayEndsNext(s: Sim, ins: seq<Pins>)
    requires s.flash.Valid() && |ins| > 0
    ensures StrayEnds(s, ins) <==>
            (Stray(s, ins[0]) && exists k :: 0 < k < |ins| && ins[k].csn) || StrayEnds(Step(s, ins[0]), ins[1..])
  {
    hide Step, Stray;
    var rest := ins[1..];
    forall i: nat | i < |ins| ensures Run(s, ins[..i + 1]) == Run(Step(s, ins[0]), rest[..i]) {
      RunFrom(s, ins, i);
    }
    assert Run(s, ins[..0]) == s;
    if j, k :| 0 <= j < k < |ins| && Stray(Run(s, ins[..j]), ins[j]) && ins[k].csn {
      if j > 0 {
        assert Run(s, ins[..(j - 1) + 1]) == Run(Step(s, ins[0]), rest[..j - 1]);
        assert Stray(Run(Step(s, ins[0]), rest[..j - 1]), rest[j - 1]) && rest[k - 1].csn;
      }
    }
    if j, k :| 0 <= j < k < |rest| && Stray(Run(Step(s, ins[0]), rest[..j]), rest[j]) && rest[k].csn {
      assert Stray(Run(s, ins[..j + 1]), ins[j + 1]) && ins[k + 1].csn;
    }
  }

  lemma {:induction false} DoomedBreaks(s: Sim, ins: seq<Pins>)
    requires Doomed(s.flash) && Short(s, ins)
    ensures Breaks(s, ins) <==> exists k :: 0 <= k < |ins| && ins[k].csn
    decreases |ins|
  {
    hide Step, Doomed;
    DoomedSound(s.flash);
    if |ins| > 0 {
      BreaksNext(s, ins);
      DoomedStep(s, ins[0]);
      if ins[0].csn {
        BreaksNow(Step(s, ins[0]), ins[1..]);
      } else {
        DoomedBreaks(Step(s, ins[0]), ins[1..]);
        assert forall k :: 0 <= k < |ins| - 1 ==> ins[1..][k] == ins[k + 1];
      }
    }
  }

  lemma DoomedSound(f: Flash)
    requires Doomed(f)
    ensures f.Valid() && !IdleReadFaults(f)
  {
  }

  lemma BreaksNow(s: Sim, ins: seq<Pins>)
    requires s.flash.Valid() && IdleReadFaults(s.flash)
    ensures Breaks(s, ins)
  {
    assert Run(s, ins[..0]) == s;
  }

  /** The assertions of the idle read states fail in a run exactly if somewhere in it a
      stray mode byte is taken and chip select rises after that. */
  lemma {:induction false} IdleReadSound(s: Sim, ins: seq<Pins>)
    requires Inv(s.flash) && Short(s, ins)
    ensures Breaks(s, ins) <==> StrayEnds(s, ins)
    decreases |ins|
  {
    hide Step, Stray, Doomed, Inv;
    InvSound(s.flash);
    if |ins| > 0 {
      BreaksNext(s, ins);
      StrayEndsNext(s, ins);
      var next, rest := Step(s, ins[0]), ins[1..];
      if Stray(s, ins[0]) {
        StrayDooms(s, ins[0]);
        DoomedBreaks(next, rest);
        assert forall k :: 0 < k < |ins| ==> ins[k] == rest[k - 1];
        LaterEnd(next, rest);
      } else {
        InvStep(s, ins[0]);
        IdleReadSound(next, rest);
      }
    }
  }

  lemma LaterEnd(s: Sim, ins: seq<Pins>)
    requires s.flash.Valid()
    ensures StrayEnds(s, ins) ==> exists k :: 0 <= k < |ins| && ins[k].csn
  {
  }

  /** The first call is made with chip select high. */
  lemma InvStart(s: Sim, p: Pins)
    requires Initial(s) && p.csn
    ensures Inv(Step(s, p).flash) && Step(s, p).flash.count == 0
  {
  }

  /** In every such run: the assertions of the idle read
      states hold, a write in progress has time left, and whenever chip select is raised
      the bus is four (two) bits wide exactly in the continuous quad (dual) read state. */
  lemma BusModeFollowsState(s: Sim, first: Pins, ins: seq<Pins>, last: Pins)
    requires Initial(s) && first.csn && last.csn && Harmless(Step(s, first), ins)
    ensures var r := Run(Step(s, first), ins);
            var f, g := r.flash, Step(r, last).flash;
            && !IdleReadFaults(f) && (f.sreg.wip ==> f.writeCount > 0)
            && (g.mode == Quad <==> g.state == QuadReadIdle)
            && (g.mode == Dual <==> g.state == DualReadIdle)
  {
    hide Deselect, Tick, Inv, IdleReadFaults, Run;
    InvStart(s, first);
    InvRun(Step(s, first), ins);
    var f := Run(Step(s, first), ins).flash;
    InvSound(f);
    InvTick(f);
    InvSound(Tick(f));
    InvDeselect(Tick(f));
    InvIdleBus(Deselect(Tick(f)));
  }

  lemma InvSound(f: Flash)
    requires Inv(f)
    ensures f.Valid() && !IdleReadFaults(f) && (f.sreg.wip ==> f.writeCount > 0)
  {
  }

  lemma InvIdleBus(f: Flash)
    requires Inv(f) && f.count == 0
    ensures (f.mode == Quad <==> f.state == QuadReadIdle) && (f.mode == Dual <==> f.state == DualReadIdle)
  {
  }

  // ---- writes ------------------------------------------------------------------------------

  lemma WriteInvStep(s: Sim, p: Pins)
    requires WriteInv(s.flash)
    ensures WriteInv(Step(s, p).flash)
  {
    hide Deselect, Process, ShiftIn;
    var t := Tick(s.flash);
    if p.csn {
      WriteInvDeselect(t);
    } else if Falling(s, p) {
      ShiftKeeps(t, p.dat);
      WriteInvProcess(ShiftIn(t, p.dat));
    }
  }

  lemma WriteInvDeselect(f: Flash)
    requires WriteInv(f)
    ensures WriteInv(Deselect(f))
  {
    hide ProgramPage, EraseRange;
  }

  lemma WriteInvProcess(g: Flash)
    requires WriteInv(g)
    ensures WriteInv(Process(g))
  {
    hide Decode, ByteDone;
    WriteInvDecode(Load(g, 0xa5), g.ireg % 256);
    ByteKeepsStatus(Load(g, 0));
  }

  lemma WriteInvDecode(f: Flash, op: byte)
    requires WriteInv(f)
    ensures WriteInv(Decode(f, op))
  {
    DecodeWrites(f, op);
    DecodeNoPowerDown(f, op);
    if op == 0xab {
      assert Decode(f, op).sreg.wip == f.sreg.wip && Decode(f, op).state == Release;
    } else {
      DecodeKeepsTimer(f, op);
    }
    hide Decode;
  }

  lemma DecodeNoPowerDown(f: Flash, op: byte)
    requires f.state != DeepPowerDown
    ensures Decode(f, op).state != DeepPowerDown
  {
  }

  /** In every state that any run reaches from a new simulator a write in progress has time
      left and no other write is accepted: no opcode, no length of a transaction and no
      first call is excluded. */
  lemma {:induction false} WriteInvRun(s: Sim, ins: seq<Pins>)
    requires WriteInv(s.flash) || Initial(s)
    ensures WriteInv(Run(s, ins).flash)
    decreases |ins|
  {
    if |ins| > 0 {
      hide Step;
      WriteInvStep(s, ins[0]);
      WriteInvRun(Step(s, ins[0]), ins[1..]);
    }
  }

  /** Memory changes only when chip select rises on an accepted program or erase, never
      while another one is in progress, and the change starts a new busy period.  Such a
      state is entered only by a command that found WEL set and WIP clear. */
  lemma MemoryChangesOnlyByWrites(s: Sim, p: Pins)
    requires WriteInv(s.flash)
    ensures var f, g := s.flash, Step(s, p).flash;
            && (g.mem != f.mem ==>
                  && p.csn && Writing(f.state) && f.state != WriteStatus
                  && !f.sreg.wip && g.mem == Written(f)
                  && g.sreg.wip && !g.sreg.wel && g.writeCount == WriteTime(f.state))
            && (f.sreg.wip ==> g.mem == f.mem)
            && (Writing(g.state) && !Writing(f.state) ==> Falling(s, p) && Tick(f).sreg.Writable())
  {
    hide Deselect, Written, Process, ShiftIn;
    var t := Tick(s.flash);
    if p.csn {
      DeselectMemory(t);
      TickWritten(s.flash);
    } else if Falling(s, p) {
      ShiftKeeps(t, p.dat);
      WriteEntered(ShiftIn(t, p.dat));
    }
  }

  lemma TickWritten(f: Flash)
    requires f.Valid()
    ensures Written(Tick(f)) == Written(f)
  {
  }

  lemma DeselectMemory(f: Flash)
    requires WriteInv(f)
    ensures var r := Deselect(f);
            && !Writing(r.state)
            && (r.mem != f.mem ==> Writing(f.state))
            && (Writing(f.state) ==> !f.sreg.wip && r.mem == Written(f)
                                     && r.sreg.wip && !r.sreg.wel && r.writeCount == WriteTime(f.state))
    ensures f.state == WriteStatus ==> Deselect(f).mem == f.mem
  {
    hide ProgramPage, EraseRange;
  }

  lemma WriteEntered(g: Flash)
    requires g.Valid()
    ensures Writing(Process(g).state) && !Writing(g.state) ==> g.sreg.Writable()
  {
    hide Decode, ByteDone;
    var l := Load(g, 0xa5);
    DecodeWrites(l, g.ireg % 256);
    ByteKeepsStatus(Load(g, 0));
  }

  lemma DecodeWrites(f: Flash, op: byte)
    ensures Writing(Decode(f, op).state) && !Writing(f.state) ==> f.sreg.Writable()
  {
  }

  lemma ByteKeepsStatus(f: Flash)
    requires f.Valid()
    ensures ByteDone(f).state == f.state && ByteDone(f).writeCount == f.writeCount
    ensures ByteDone(f).sreg.wip == f.sreg.wip
  {
  }

  /** No call of the run completes the release command. */
  predicate NoRelease(s: Sim, ins: seq<Pins>)
    requires s.flash.Valid()
    decreases |ins|
  {
    |ins| == 0 || (!Completes(s, ins[0], 0xab) && NoRelease(Step(s, ins[0]), ins[1..]))
  }

  /** Nothing but its timer ends a busy period: without the release command WIP stays set
      for exactly writeCount calls, whatever else the host sends. */
  lemma {:induction false} WriteInProgressLifetime(s: Sim, ins: seq<Pins>)
    requires WriteInv(s.flash) && s.flash.sreg.wip && s.flash.state != Release && |ins| <= s.flash.writeCount
    requires NoRelease(s, ins)
    ensures var f, g := s.flash, Run(s, ins).flash;
            && g.mem == f.mem && g.writeCount == f.writeCount - |ins|
            && (g.sreg.wip <==> |ins| < f.writeCount)
    decreases |ins|
  {
    if |ins| > 0 {
      hide Step, Completes;
      WriteInvStep(s, ins[0]);
      BusyStep(s, ins[0]);
      if |ins| > 1 {
        WriteInProgressLifetime(Step(s, ins[0]), ins[1..]);
      } else {
        assert Run(s, ins) == Step(s, ins[0]);
      }
    }
  }

  lemma BusyStep(s: Sim, p: Pins)
    requires WriteInv(s.flash) && s.flash.sreg.wip && s.flash.state != Release && !Completes(s, p, 0xab)
    ensures var f, g := s.flash, Step(s, p).flash;
            && g.state != Release && g.mem == f.mem && g.writeCount == f.writeCount - 1
            && (g.sreg.wip <==> f.writeCount > 1)
  {
    hide Deselect, Process, ShiftIn;
    var t := Tick(s.flash);
    if p.csn {
      DeselectBusy(t);
    } else if Falling(s, p) {
      ShiftKeeps(t, p.dat);
      BusyProcess(ShiftIn(t, p.dat));
    }
  }

  lemma DeselectBusy(f: Flash)
    requires WriteInv(f) && !Writing(f.state) && f.state != Release
    ensures var r := Deselect(f);
            r.state != Release && r.mem == f.mem && r.writeCount == f.writeCount && r.sreg.wip == f.sreg.wip
  {
  }

  lemma BusyProcess(g: Flash)
    requires g.Valid() && g.state != Release
    requires g.state != QuadReadIdle && g.state != DualReadIdle && g.count == 8 ==> g.ireg % 256 != 0xab
    ensures var r := Process(g);
            && r.state != Release && r.writeCount == g.writeCount && r.sreg.wip == g.sreg.wip
  {
    hide Decode, ByteDone;
    if g.state != QuadReadIdle && g.state != DualReadIdle && g.count == 8 {
      DecodeKeepsTimer(Load(g, 0xa5), g.ireg % 256);
      DecodeReleases(Load(g, 0xa5), g.ireg % 256);
    }
    ByteKeepsStatus(Load(g, 0));
  }

  lemma DecodeKeepsTimer(f: Flash, op: byte)
    requires op != 0xab
    ensures Decode(f, op).writeCount == f.writeCount && Decode(f, op).sreg.wip == f.sreg.wip
  {
  }

  lemma DecodeReleases(f: Flash, op: byte)
    requires op != 0xab && f.state != Release
    ensures Decode(f, op).state != Release
  {
  }
}
