/** When the simulator neither stops at one of its assertions nor leaves its memory: for
    single transactions, for the whole session of FlashSession, and on the object. */
module FlashSound {
  import opened FixedPoint
  import opened FlashSpec
  import opened FlashInvariant
  import opened FlashWire
  import opened FlashTransactions
  import opened FlashRead
  import opened FlashSession
  import FlashSim

  /** A run of falling edges on which the simulator neither stops nor leaves its memory. */
  predicate Sound(f: Flash, ds: seq<nibble>)
    requires f.Valid()
    decreases |ds|
  {
    |ds| == 0 || (!EdgeFaults(f, ds[0]) && Sound(Edge(f, ds[0]), ds[1..]))
  }

  /** Every byte boundary of a read fetches: n boundaries stay inside the memory array exactly
      when the addresses from f.addr on do.  So returning the last nibble of a byte also
      fetches the byte after it. */
  lemma {:induction false} ReadDataSound(f: Flash, ds: seq<nibble>, n: nat, from: nat)
    requires Reading(f, from) && from + 40 <= f.count && f.count + 8 * n < WORD - 8 && |ds| == 2 * n
    requires f.addr + n <= MEM_BYTES + 1
    ensures Sound(f, ds) <==> n == 0 || f.addr + n <= MEM_BYTES
    decreases n
  {
    if n > 0 {
      hide Edge, Edges, Sound;
      SoundByte(f, ds, from);
      FetchEdges(f, ds[..2], from);
      if f.addr < MEM_BYTES {
        ReadDataSound(Edges(f, ds[..2]), ds[2..], n - 1, from);
      }
    }
  }

  /** The two edges of a read byte are sound if its fetch is. */
  lemma SoundByte(f: Flash, ds: seq<nibble>, from: nat)
    requires Reading(f, from) && from + 40 <= f.count < WORD - 16 && |ds| >= 2
    ensures Sound(f, ds) <==> f.addr < MEM_BYTES && Sound(Edges(f, ds[..2]), ds[2..])
  {
    hide Edge, EdgeFaults, Edges;
    MidByteEdge(f, ds[0]);
    TwoEdges(f, ds[..2]);
    BoundaryFault(f, ds[0], ds[1], from);
    assert ds[1..][1..] == ds[2..] && ds[..2][0] == ds[0] && ds[..2][1] == ds[1];
  }

  lemma BoundaryFault(f: Flash, d: nibble, e: nibble, from: nat)
    requires Reading(f, from) && from + 40 <= f.count < WORD - 16
    ensures !EdgeFaults(f, d)
    ensures EdgeFaults(ShiftIn(f, d), e) <==> f.addr >= MEM_BYTES
  {
    ShiftFacts(f, d);
    ShiftFacts(ShiftIn(f, d), e);
    hide ShiftIn;
    assert (f.count + 4) % 8 == 4;
  }

  lemma {:induction false} SoundAppend(f: Flash, a: seq<nibble>, b: seq<nibble>)
    requires f.Valid()
    ensures Sound(f, a + b) <==> Sound(f, a) && Sound(Edges(f, a), b)
    decreases |a|
  {
    hide Edge, EdgeFaults;
    if |a| == 0 {
      assert a + b == b;
    } else {
      assert (a + b)[0] == a[0] && (a + b)[1..] == a[1..] + b;
      SoundAppend(Edge(f, a[0]), a[1..], b);
      EdgesAppend(f, a[..1], a[1..]);
      OneEdge(f, a[0]);
      assert a == a[..1] + a[1..] && a[..1] == [a[0]];
    }
  }

  /** The part of a byte before its last bit never stops the simulator. */
  lemma {:induction false} PartSound(f: Flash, ds: seq<nibble>)
    requires f.Valid() && f.mode == Spi && f.state != QuadReadIdle && f.state != DualReadIdle
    requires f.count < WORD - 8 && f.count % 8 + |ds| < 8
    ensures Sound(f, ds)
    decreases |ds|
  {
    if |ds| > 0 {
      hide Edge;
      SpiBit(f, ds[0]);
      PartSound(Edge(f, ds[0]), ds[1..]);
    }
  }

  /** A byte on the one-bit bus stops the simulator exactly if its boundary does. */
  lemma SpiByteSound(f: Flash, ds: seq<nibble>, b: byte)
    requires f.Valid() && f.mode == Spi && f.state != QuadReadIdle && f.state != DualReadIdle
    requires f.count % 8 == 0 && f.count < WORD - 8 && Spells(Spi, ds, b)
    ensures Sound(f, ds) <==> f.count == 0 || !ByteFaults(ByteShifted(f, b))
  {
    hide Edge, Edges, Sound, BitsIn, ByteFaults;
    assert ds == ds[..7] + [ds[7]];
    SoundAppend(f, ds[..7], [ds[7]]);
    PartSound(f, ds[..7]);
    SpiShift(f, ds[..7]);
    SpiLast(f, Edges(f, ds[..7]), SpiValue(ds[..7]), ds[7], b);
    LastSound(Edges(f, ds[..7]), ds[7]);
  }

  lemma LastSound(f: Flash, d: nibble)
    requires f.Valid()
    ensures Sound(f, [d]) <==> !EdgeFaults(f, d)
  {
    hide Edge, EdgeFaults;
  }

  lemma AddressByteSound(f: Flash, ds: seq<nibble>, b: byte)
    requires f.Valid() && f.mode == Spi && f.state == SectorErase && f.ireg < 0x100_0000
    requires f.count % 8 == 0 && 8 <= f.count <= 24 && Spells(Spi, ds, b)
    ensures Sound(f, ds) <==> f.count < 24 || SectorAddress(f.ireg * 256 + b) < 0x40_0000
  {
    hide Sound, Spells, SectorAddress;
    SpiByteSound(f, ds, b);
  }

  /** The simulator stops on the address of a sector erase exactly from 4 MB on. */
  lemma EraseSound(f: Flash, ds: seq<nibble>, a: address)
    requires Ready(f) && f.sreg.Writable() && SendsErase(ds, a)
    ensures Sound(f, ds) <==> a < 0x40_0000
  {
    hide Sound, Spells, Edges, TopByte, MiddleByte, LowByte;
    var d0, d1, d2, d3 := ds[..8], ds[8..16], ds[16..24], ds[24..];
    assert ds == d0 + (d1 + (d2 + d3)) && ds[8..][..8] == d1 && ds[8..][8..16] == d2 && ds[8..][16..] == d3;
    CommandEdges(f, d0, 0xd8);
    EraseAccepted(Load(ByteShifted(f, 0xd8), 0xa5));
    SpiByteSound(f, d0, 0xd8);
    SoundAppend(f, d0, d1 + (d2 + d3));
    AddressSound(Edges(f, d0), d1, d2, d3, a);
  }

  lemma AddressSound(f: Flash, d1: seq<nibble>, d2: seq<nibble>, d3: seq<nibble>, a: address)
    requires f.Valid() && f.mode == Spi && f.count == 8 && f.ireg == 0xd8 && f.state == SectorErase
    requires Spells(Spi, d1, TopByte(a)) && Spells(Spi, d2, MiddleByte(a)) && Spells(Spi, d3, LowByte(a))
    ensures Sound(f, d1 + (d2 + d3)) <==> a < 0x40_0000
  {
    hide Sound, Spells, Edges, SectorAddress;
    AddressByte(f, d1, TopByte(a));
    AddressByteSound(f, d1, TopByte(a));
    SoundAppend(f, d1, d2 + d3);
    var f1 := Edges(f, d1);
    AddressByte(f1, d2, MiddleByte(a));
    AddressByteSound(f1, d2, MiddleByte(a));
    SoundAppend(f1, d2, d3);
    AddressByteSound(Edges(f1, d2), d3, LowByte(a));
    AddressValue(0xd8, a);
    SectorOf(a);
  }

  lemma SectorOf(a: address)
    ensures SectorAddress(0xd800_0000 + a) == a - a % 0x4000
  {
  }

  // ---- whole transactions ----------------------------------------------------------------------

  /** No call of the run stops the simulator or leaves its memory. */
  predicate NoFault(s: Sim, ins: seq<Pins>)
    requires s.flash.Valid()
    decreases |ins|
  {
    |ins| == 0 || (!StepFaults(s, ins[0]) && NoFault(Step(s, ins[0]), ins[1..]))
  }

  function Calls(t: Txn): seq<Pins> { t.low + t.high }

  lemma {:induction false} NoFaultAppend(s: Sim, a: seq<Pins>, b: seq<Pins>)
    requires s.flash.Valid()
    ensures Run(s, a + b) == Run(Run(s, a), b)
    ensures NoFault(s, a + b) <==> NoFault(s, a) && NoFault(Run(s, a), b)
    decreases |a|
  {
    if |a| == 0 {
      assert a + b == b;
    } else {
      hide Step, StepFaults;
      assert (a + b)[0] == a[0] && (a + b)[1..] == a[1..] + b;
      NoFaultAppend(Step(s, a[0]), a[1..], b);
    }
  }

  lemma {:induction false} SelectedSound(s: Sim, w: seq<Pins>)
    requires Calm(s.flash) && Selected(w) && s.flash.count + 4 * |w| < WORD
    ensures NoFault(s, w) <==> Sound(s.flash, Falls(s.lastSck, w))
    decreases |w|
  {
    hide Edge, EdgeFaults;
    if |w| > 0 {
      var p, ds := w[0], Falls(w[0].sck, w[1..]);
      if Falling(s, p) {
        CalmEdge(s.flash, p.dat);
        SelectedSound(Step(s, p), w[1..]);
        assert Falls(s.lastSck, w) == [p.dat] + ds && ([p.dat] + ds)[1..] == ds;
      } else {
        SelectedSound(Step(s, p), w[1..]);
        assert Falls(s.lastSck, w) == ds;
      }
    }
  }

  lemma RaisedIsSound(f: Flash)
    requires f.Valid()
    ensures !Writing(Deselect(f).state)
    ensures !Writing(f.state) ==> !DeselectFaults(f)
    ensures Tick(f).state == f.state
  {
    hide ProgramPage, EraseRange;
  }

  lemma {:induction false} HighSound(s: Sim, w: seq<Pins>)
    requires s.flash.Valid() && !Writing(s.flash.state) && Deselected(w)
    ensures NoFault(s, w)
    decreases |w|
  {
    if |w| > 0 {
      hide Deselect, DeselectFaults, Writing;
      RaisedIsSound(s.flash);
      RaisedIsSound(Tick(s.flash));
      HighSound(Step(s, w[0]), w[1..]);
    }
  }

  /** A transaction is sound exactly if its falling edges are and the write it ends with, if
      any, lies inside the memory. */
  lemma TxnSound(s: Sim, t: Txn)
    requires (Resting(s) || ReadingOn(s)) && Timed(t, 1) && Edges(s.flash, Data(t)).writeCount == 0
    ensures NoFault(s, Calls(t)) <==> Sound(s.flash, Data(t)) && !DeselectFaults(Edges(s.flash, Data(t)))
    ensures Run(s, Calls(t)) == RunTxn(s, t)
  {
    hide Edges, Sound, Deselect, DeselectFaults, StepFaults;
    NoFaultAppend(s, t.low, t.high);
    LowPart(s, t);
    SelectedSound(s, t.low);
    var r := Run(s, t.low);
    FirstHigh(r, t.high[0]);
    HighSound(Step(r, t.high[0]), t.high[1..]);
  }

  lemma FirstHigh(s: Sim, p: Pins)
    requires s.flash.Valid() && s.flash.writeCount == 0 && p.csn
    ensures StepFaults(s, p) <==> DeselectFaults(s.flash)
    ensures !Writing(Step(s, p).flash.state)
  {
    hide Deselect, DeselectFaults, Writing;
    RaisedIsSound(s.flash);
  }

  lemma WriteEnableSound(s: Sim, t: Txn)
    requires Resting(s) && Timed(t, 1) && Spells(Spi, Data(t), 0x06)
    ensures NoFault(s, Calls(t)) && Run(s, Calls(t)) == RunTxn(s, t)
  {
    hide Edges, Spells, Sound, NoFault;
    CommandEdges(s.flash, Data(t), 0x06);
    SpiByteSound(s.flash, Data(t), 0x06);
    EnabledRests(Load(ByteShifted(s.flash, 0x06), 0xa5));
    assert Edges(s.flash, Data(t)).state == Idle;
    TxnSound(s, t);
  }

  /** An erase is sound exactly below 4 MB. */
  lemma EraseTxnSound(s: Sim, t: Txn, a: address)
    requires Resting(s) && s.flash.sreg.wel && Timed(t, T_SE + 1) && SendsErase(Data(t), a)
    ensures NoFault(s, Calls(t)) <==> a < 0x40_0000
    ensures Run(s, Calls(t)) == RunTxn(s, t)
  {
    hide Edges, SendsErase, Sound, NoFault;
    EraseEdges(s.flash, Data(t), a);
    EraseSound(s.flash, Data(t), a);
    PageInSector(a);
    TxnSound(s, t);
  }

  /** Nothing that is sent after an accepted page program can stop the simulator. */
  lemma {:induction false} ProgrammingSound(f: Flash, ds: seq<nibble>)
    requires f.Valid() && Programming(f.state) && 8 <= f.count && f.count + 4 * |ds| < WORD - 4
    ensures Sound(f, ds)
    decreases |ds|
  {
    if |ds| > 0 {
      hide Edge, EdgeFaults;
      ProgrammingEdge(f, ds[0]);
      ProgrammingSound(Edge(f, ds[0]), ds[1..]);
    }
  }

  lemma ProgrammingEdge(f: Flash, d: nibble)
    requires f.Valid() && Programming(f.state) && 8 <= f.count < WORD - 8
    ensures !EdgeFaults(f, d)
    ensures var r := Edge(f, d); Programming(r.state) && f.count < r.count <= f.count + 4
  {
    hide Decode, ByteDone, ShiftIn;
    ShiftFacts(f, d);
    ByteKeepsRead(Load(ShiftIn(f, d), 0));
  }

  lemma ProgramTxnSound(s: Sim, t: Txn, quad: bool, a: address, bytes: seq<byte>)
    requires Resting(s) && s.flash.sreg.wel && Timed(t, T_PP + 1) && SendsProgram(Data(t), quad, a, bytes)
    requires 8 * |bytes| < WORD - 64
    ensures NoFault(s, Calls(t)) && Run(s, Calls(t)) == RunTxn(s, t)
  {
    hide Edges, Spells, SendsAddress, Sends, Fill, Sound, NoFault;
    var f, ds, op := s.flash, Data(t), if quad then 0x32 else 0x02;
    FallsAtMost(true, t.low);
    assert ds == ds[..8] + ds[8..];
    SoundAppend(f, ds[..8], ds[8..]);
    SpiByteSound(f, ds[..8], op);
    ProgramCommand(f, ds[..8], op);
    ProgrammingSound(Edges(f, ds[..8]), ds[8..]);
    ProgramEdges(f, ds, quad, a, bytes);
    PageInSector(a);
    TxnSound(s, t);
  }

  /** The edges of a quad read before its first fetch. */
  ghost predicate Heading(f: Flash, from: nat) {
    && f.Valid() && f.mode == Quad && !f.sreg.deepSleep && f.count >= from && f.count % 4 == 0
    && ((f.state == QuadReadCmd && from == 8)
        || (from == 0 && f.state == if f.count < 24 then QuadReadIdle else QuadRead))
  }

  lemma {:induction false} HeadingSound(f: Flash, ds: seq<nibble>, from: nat)
    requires Heading(f, from) && f.count + 4 * |ds| <= from + 44
    ensures Sound(f, ds)
    decreases |ds|
  {
    if |ds| > 0 {
      hide Edge, EdgeFaults, Heading;
      HeadingEdge(f, ds[0], from);
      HeadingSound(Edge(f, ds[0]), ds[1..], from);
    }
  }

  lemma HeadingEdge(f: Flash, d: nibble, from: nat)
    requires Heading(f, from) && f.count <= from + 40
    ensures f.Valid() && !EdgeFaults(f, d)
    ensures var r := Edge(f, d); Heading(r, from) && r.count == f.count + 4
  {
    hide Decode, DataIn, ShiftIn;
    ShiftFacts(f, d);
  }

  lemma AddressingHeads(f: Flash, from: nat)
    requires Addressing(f, from) && !f.sreg.deepSleep
    ensures Heading(f, from)
  {
  }

  lemma ReadBodySound(f: Flash, ds: seq<nibble>, a: address, m: byte, n: nat, from: nat)
    requires Addressing(f, from) && f.count == from <= 8 && f.ireg < 256 && f.writeCount == 0 && !f.sreg.deepSleep
    requires |ds| == 12 + 2 * n && SendsAddress(ds[..6], Quad, a) && Spells(Quad, ds[6..8], m) && a + n <= MEM_BYTES
    ensures f.Valid() && (Sound(f, ds) <==> a + n < MEM_BYTES)
  {
    hide Edges, Sound, Spells, SendsAddress, Reading, Addressing, Heading;
    AddressingValid(f, from);
    var lead, rest := ds[..10], ds[10..];
    assert ds == lead + rest && lead[..6] == ds[..6] && lead[6..8] == ds[6..8];
    SoundAppend(f, lead, rest);
    AddressingHeads(f, from);
    HeadingSound(f, lead, from);
    ReadLead(f, lead, a, m, from);
    ReadDataSound(Edges(f, lead), rest, n + 1, from);
  }

  lemma ReadSound(f: Flash, ds: seq<nibble>, cold: bool, a: address, m: byte, n: nat)
    requires if cold then Ready(f) else Continuing(f)
    requires SendsRead(ds, cold, a, m, n) && a + n <= MEM_BYTES
    ensures Sound(f, ds) <==> a + n < MEM_BYTES
  {
    hide Edges, Sound, Spells, SendsAddress, Addressing;
    var k := Lead(cold);
    SplitRead(ds, k);
    SoundAppend(f, ds[..k], ds[k..]);
    if cold {
      ReadCommand(f, ds[..k]);
      SpiByteSound(f, ds[..k], 0xeb);
    } else {
      NothingSent(f, ds[..k]);
      ContinuingAddresses(f);
    }
    ReadBodySound(Edges(f, ds[..k]), ds[k..], a, m, n, k);
  }

  lemma NothingSent(f: Flash, ds: seq<nibble>)
    requires f.Valid() && |ds| == 0
    ensures Edges(f, ds) == f && Sound(f, ds)
  {
  }

  /** A read, cold or continued, is sound exactly if it ends before the last byte of memory. */
  lemma ReadTxnSound(s: Sim, t: Txn, cold: bool, a: address, m: byte, n: nat)
    requires (if cold then Resting(s) else ReadingOn(s)) && Timed(t, 1)
    requires SendsRead(Data(t), cold, a, m, n) && a + n <= MEM_BYTES
    ensures NoFault(s, Calls(t)) <==> a + n < MEM_BYTES
    ensures Run(s, Calls(t)) == RunTxn(s, t)
  {
    hide Edges, Sound, NoFault, SendsRead, Reading, Resting, ReadingOn, RunTxn, Timed, Deselect, DeselectFaults;
    RestingReads(s, cold);
    ReadEdges(s.flash, Data(t), cold, a, m, n);
    ReadSound(s.flash, Data(t), cold, a, m, n);
    ReadingIsSound(Edges(s.flash, Data(t)), Lead(cold));
    TxnSound(s, t);
  }

  lemma ReadingIsSound(g: Flash, from: nat)
    requires Reading(g, from)
    ensures g.writeCount == 0 && !DeselectFaults(g)
  {
  }

  lemma RestingValid(s: Sim)
    requires Resting(s)
    ensures s.flash.Valid()
  {
  }

  /** The session of ProgramReadBack: no call stops the simulator exactly if the sector lies
      below 4 MB and the read ends before the last byte of memory. */
  lemma SessionSound(s0: Sim, s1: Sim, s2: Sim, s3: Sim, s4: Sim,
                     enable1: Txn, erase: Txn, enable2: Txn, program: Txn, read: Txn,
                     quad: bool, a: address, bytes: seq<byte>, from: address, m: byte, n: nat)
    requires Resting(s0) && 8 * |bytes| < WORD - 64 && from + n <= MEM_BYTES
    requires Timed(enable1, 1) && Spells(Spi, Data(enable1), 0x06) && s1 == RunTxn(s0, enable1)
    requires Timed(erase, T_SE + 1) && SendsErase(Data(erase), a) && s2 == RunTxn(s1, erase)
    requires Timed(enable2, 1) && Spells(Spi, Data(enable2), 0x06) && s3 == RunTxn(s2, enable2)
    requires Timed(program, T_PP + 1) && SendsProgram(Data(program), quad, a, bytes) && s4 == RunTxn(s3, program)
    requires Timed(read, 1) && SendsRead(Data(read), true, from, m, n)
    ensures var calls := Calls(enable1) + (Calls(erase) + (Calls(enable2) + Calls(program)));
            && Run(s0, calls) == s4 && Run(s4, Calls(read)) == RunTxn(s4, read)
            && (NoFault(s0, calls) <==> a < 0x40_0000)
            && (NoFault(s0, calls + Calls(read)) <==> a < 0x40_0000 && from + n < MEM_BYTES)
  {
    hide RunTxn, Resting, Spells, SendsErase, SendsProgram, SendsRead, Timed, NoFault, Run, Calls;
    WriteEnable(s0, enable1);
    WriteEnableSound(s0, enable1);
    Erase(s1, erase, a);
    EraseTxnSound(s1, erase, a);
    WriteEnable(s2, enable2);
    WriteEnableSound(s2, enable2);
    Program(s3, program, quad, a, bytes);
    ProgramTxnSound(s3, program, quad, a, bytes);
    ReadTxnSound(s4, read, true, from, m, n);
    RestingValid(s0);
    NoFaultAppend(s2, Calls(enable2), Calls(program));
    NoFaultAppend(s1, Calls(erase), Calls(enable2) + Calls(program));
    NoFaultAppend(s0, Calls(enable1), Calls(erase) + (Calls(enable2) + Calls(program)));
    NoFaultAppend(s0, Calls(enable1) + (Calls(erase) + (Calls(enable2) + Calls(program))), Calls(read));
  }

  // ---- on the object ---------------------------------------------------------------------------

  /** The simulator driven call by call; the host samples the pins at the falling edges. */
  method Drive(chip: FlashSim.Simulator, ins: seq<Pins>) returns (sampled: seq<nibble>)
    requires chip.Valid() && NoFault(Sim(chip.Now(), chip.lastSck), ins)
    modifies chip, chip.mem, chip.pmem
    ensures chip.Valid() && Sim(chip.Now(), chip.lastSck) == Run(old(Sim(chip.Now(), chip.lastSck)), ins)
    ensures sampled == FallOutputs(old(Sim(chip.Now(), chip.lastSck)), ins)
    decreases |ins|
  {
    hide Step, StepFaults, StepOutput;
    sampled := [];
    if |ins| > 0 {
      var falling := !ins[0].csn && chip.lastSck && !ins[0].sck;
      var pins := chip.Call(ins[0].csn, ins[0].sck, ins[0].dat);
      var rest := Drive(chip, ins[1..]);
      sampled := (if falling then [pins] else []) + rest;
    }
  }

  /** With chip select high nothing is sampled. */
  lemma {:induction false} CallOutputs(s: Sim, low: seq<Pins>, high: seq<Pins>)
    requires s.flash.Valid() && Deselected(high)
    ensures FallOutputs(s, low + high) == FallOutputs(s, low)
    decreases |low| + |high|
  {
    hide Step, StepOutput;
    if |low| > 0 {
      assert (low + high)[0] == low[0] && (low + high)[1..] == low[1..] + high;
      CallOutputs(Step(s, low[0]), low[1..], high);
    } else {
      assert low + high == high;
      if |high| > 0 {
        CallOutputs(Step(s, high[0]), [], high[1..]);
        assert [] + high[1..] == high[1..];
      }
    }
  }

  /** What the host samples in a read, once the leading edges are dropped. */
  lemma SampledRead(s: Sim, t: Txn, a: address, m: byte, n: nat)
    requires Resting(s) && Timed(t, 1) && SendsRead(Data(t), true, a, m, n)
    ensures s.flash.Valid()
    ensures var sampled := FallOutputs(s, Calls(t)); |sampled| >= 20 && sampled[20..] == DataReturned(s, t, true)
  {
    hide EdgeOutputs, FallOutputs, Spells, SendsAddress, Resting;
    RestingValid(s);
    LowPart(s, t);
    CallOutputs(s, t.low, t.high);
  }

  /** Erase, program and read on the object itself: the memory array holds the bytes sent,
      and those are what the host samples. */
  method ProgramAndReadBack(chip: FlashSim.Simulator, enable1: Txn, erase: Txn, enable2: Txn, program: Txn, read: Txn,
                            ghost quad: bool, ghost a: address, ghost bytes: seq<byte>, ghost from: address,
                            ghost m: byte, ghost n: nat)
    returns (sampled: seq<nibble>)
    requires chip.Valid() && Resting(Sim(chip.Now(), chip.lastSck)) && 8 * |bytes| < WORD - 64
    requires a < 0x40_0000 && from + n < MEM_BYTES
    requires Timed(enable1, 1) && Spells(Spi, Data(enable1), 0x06)
    requires Timed(erase, T_SE + 1) && SendsErase(Data(erase), a)
    requires Timed(enable2, 1) && Spells(Spi, Data(enable2), 0x06)
    requires Timed(program, T_PP + 1) && SendsProgram(Data(program), quad, a, bytes)
    requires Timed(read, 1) && SendsRead(Data(read), true, from, m, n)
    modifies chip, chip.mem, chip.pmem
    ensures chip.Valid() && ErasedAndProgrammed(chip.mem[..], old(chip.mem[..]), a, bytes)
    ensures |sampled| >= 20 && sampled[20..] == Nibbles(chip.mem[from..from + n])
  {
    hide RunTxn, Resting, Spells, SendsErase, SendsProgram, SendsRead, Timed, NoFault, Run, Calls, Nibbles;
    hide ErasedAndProgrammed, FallOutputs;
    ghost var s0 := Sim(chip.Now(), chip.lastSck);
    ghost var s1 := RunTxn(s0, enable1);
    ghost var s2 := RunTxn(s1, erase);
    ghost var s3 := RunTxn(s2, enable2);
    ghost var s4 := RunTxn(s3, program);
    ProgramReadBack(s0, s1, s2, s3, s4, enable1, erase, enable2, program, read, quad, a, bytes, from, m, n);
    SessionSound(s0, s1, s2, s3, s4, enable1, erase, enable2, program, read, quad, a, bytes, from, m, n);
    var calls := Calls(enable1) + (Calls(erase) + (Calls(enable2) + Calls(program)));
    RestingValid(s0);
    NoFaultAppend(s0, calls, Calls(read));
    SampledRead(s4, read, from, m, n);
    var before := Drive(chip, calls);
    sampled := Drive(chip, Calls(read));
  }
}
