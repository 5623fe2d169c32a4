/** Sequences of transactions between the host and the flash. */
module FlashSession {
  import opened FixedPoint
  import opened FlashSpec
  import opened FlashInvariant
  import opened FlashWire
  import opened FlashTransactions
  import opened FlashRead
  import Ring

  /** The calls with chip select low, then the calls with chip select high. */
  datatype Txn = Txn(low: seq<Pins>, high: seq<Pins>)

  function RunTxn(s: Sim, t: Txn): (r: Sim)
    requires s.flash.Valid()
    ensures r.flash.Valid()
  {
    Run(Run(s, t.low), t.high)
  }

  /** The data lines at the falling clock edges of a transaction. */
  function Data(t: Txn): seq<nibble> { Falls(true, t.low) }

  /** Chip select stays high for at least this many calls. */
  predicate Timed(t: Txn, calls: nat) {
    Selected(t.low) && Deselected(t.high) && 1 <= calls <= |t.high| && 4 * |t.low| < WORD - 16
  }

  /** Between transactions, with the next byte a command. */
  ghost predicate Resting(s: Sim) {
    s.lastSck && Inv(s.flash) && Ready(s.flash) && s.flash.state != Release && s.flash.state != ClearStatus
  }

  /** Between transactions, in the continuous quad read mode. */
  ghost predicate ReadingOn(s: Sim) {
    s.lastSck && Inv(s.flash) && Continuing(s.flash)
  }

  /** A new simulator is ready after its first call with chip select high. */
  lemma PowerUp(s: Sim, p: Pins)
    requires Initial(s) && p.csn
    ensures Resting(Step(s, p)) && Step(s, p).flash.mem == s.flash.mem
  {
  }

  lemma LowPart(s: Sim, t: Txn)
    requires (Resting(s) || ReadingOn(s)) && Timed(t, 1)
    ensures Run(s, t.low).flash == Edges(s.flash, Data(t))
    ensures FallOutputs(s, t.low) == EdgeOutputs(s.flash, Data(t))
  {
    SelectedRun(s, t.low);
  }

  /** More calls with chip select high change nothing but the output register. */
  lemma {:induction false} HighPart(s: Sim, w: seq<Pins>)
    requires (Resting(s) || ReadingOn(s)) && Deselected(w)
    ensures var r := Run(s, w);
            r.lastSck && Like(r.flash, s.flash) && (Resting(s) ==> Resting(r)) && (ReadingOn(s) ==> ReadingOn(r))
    decreases |w|
  {
    if |w| > 0 {
      hide Step, Resting, ReadingOn, Like;
      HighCall(s, w[0]);
      HighPart(Step(s, w[0]), w[1..]);
      LikeLike(Run(s, w).flash, Step(s, w[0]).flash, s.flash);
    } else {
      LastHigh(s);
    }
  }

  lemma HighCall(s: Sim, p: Pins)
    requires (Resting(s) || ReadingOn(s)) && p.csn
    ensures var r := Step(s, p);
            r.lastSck && Like(r.flash, s.flash) && (Resting(s) ==> Resting(r)) && (ReadingOn(s) ==> ReadingOn(r))
  {
  }

  lemma LastHigh(s: Sim)
    requires Resting(s) || ReadingOn(s)
    ensures s.lastSck && Like(s.flash, s.flash)
  {
  }

  lemma LikeLike(f: Flash, g: Flash, h: Flash)
    requires Like(f, g) && Like(g, h)
    ensures Like(f, h)
  {
  }

  /** The first call with chip select high ends the transaction. */
  lemma EndTxn(s: Sim, t: Txn)
    requires (Resting(s) || ReadingOn(s)) && Timed(t, 1) && Edges(s.flash, Data(t)).writeCount == 0
    ensures RunTxn(s, t) == Run(Sim(Deselect(Edges(s.flash, Data(t))), true), t.high[1..])
  {
    hide Deselect, Edges;
    LowPart(s, t);
  }

  // ---- write enable, erase, program --------------------------------------------------------

  lemma WriteEnable(s: Sim, t: Txn)
    requires Resting(s) && Timed(t, 1) && Spells(Spi, Data(t), 0x06)
    ensures var r := RunTxn(s, t); Resting(r) && r.flash.sreg.wel && r.flash.mem == s.flash.mem
  {
    hide Edges, Spells;
    var g := Edges(s.flash, Data(t));
    CommandEdges(s.flash, Data(t), 0x06);
    EnabledRests(Load(ByteShifted(s.flash, 0x06), 0xa5));
    EndTxn(s, t);
    HighPart(Sim(Deselect(g), true), t.high[1..]);
  }

  lemma EnabledRests(f: Flash)
    requires f.Valid() && f.mode == Spi && f.writeCount == 0 && !f.sreg.wip && !f.sreg.deepSleep
    ensures var g := Decode(f, 0x06);
            g.writeCount == 0 && g.mem == f.mem && Deselect(g).mem == f.mem && Deselect(g).sreg.wel
            && Resting(Sim(Deselect(g), true))
  {
  }

  /** The state that a finished write command leaves while its timer runs. */
  ghost predicate Busy(s: Sim) {
    var f := s.flash;
    && s.lastSck && f.Valid() && f.state == Idle && f.mode == Spi && f.count == 0 && f.ireg == 0
    && f.writeCount > 0 && f.sreg.wip && !f.sreg.wel && !f.sreg.deepSleep
  }

  /** Waiting with chip select high until the timer has run out. */
  lemma {:induction false} WaitOut(s: Sim, w: seq<Pins>)
    requires Busy(s) && Deselected(w) && |w| >= s.flash.writeCount
    ensures var r := Run(s, w);
            Resting(r) && !r.flash.sreg.wel && r.flash.mem == s.flash.mem && r.flash.sreg == s.flash.sreg.Expired()
    decreases |w|
  {
    BusyCall(s, w[0]);
    if s.flash.writeCount == 1 {
      HighPart(Step(s, w[0]), w[1..]);
    } else {
      WaitOut(Step(s, w[0]), w[1..]);
    }
  }

  lemma BusyCall(s: Sim, p: Pins)
    requires Busy(s) && p.csn
    ensures var r := Step(s, p);
            && r.flash.writeCount == s.flash.writeCount - 1 && r.flash.mem == s.flash.mem && !r.flash.sreg.wel
            && (if s.flash.writeCount > 1 then Busy(r) else Resting(r))
            && r.flash.sreg == if s.flash.writeCount > 1 then s.flash.sreg else s.flash.sreg.Expired()
  {
  }

  /** A write command that has been accepted takes effect when chip select rises; after
      its busy period the flash is ready again, with WEL clear. */
  lemma CompleteWrite(s: Sim, t: Txn)
    requires Resting(s)
    requires var g := Edges(s.flash, Data(t));
             && Writing(g.state) && g.writeCount == 0 && !g.sreg.deepSleep && (g.mode == Spi || Programming(g.state))
             && Timed(t, WriteTime(g.state) + 1)
    ensures var r := RunTxn(s, t);
            && Resting(r) && !r.flash.sreg.wel && r.flash.mem == Written(Edges(s.flash, Data(t)))
            && r.flash.sreg == Edges(s.flash, Data(t)).sreg.(wip := false, wel := false)
  {
    hide Edges;
    var g := Edges(s.flash, Data(t));
    EndTxn(s, t);
    WrittenBusy(g);
    WaitOut(Sim(Deselect(g), true), t.high[1..]);
  }

  lemma WrittenBusy(g: Flash)
    requires g.Valid() && Writing(g.state) && !g.sreg.deepSleep && (g.mode == Spi || Programming(g.state))
    ensures Deselect(g).sreg == g.sreg.Started()
    ensures Busy(Sim(Deselect(g), true)) && Deselect(g).mem == Written(g)
            && Deselect(g).writeCount == WriteTime(g.state)
  {
    hide ProgramPage, EraseRange;
  }

  /** The edges of a sector erase. */
  predicate SendsErase(ds: seq<nibble>, a: address) {
    |ds| == 32 && Spells(Spi, ds[..8], 0xd8) && SendsAddress(ds[8..], Spi, a)
  }

  /** A sector erase sets the 64 KB that hold the address and nothing else.  (From 4 MB on
      the simulator stops at an assertion: EraseSound.) */
  lemma Erase(s: Sim, t: Txn, a: address)
    requires Resting(s) && s.flash.sreg.wel && Timed(t, T_SE + 1) && SendsErase(Data(t), a)
    ensures var r := RunTxn(s, t);
            && Resting(r) && !r.flash.sreg.wel && r.flash.mem == EraseRange(s.flash.mem, SectorStart(a), SECTOR)
            && SectorErased(r.flash.mem, s.flash.mem, a)
  {
    hide Edges, SendsErase, SectorErased;
    EraseRangeCells(s.flash.mem, a);
    EraseEdges(s.flash, Data(t), a);
    CompleteWrite(s, t);
  }

  lemma EraseEdges(f: Flash, ds: seq<nibble>, a: address)
    requires Ready(f) && f.sreg.wel && SendsErase(ds, a)
    ensures var g := Edges(f, ds);
            && g.state == SectorErase && g.mode == Spi && g.writeCount == 0 && !g.sreg.deepSleep
            && SectorStart(g.addr) == SectorStart(a)
  {
    hide Edges, SendsAddress, Spells;
    assert ds == ds[..8] + ds[8..];
    EdgesAppend(f, ds[..8], ds[8..]);
    CommandEdges(f, ds[..8], 0xd8);
    EraseAccepted(Load(ByteShifted(f, 0xd8), 0xa5));
    var f1 := Edges(f, ds[..8]);
    AddressEdges(f1, ds[8..], 0xd8, a);
    EraseAddressed(f1.(count := 32, ireg := 0xd800_0000 + a), a);
  }

  lemma EraseAccepted(f: Flash)
    requires f.sreg.Writable()
    ensures Decode(f, 0xd8) == f.(state := SectorErase)
  {
  }

  lemma EraseAddressed(f: Flash, a: address)
    requires f.Valid() && f.state == SectorErase && f.count == 32 && f.ireg == 0xd800_0000 + a
    ensures DataIn(f) == f.(addr := DataIn(f).addr) && SectorStart(DataIn(f).addr) == SectorStart(a)
  {
  }

  /** A page program: every cell of the page becomes its old value AND the last byte
      sent to it; all other memory is unchanged. */
  lemma Program(s: Sim, t: Txn, quad: bool, a: address, bytes: seq<byte>)
    requires Resting(s) && s.flash.sreg.wel && Timed(t, T_PP + 1) && SendsProgram(Data(t), quad, a, bytes)
    requires 8 * |bytes| < WORD - 64
    ensures var r := RunTxn(s, t);
            && Resting(r) && !r.flash.sreg.wel
            && r.flash.mem == ProgramPage(s.flash.mem, Page(a), Fill(Blank(), a, bytes))
            && Programmed(r.flash.mem, s.flash.mem, a, bytes)
  {
    hide Edges, SendsProgram, Fill, Programmed;
    ProgrammedCells(s.flash.mem, a, bytes);
    ProgramEdges(s.flash, Data(t), quad, a, bytes);
    CompleteWrite(s, t);
  }

  // ---- quad reads ---------------------------------------------------------------------------

  /** The bits before the address: the command byte, unless the read continues one. */
  function Lead(cold: bool): nat { if cold then 8 else 0 }

  /** The edges of a quad read of n bytes: command, address, mode byte, four dummy clocks,
      and two clocks per byte on which the host may drive anything. */
  predicate SendsRead(ds: seq<nibble>, cold: bool, a: address, m: byte, n: nat) {
    var k := Lead(cold);
    && |ds| == k + 12 + 2 * n
    && (cold ==> Spells(Spi, ds[..8], 0xeb))
    && SendsAddress(ds[k..k + 6], Quad, a) && Spells(Quad, ds[k + 6..k + 8], m)
  }

  lemma ReadCommand(f: Flash, ds: seq<nibble>)
    requires Ready(f) && Spells(Spi, ds, 0xeb)
    ensures var r := Edges(f, ds);
            Addressing(r, 8) && r.count == 8 && r.ireg < 256 && r.writeCount == 0 && r.sreg == f.sreg
  {
    hide Edges, Spells;
    CommandEdges(f, ds, 0xeb);
  }

  /** After the address the host sees the memory on the four data lines. */
  lemma ReadEdges(f: Flash, ds: seq<nibble>, cold: bool, a: address, m: byte, n: nat)
    requires if cold then Ready(f) else Continuing(f)
    requires SendsRead(ds, cold, a, m, n) && a + n <= MEM_BYTES
    ensures |ds| >= Lead(cold) + 12 && EdgeOutputs(f, ds)[Lead(cold) + 12..] == Nibbles(f.mem[a..a + n])
    ensures var r := Edges(f, ds); Reading(r, Lead(cold)) && r.modeByte == m && r.sreg == f.sreg
  {
    hide Edges, EdgeOutputs, Spells, SendsAddress, Reading, Addressing;
    var k := Lead(cold);
    SplitRead(ds, k);
    EdgesAppend(f, ds[..k], ds[k..]);
    if cold {
      ReadCommand(f, ds[..k]);
    } else {
      NoEdges(f, ds[..k]);
      ContinuingAddresses(f);
    }
    ReadBody(Edges(f, ds[..k]), ds[k..], a, m, n, k);
  }

  lemma ReadBody(f: Flash, ds: seq<nibble>, a: address, m: byte, n: nat, from: nat)
    requires Addressing(f, from) && f.count == from <= 8 && f.ireg < 256 && f.writeCount == 0 && !f.sreg.deepSleep
    requires |ds| == 12 + 2 * n && SendsAddress(ds[..6], Quad, a) && Spells(Quad, ds[6..8], m) && a + n <= MEM_BYTES
    ensures EdgeOutputs(f, ds)[12..] == Nibbles(f.mem[a..a + n])
    ensures var r := Edges(f, ds); Reading(r, from) && r.modeByte == m && r.sreg == f.sreg
  {
    hide Edges, EdgeOutputs, Spells, SendsAddress, Reading, Addressing, Nibbles;
    AddressingValid(f, from);
    var head, data := ds[..12], ds[12..];
    assert ds == head + data && head[..6] == ds[..6] && head[6..8] == ds[6..8];
    EdgesAppend(f, head, data);
    ReadHead(f, head, a, m, from);
    ReadData(Edges(f, head), data, n, from);
  }

  lemma SplitRead(ds: seq<nibble>, k: nat)
    requires |ds| >= k + 12
    ensures ds == ds[..k] + ds[k..] && ds[k..][..6] == ds[k..k + 6] && ds[k..][6..8] == ds[k + 6..k + 8]
  {
  }

  lemma ContinuingAddresses(f: Flash)
    requires Continuing(f)
    ensures Addressing(f, 0)
  {
  }

  lemma ReadEnds(g: Flash, from: nat)
    requires Reading(g, from)
    ensures g.writeCount == 0
    ensures var s := Sim(Deselect(g), true);
            && s.flash.mem == g.mem
            && (if g.modeByte / 16 == 0xA then ReadingOn(s)
                else Resting(s) && (from == 8 ==> s.flash.state == QuadReadCmd))
  {
  }

  /** What the host samples at the falling edges after the dummy clocks. */
  function DataReturned(s: Sim, t: Txn, cold: bool): seq<nibble>
    requires s.flash.Valid()
  {
    var pins := FallOutputs(s, t.low);
    if |pins| < Lead(cold) + 12 then [] else pins[Lead(cold) + 12..]
  }

  /** Two nibbles for each of the n bytes from address a on, high half first. */
  predicate ReturnsBytes(nibbles: seq<nibble>, mem: seq<byte>, a: nat, n: nat) {
    && |nibbles| == 2 * n && a + n <= |mem|
    && forall i :: 0 <= i < n ==> TwoNibbles(nibbles[2 * i], nibbles[2 * i + 1]) == mem[a + i]
  }

  function TwoNibbles(high: int, low: int): int { high * 16 + low }

  lemma NibblesOfBytes(mem: seq<byte>, a: nat, n: nat)
    requires a + n <= |mem|
    ensures ReturnsBytes(Nibbles(mem[a..a + n]), mem, a, n)
  {
    forall i | 0 <= i < n
      ensures TwoNibbles(Nibbles(mem[a..a + n])[2 * i], Nibbles(mem[a..a + n])[2 * i + 1]) == mem[a + i]
    {
      NibblesAt(mem[a..a + n], i);
    }
  }

  lemma {:induction false} NibblesAt(bytes: seq<byte>, i: nat)
    requires i < |bytes|
    ensures Nibbles(bytes)[2 * i] == bytes[i] / 16 && Nibbles(bytes)[2 * i + 1] == bytes[i] % 16
    decreases i
  {
    if i > 0 {
      NibblesAt(bytes[1..], i - 1);
    }
  }

  /** A quad read returns memory, high nibble first, and a mode byte 0xA? keeps the flash
      in the continuous read mode. */
  lemma QuadRead(s: Sim, t: Txn, cold: bool, a: address, m: byte, n: nat)
    requires (if cold then Resting(s) else ReadingOn(s)) && Timed(t, 1)
    requires SendsRead(Data(t), cold, a, m, n) && a + n <= MEM_BYTES
    ensures DataReturned(s, t, cold) == Nibbles(s.flash.mem[a..a + n])
    ensures ReturnsBytes(DataReturned(s, t, cold), s.flash.mem, a, n)
    ensures var r := RunTxn(s, t);
            && r.flash.mem == s.flash.mem
            && (if m / 16 == 0xA then ReadingOn(r) else Resting(r) && (cold ==> r.flash.state == QuadReadCmd))
  {
    hide Edges, EdgeOutputs, Reading, SendsRead, Nibbles, Resting, ReadingOn, RunTxn, Timed, Deselect;
    hide ReturnsBytes;
    RestingReads(s, cold);
    NibblesOfBytes(s.flash.mem, a, n);
    ReadEdges(s.flash, Data(t), cold, a, m, n);
    ReturnedEdges(s, t, cold);
    ReadStops(s, t, Lead(cold));
  }

  lemma RestingReads(s: Sim, cold: bool)
    requires if cold then Resting(s) else ReadingOn(s)
    ensures if cold then Ready(s.flash) else Continuing(s.flash)
  {
  }

  lemma ReturnedEdges(s: Sim, t: Txn, cold: bool)
    requires (Resting(s) || ReadingOn(s)) && Timed(t, 1) && |Data(t)| >= Lead(cold) + 12
    ensures DataReturned(s, t, cold) == EdgeOutputs(s.flash, Data(t))[Lead(cold) + 12..]
  {
    LowPart(s, t);
  }

  lemma ReadStops(s: Sim, t: Txn, from: nat)
    requires (Resting(s) || ReadingOn(s)) && Timed(t, 1) && Reading(Edges(s.flash, Data(t)), from)
    ensures var r := RunTxn(s, t);
            && r.flash.mem == s.flash.mem
            && (if Edges(s.flash, Data(t)).modeByte / 16 == 0xA then ReadingOn(r)
                else Resting(r) && (from == 8 ==> r.flash.state == QuadReadCmd))
  {
    hide Edges, Deselect;
    var g := Edges(s.flash, Data(t));
    ReadEnds(g, from);
    EndTxn(s, t);
    HighPart(Sim(Deselect(g), true), t.high[1..]);
  }

  datatype Read = Read(txn: Txn, a: address, m: byte, n: nat)

  /** A chain of reads: all but the first (or, in continuous mode, all) without a command,
      and all but the last with a mode byte that asks to continue. */
  predicate Chained(cold: bool, chain: seq<Read>)
    decreases |chain|
  {
    |chain| == 0 ||
    (var r := chain[0];
     && Timed(r.txn, 1) && SendsRead(Data(r.txn), cold, r.a, r.m, r.n) && r.a + r.n <= MEM_BYTES
     && (|chain| > 1 ==> r.m / 16 == 0xA)
     && Chained(false, chain[1..]))
  }

  ghost predicate AllReturned(s: Sim, cold: bool, chain: seq<Read>, mem: seq<byte>)
    requires s.flash.Valid()
    decreases |chain|
  {
    |chain| == 0 ||
    (var r := chain[0];
     && r.a + r.n <= |mem| && DataReturned(s, r.txn, cold) == Nibbles(mem[r.a..r.a + r.n])
     && AllReturned(RunTxn(s, r.txn), false, chain[1..], mem))
  }

  /** Any number of chained continuous reads all return the same memory. */
  lemma {:induction false} ChainedReads(s: Sim, cold: bool, chain: seq<Read>)
    requires (if cold then Resting(s) else ReadingOn(s)) && Chained(cold, chain)
    ensures AllReturned(s, cold, chain, s.flash.mem)
    decreases |chain|
  {
    hide DataReturned, SendsRead, Nibbles, RunTxn, Resting, ReadingOn, Timed;
    RestingReads(s, cold);
    if |chain| > 0 {
      var r := chain[0];
      QuadRead(s, r.txn, cold, r.a, r.m, r.n);
      var next := RunTxn(s, r.txn);
      if |chain| > 1 {
        ChainedReads(next, false, chain[1..]);
      }
      assert AllReturned(next, false, chain[1..], s.flash.mem);
    }
  }

  // ---- what is read back ---------------------------------------------------------------------

  /** Address of the cell that byte number j of a program at address a is sent to: the page
      of a, and inside it the address wrapped at 256. */
  function CellAddress(a: address, j: nat): (i: nat)
    ensures i < MEM_BYTES
  {
    a / 256 * 256 + (a + j) % 256
  }

  /** No byte of the program is sent to address i. */
  ghost predicate Missed(a: address, bytes: seq<byte>, i: nat) {
    forall j :: 0 <= j < |bytes| ==> CellAddress(a, j) != i
  }

  /** Each bit of a cell is set afterwards exactly if it was set before and is set in the
      last byte sent there; cells that no byte was sent to are unchanged.  So no bit that is
      clear becomes set. */
  ghost predicate Programmed(mem': seq<byte>, mem: seq<byte>, a: address, bytes: seq<byte>)
    requires |mem'| == |mem| == MEM_BYTES
  {
    && (forall j :: 0 <= j < |bytes| <= j + 256 ==>
          BothSet(mem'[CellAddress(a, j)], mem[CellAddress(a, j)], bytes[j]))
    && (forall i :: 0 <= i < MEM_BYTES && Missed(a, bytes, i) ==> mem'[i] == mem[i])
    && (forall i, k: nat :: 0 <= i < MEM_BYTES && k < 8 && HasBit(mem'[i], k) ==> HasBit(mem[i], k))
  }

  lemma CellInPage(a: address, j: nat)
    ensures CellAddress(a, j) == Page(a) + Cell(a, j)
    ensures CellAddress(a, j) / 256 == a / 256 && CellAddress(a, j) % 256 == Cell(a, j)
    ensures CellAddress(a, 0) == a
  {
  }

  lemma MissedCell(mem: seq<byte>, a: address, bytes: seq<byte>, i: nat)
    requires |mem| == MEM_BYTES && i < MEM_BYTES && Missed(a, bytes, i)
    ensures ProgramPage(mem, Page(a), Fill(Blank(), a, bytes))[i] == mem[i]
  {
    hide Fill, Missed;
    if Page(a) <= i < Page(a) + 256 {
      var c := i - Page(a);
      forall j | 0 <= j < |bytes| ensures Cell(a, j) != c {
        CellInPage(a, j);
        assert CellAddress(a, j) != i by { MissedAt(a, bytes, i, j); }
      }
      FillKeeps(Blank(), a, bytes, c);
      AndOnesRight(mem[i]);
    }
  }

  lemma MissedAt(a: address, bytes: seq<byte>, i: nat, j: nat)
    requires Missed(a, bytes, i) && j < |bytes|
    ensures CellAddress(a, j) != i
  {
  }

  lemma ProgrammedCells(mem: seq<byte>, a: address, bytes: seq<byte>)
    requires |mem| == MEM_BYTES
    ensures Programmed(ProgramPage(mem, Page(a), Fill(Blank(), a, bytes)), mem, a, bytes)
  {
    hide Fill, ProgramPage, BothSet, HasBit, CellAddress, Missed;
    var page := Fill(Blank(), a, bytes);
    var mem' := ProgramPage(mem, Page(a), page);
    FillCells(Blank(), a, bytes);
    ProgramPageBits(mem, a, page);
    forall j | 0 <= j < |bytes| <= j + 256
      ensures BothSet(mem'[CellAddress(a, j)], mem[CellAddress(a, j)], bytes[j])
    {
      CellInPage(a, j);
    }
    forall i | 0 <= i < MEM_BYTES && Missed(a, bytes, i) ensures mem'[i] == mem[i] {
      MissedCell(mem, a, bytes, i);
    }
    forall i, k: nat | 0 <= i < MEM_BYTES && k < 8 && HasBit(mem'[i], k) ensures HasBit(mem[i], k) {
      NoneSet(mem'[i], mem[i], page[i % 256], k, i / 256 == a / 256);
    }
  }

  lemma NoneSet(r: byte, x: byte, y: byte, k: nat, both: bool)
    requires k < 8 && HasBit(r, k) && if both then BothSet(r, x, y) else r == x
    ensures HasBit(x, k)
  {
  }

  /** The same after an erase: the cells hold the last bytes sent to them, the rest of the
      64 KB 0xFF, and all other memory is unchanged. */
  ghost predicate ErasedAndProgrammed(mem': seq<byte>, mem: seq<byte>, a: address, bytes: seq<byte>)
    requires |mem'| == |mem| == MEM_BYTES
  {
    && (forall j :: 0 <= j < |bytes| <= j + 256 ==> mem'[CellAddress(a, j)] == bytes[j])
    && (forall i :: 0 <= i < MEM_BYTES && Missed(a, bytes, i) && i / 0x1_0000 == a / 0x1_0000 ==> mem'[i] == 0xff)
    && (forall i :: 0 <= i < MEM_BYTES && i / 0x1_0000 != a / 0x1_0000 ==> mem'[i] == mem[i])
  }

  lemma ErasedThenProgrammed(mem: seq<byte>, a: address, bytes: seq<byte>)
    requires |mem| == MEM_BYTES
    ensures var erased := EraseRange(mem, SectorStart(a), SECTOR);
            ErasedAndProgrammed(ProgramPage(erased, Page(a), Fill(Blank(), a, bytes)), mem, a, bytes)
  {
    hide Fill, EraseRange, Missed, ProgramPage, CellAddress, SectorErased, And;
    var erased := EraseRange(mem, SectorStart(a), SECTOR);
    var mem' := ProgramPage(erased, Page(a), Fill(Blank(), a, bytes));
    EraseRangeCells(mem, a);
    forall j | 0 <= j < |bytes| <= j + 256 ensures mem'[CellAddress(a, j)] == bytes[j] {
      ErasedCell(erased, mem, a, bytes, j);
    }
    forall i | 0 <= i < MEM_BYTES && Missed(a, bytes, i) && i / 0x1_0000 == a / 0x1_0000 ensures mem'[i] == 0xff {
      MissedCell(erased, a, bytes, i);
      ErasedAt(erased, mem, a, i);
    }
    forall i | 0 <= i < MEM_BYTES && i / 0x1_0000 != a / 0x1_0000 ensures mem'[i] == mem[i] {
      OutsidePage(erased, a, Fill(Blank(), a, bytes), i);
      ErasedAt(erased, mem, a, i);
    }
  }

  lemma ErasedAt(erased: seq<byte>, mem: seq<byte>, a: address, i: nat)
    requires |erased| == |mem| == MEM_BYTES && SectorErased(erased, mem, a) && i < MEM_BYTES
    ensures erased[i] == if i / 0x1_0000 == a / 0x1_0000 then 0xff else mem[i]
  {
  }

  lemma OutsidePage(mem: seq<byte>, a: address, page: seq<byte>, i: nat)
    requires |mem| == MEM_BYTES && |page| == 256 && i < MEM_BYTES && i / 0x1_0000 != a / 0x1_0000
    ensures ProgramPage(mem, Page(a), page)[i] == mem[i]
  {
    hide And;
    if Page(a) <= i < Page(a) + 256 {
      var c := i - Page(a);
      Ring.ModShift(a / 256, c, 256);
      assert i == a / 256 * 256 + c;
      NestedQuotient(i);
      NestedQuotient(a);
    }
  }

  lemma ErasedCell(erased: seq<byte>, mem: seq<byte>, a: address, bytes: seq<byte>, j: nat)
    requires |erased| == |mem| == MEM_BYTES && SectorErased(erased, mem, a) && j < |bytes| <= j + 256
    ensures ProgramPage(erased, Page(a), Fill(Blank(), a, bytes))[CellAddress(a, j)] == bytes[j]
  {
    hide Fill, And, SectorErased, CellAddress, Cell, Page, ProgramPage;
    CellInPage(a, j);
    CellInSector(a, j);
    ErasedAt(erased, mem, a, CellAddress(a, j));
    PageCell(erased, a, Fill(Blank(), a, bytes), Cell(a, j));
    FillWrites(Blank(), a, bytes, j);
    AndOnes(bytes[j]);
  }

  lemma CellInSector(a: address, j: nat)
    ensures CellAddress(a, j) / 0x1_0000 == a / 0x1_0000
  {
    hide CellAddress;
    CellInPage(a, j);
    NestedQuotient(CellAddress(a, j));
    NestedQuotient(a);
  }

  lemma NestedQuotient(x: nat)
    ensures x / 256 / 256 == x / 0x1_0000
  {
  }

  lemma PageCell(mem: seq<byte>, a: address, page: seq<byte>, c: nat)
    requires |mem| == MEM_BYTES && |page| == 256 && c < 256
    ensures Page(a) + c < MEM_BYTES && ProgramPage(mem, Page(a), page)[Page(a) + c] == And(mem[Page(a) + c], page[c])
  {
    hide And;
  }

  /** Erase, program, read: the host gets back the last byte sent to each cell of the page,
      0xFF from the rest of the sector, and the old memory from everywhere else. */
  lemma ProgramReadBack(s0: Sim, s1: Sim, s2: Sim, s3: Sim, s4: Sim,
                        enable1: Txn, erase: Txn, enable2: Txn, program: Txn, read: Txn,
                        quad: bool, a: address, bytes: seq<byte>, from: address, m: byte, n: nat)
    requires Resting(s0) && 8 * |bytes| < WORD - 64 && from + n <= MEM_BYTES
    requires Timed(enable1, 1) && Spells(Spi, Data(enable1), 0x06) && s1 == RunTxn(s0, enable1)
    requires Timed(erase, T_SE + 1) && SendsErase(Data(erase), a) && s2 == RunTxn(s1, erase)
    requires Timed(enable2, 1) && Spells(Spi, Data(enable2), 0x06) && s3 == RunTxn(s2, enable2)
    requires Timed(program, T_PP + 1) && SendsProgram(Data(program), quad, a, bytes) && s4 == RunTxn(s3, program)
    requires Timed(read, 1) && SendsRead(Data(read), true, from, m, n)
    ensures Resting(s4) && RunTxn(s4, read).flash.mem == s4.flash.mem
    ensures ErasedAndProgrammed(s4.flash.mem, s0.flash.mem, a, bytes)
    ensures DataReturned(s4, read, true) == Nibbles(s4.flash.mem[from..from + n])
  {
    hide RunTxn, Resting, Spells, SendsErase, SendsProgram, SendsRead, DataReturned, Nibbles, Fill, Timed;
    hide ErasedAndProgrammed, ProgramPage, EraseRange;
    WriteEnable(s0, enable1);
    Erase(s1, erase, a);
    WriteEnable(s2, enable2);
    Program(s3, program, quad, a, bytes);
    QuadRead(s4, read, true, from, m, n);
    ErasedThenProgrammed(s0.flash.mem, a, bytes);
  }

  /** Without an erase the read returns the old memory AND the last bytes sent. */
  lemma ProgramOverOldData(s0: Sim, s1: Sim, enable: Txn, program: Txn, read: Txn,
                           quad: bool, a: address, bytes: seq<byte>, from: address, m: byte, n: nat)
    requires Resting(s0) && 8 * |bytes| < WORD - 64 && from + n <= MEM_BYTES
    requires Timed(enable, 1) && Spells(Spi, Data(enable), 0x06) && s1 == RunTxn(s0, enable)
    requires Timed(program, T_PP + 1) && SendsProgram(Data(program), quad, a, bytes)
    requires Timed(read, 1) && SendsRead(Data(read), true, from, m, n)
    ensures var s2 := RunTxn(s1, program);
            && Programmed(s2.flash.mem, s0.flash.mem, a, bytes)
            && DataReturned(s2, read, true) == Nibbles(s2.flash.mem[from..from + n])
            && ReturnsBytes(DataReturned(s2, read, true), s2.flash.mem, from, n)
  {
    hide RunTxn, Resting, Spells, SendsProgram, SendsRead, DataReturned, Nibbles, Fill, Timed, Programmed, ProgramPage;
    WriteEnable(s0, enable);
    Program(s1, program, quad, a, bytes);
    QuadRead(RunTxn(s1, program), read, true, from, m, n);
  }

  lemma PageInSector(a: address)
    ensures SectorStart(a) <= Page(a) && Page(a) + 256 <= SectorStart(a) + SECTOR <= MEM_BYTES
  {
  }

  // ---- ignored commands after a read ---------------------------------------------------------

  /** The byte of a transaction, counted from its command, that a read state takes for its
      mode byte. */
  function ModeByteAt(st: State): nat { if st == QuadReadCmd || st == DualReadCmd then 4 else 3 }

  /** Byte number k on the one-bit bus. */
  function ByteOf(ds: seq<nibble>, k: nat): byte
    requires 8 * k + 8 <= |ds|
  {
    SpiValueByte(ds[8 * k..8 * k + 8]);
    SpiValue(ds[8 * k..8 * k + 8])
  }

  lemma {:induction false} SpiValueBound(ds: seq<nibble>)
    ensures SpiValue(ds) < Pow2(|ds|)
  {
    if |ds| > 0 {
      SpiValueBound(ds[..|ds| - 1]);
    }
  }

  lemma SpiValueByte(ds: seq<nibble>)
    requires |ds| == 8
    ensures SpiValue(ds) < 256
  {
    SpiValueBound(ds);
    assert Pow2(8) == 256;
  }

  /** An idle read state on the one-bit bus: the next falling edge fails the assertion on
      the bus mode. */
  predicate Broken(f: Flash) {
    (f.state == QuadReadIdle || f.state == DualReadIdle) && f.mode == Spi
  }

  /** A finished read whose state is left over, with i bytes of a transaction received. */
  ghost predicate Stale(f: Flash, st: State, i: nat) {
    && f.Valid() && ReadState(st) && f.state == st && f.mode == Spi && f.count == 8 * i < WORD - 8
    && f.writeCount == 0 && !f.sreg.wip && !f.sreg.deepSleep
  }

  lemma StaleValid(f: Flash, st: State, i: nat)
    requires Stale(f, st, i)
    ensures f.Valid() && f.mode == Spi && ReadState(st) && f.state == st && f.count == 8 * i < WORD - 8
  {
  }

  lemma StaleCommand(f: Flash, st: State, b: byte)
    requires Stale(f, st, 0) && b in IGNORED
    ensures Stale(ByteStep(f, b), st, 1) && ByteStep(f, b).modeByte == f.modeByte
  {
    hide Decode, ByteDone;
    LowByteShifted(f.ireg, b);
    IgnoredDecode(Load(ByteShifted(f, b), 0xa5), b);
  }

  lemma IgnoredDecode(f: Flash, op: byte)
    requires op in IGNORED && !f.sreg.deepSleep
    ensures Decode(f, op) == f.(oreg := Decode(f, op).oreg)
  {
  }

  /** What a later byte boundary of a left-over read state changes. */
  lemma StaleOut(g: Flash)
    requires g.Valid() && ReadState(g.state) && g.count >= 16 && g.count % 8 == 0 && !g.sreg.wip
    ensures var r := DataOut(g);
            && r == g.(addr := r.addr, oreg := r.oreg, modeByte := r.modeByte)
            && r.modeByte == if g.count == 8 * ModeByteAt(g.state) + 8 then g.ireg % 256 else g.modeByte
  {
  }

  lemma StaleData(f: Flash, st: State, i: nat, b: byte)
    requires Stale(f, st, i) && i > 0 && 8 * i < WORD - 16
    ensures var r := ByteStep(f, b);
            Stale(r, st, i + 1) && r.modeByte == if i == ModeByteAt(st) then b else f.modeByte
  {
    hide DataOut, ByteStep;
    OutBoundary(f, b);
    LowByteShifted(f.ireg, b);
    StaleOut(Load(ByteShifted(f, b), 0));
  }

  lemma StaleByte(f: Flash, st: State, i: nat, ds: seq<nibble>, b: byte)
    requires Stale(f, st, i) && 8 * i < WORD - 16 && Spells(Spi, ds, b) && (i == 0 ==> b in IGNORED)
    ensures var r := Edges(f, ds);
            Stale(r, st, i + 1) && r.modeByte == if i == ModeByteAt(st) then b else f.modeByte
  {
    hide Edges, Spells, ByteStep, Stale;
    StaleValid(f, st, i);
    SpiByteEdges(f, ds, b);
    if i == 0 {
      StaleCommand(f, st, b);
    } else {
      StaleData(f, st, i, b);
    }
  }

  /** The edges after the last whole byte. */
  lemma StaleRest(f: Flash, st: State, i: nat, ds: seq<nibble>)
    requires Stale(f, st, i) && |ds| < 8
    ensures var r := Edges(f, ds);
            && r == f.(ireg := r.ireg, oreg := r.oreg, count := r.count)
            && r.state == st && r.mode == Spi && r.writeCount == 0 && !r.sreg.wip && !r.sreg.deepSleep
  {
    SpiShift(f, ds);
  }

  /** After the rest of a transaction the state is still left over, and its mode byte is the
      byte in that place, if there was one. */
  lemma {:induction false} StaleRun(f: Flash, st: State, i: nat, ds: seq<nibble>)
    requires Stale(f, st, i) && 8 * i + |ds| < WORD - 16
    requires i == 0 ==> |ds| >= 8 && ByteOf(ds, 0) in IGNORED
    ensures var r := Edges(f, ds);
            && r.Valid() && r.state == st && r.mode == Spi && r.writeCount == 0 && !r.sreg.wip && !r.sreg.deepSleep
            && r.modeByte == ModeByteAfter(f.modeByte, st, i, ds)
    decreases |ds|
  {
    hide Edges, Stale, Spells, ByteOf, ModeByteAfter;
    StaleValid(f, st, i);
    ModeByteNext(f.modeByte, st, i, ds);
    if |ds| < 8 {
      StaleRest(f, st, i, ds);
    } else {
      var first, rest := ds[..8], ds[8..];
      SpelledByte(ds);
      StaleByte(f, st, i, first, ByteOf(ds, 0));
      assert ds == first + rest;
      EdgesAppend(f, first, rest);
      StaleRun(Edges(f, first), st, i + 1, rest);
    }
  }

  /** The mode byte after the edges ds, of which i whole bytes have gone before. */
  function ModeByteAfter(before: byte, st: State, i: nat, ds: seq<nibble>): byte {
    var k := ModeByteAt(st);
    if i <= k && 8 * (k - i) + 8 <= |ds| then ByteOf(ds, k - i) else before
  }

  lemma ModeByteNext(before: byte, st: State, i: nat, ds: seq<nibble>)
    ensures |ds| < 8 ==> ModeByteAfter(before, st, i, ds) == before
    ensures |ds| >= 8 ==>
              var now := if i == ModeByteAt(st) then ByteOf(ds, 0) else before;
              ModeByteAfter(before, st, i, ds) == ModeByteAfter(now, st, i + 1, ds[8..])
  {
    var k := ModeByteAt(st);
    if i < k && 8 * (k - i) + 8 <= |ds| {
      NextByteOf(ds, k - i);
    }
  }

  lemma SpelledByte(ds: seq<nibble>)
    requires |ds| >= 8
    ensures Spells(Spi, ds[..8], ByteOf(ds, 0))
  {
    assert ds[..8] == ds[8 * 0..8 * 0 + 8];
  }

  lemma NextByteOf(ds: seq<nibble>, k: nat)
    requires k > 0 && 8 * k + 8 <= |ds|
    ensures ByteOf(ds[8..], k - 1) == ByteOf(ds, k)
  {
    assert ds[8..][8 * (k - 1)..8 * (k - 1) + 8] == ds[8 * k..8 * k + 8];
  }

  /** Chip select ends a left-over read like any read, but on the one-bit bus. */
  lemma StaleEnds(g: Flash)
    requires g.Valid() && ReadState(g.state) && g.mode == Spi && g.writeCount == 0
    requires !g.sreg.wip && !g.sreg.deepSleep
    ensures var r := Deselect(g);
            && r.writeCount == 0 && r.mode == Spi
            && if g.modeByte / 16 == 0xA then Broken(r) else !Broken(r) && Resting(Sim(r, true)) && r.state == g.state
  {
  }

  lemma {:induction false} BrokenStays(s: Sim, w: seq<Pins>)
    requires s.flash.Valid() && Broken(s.flash) && s.flash.writeCount == 0 && Deselected(w)
    ensures Broken(Run(s, w).flash) && IdleReadFaults(Run(s, w).flash)
    decreases |w|
  {
    if |w| > 0 {
      BrokenStays(Step(s, w[0]), w[1..]);
    }
  }

  lemma {:induction false} FallsAtMost(sck: bool, w: seq<Pins>)
    ensures |Falls(sck, w)| <= |w|
    decreases |w|
  {
    if |w| > 0 {
      FallsAtMost(w[0].sck, w[1..]);
    }
  }

  lemma RestingStale(s: Sim)
    requires Resting(s) && ReadState(s.flash.state)
    ensures Stale(s.flash, s.flash.state, 0) && s.flash.modeByte / 16 != 0xA
  {
  }

  /** A transaction that begins with an ignored command, on top of a finished read: it
      leaves an idle read state on the one-bit bus, and so an assertion that fails at the
      next falling edge, exactly if the byte in the place of the old read's mode byte was
      sent and is 0xA?.  Otherwise the flash is back at rest. */
  lemma IgnoredAfterRead(s: Sim, t: Txn)
    requires Resting(s) && ReadState(s.flash.state) && Timed(t, 1)
    requires |Data(t)| >= 8 && ByteOf(Data(t), 0) in IGNORED
    ensures var r, ds, k := RunTxn(s, t), Data(t), ModeByteAt(s.flash.state);
            && (Broken(r.flash) <==> 8 * k + 8 <= |ds| && ByteOf(ds, k) / 16 == 0xA)
            && (Broken(r.flash) ==> IdleReadFaults(r.flash))
            && (!Broken(r.flash) ==> Resting(r) && r.flash.state == s.flash.state)
  {
    hide Edges, Stale, Deselect, Resting, Broken, Timed;
    var f, ds := s.flash, Data(t);
    RestingStale(s);
    TimedData(t);
    StaleRun(f, f.state, 0, ds);
    var g := Edges(f, ds);
    StaleEnds(g);
    EndTxn(s, t);
    AfterStale(Sim(Deselect(g), true), t.high[1..]);
  }

  lemma TimedData(t: Txn)
    requires Timed(t, 1)
    ensures |Data(t)| < WORD - 16 && |t.high| >= 1 && Deselected(t.high[1..])
  {
    FallsAtMost(true, t.low);
  }

  lemma AfterStale(s: Sim, w: seq<Pins>)
    requires s.lastSck && s.flash.Valid() && s.flash.writeCount == 0 && Deselected(w)
    requires Broken(s.flash) || Resting(s)
    ensures var r := Run(s, w);
            if Broken(s.flash) then Broken(r.flash) && IdleReadFaults(r.flash)
            else Resting(r) && r.flash.state == s.flash.state && !Broken(r.flash)
  {
    if Broken(s.flash) {
      BrokenStays(s, w);
    } else {
      HighPart(s, w);
    }
  }
}
