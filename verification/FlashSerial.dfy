/** Reads of the memory on the one-bit bus: the slow read (command 0x03) and the fast read
    (command 0x0b, with a dummy byte after the address). */
module FlashSerial {
  import opened FixedPoint
  import opened FlashSpec
  import opened FlashInvariant
  import opened FlashWire
  import opened FlashTransactions
  import opened FlashSession
  import opened FlashCommands

  predicate SerialRead(s: State) { s == SlowRead || s == FastRead }

  /** A serial read with its command, and perhaps part of its address, received. */
  ghost predicate Located(f: Flash) {
    && f.Valid() && SerialRead(f.state) && f.mode == Spi && f.count >= 8 && f.count % 8 == 0
    && f.writeCount == 0 && !f.sreg.wip && !f.sreg.deepSleep
  }

  lemma LocatedSpi(f: Flash)
    requires Located(f)
    ensures f.Valid() && f.mode == Spi && SerialRead(f.state) && f.count >= 8 && f.count % 8 == 0
  {
  }

  /** What the byte boundaries of a serial read do, by the number of bits received. */
  lemma SerialBoundary(g: Flash)
    requires Located(g) && g.count >= 16
    ensures g.count < 32 ==> DataOut(g) == g.(oreg := 0)
    ensures g.count == 32 && g.state == SlowRead ==> DataOut(g) == Fetch(g.(addr := g.ireg % MEM_BYTES))
    ensures g.count == 32 && g.state == FastRead ==> DataOut(g) == Load(g.(addr := g.ireg % MEM_BYTES), 0xc3)
    ensures g.count >= 40 ==> DataOut(g) == Fetch(g)
  {
  }

  lemma SerialStep(f: Flash, ds: seq<nibble>, b: byte)
    requires Located(f) && f.count < WORD - 8 && Spells(Spi, ds, b)
    ensures var g := Load(ByteShifted(f, b), 0);
            && Located(g) && g.count == f.count + 8 && g.ireg == ByteShifted(f, b).ireg
            && Edges(f, ds) == ByteStep(f, b) == DataOut(g)
  {
    hide Edges, ByteStep, DataOut, Spells;
    SpiByteEdges(f, ds, b);
    OutBoundary(f, b);
  }

  lemma SerialAddressByte(f: Flash, ds: seq<nibble>, b: byte)
    requires Located(f) && f.count < 24 && f.ireg < 0x1_0000 && Spells(Spi, ds, b)
    ensures var r := Edges(f, ds);
            Located(r) && r.state == f.state && r.count == f.count + 8 && r.ireg == f.ireg * 256 + b
  {
    hide Edges, ByteStep, DataOut, Spells;
    SerialStep(f, ds, b);
    SerialBoundary(Load(ByteShifted(f, b), 0));
  }

  lemma SerialLastByte(f: Flash, ds: seq<nibble>, b: byte, a: address)
    requires Located(f) && f.count == 24 && f.ireg < 0x100_0000 && Spells(Spi, ds, b)
    requires (f.ireg * 256 + b) % MEM_BYTES == a
    ensures var r := Edges(f, ds);
            && Located(r) && r.state == f.state && r.count == 32
            && if f.state == FastRead then r.addr == a else r.addr == a + 1 && r.oreg % 256 == f.mem[a]
  {
    hide Edges, ByteStep, DataOut, Spells;
    SerialStep(f, ds, b);
    var g := Load(ByteShifted(f, b), 0);
    SerialBoundary(g);
    assert g.ireg == f.ireg * 256 + b;
    FirstFetched(ByteShifted(f, b), a);
  }

  lemma FirstFetched(g: Flash, a: address)
    requires g.Valid()
    ensures var r := Fetch(Load(g, 0).(addr := a)); r == g.(addr := a + 1, oreg := r.oreg) && r.oreg % 256 == g.mem[a]
  {
    LowReplaced(g, g.mem[a]);
  }

  lemma SerialAddress(f: Flash, ds: seq<nibble>, a: address)
    requires Located(f) && f.count == 8 && f.ireg < 256 && SendsAddress(ds, Spi, a)
    ensures var r := Edges(f, ds);
            && Located(r) && r.state == f.state && r.count == 32
            && if f.state == FastRead then r.addr == a else r.addr == a + 1 && r.oreg % 256 == f.mem[a]
  {
    hide Edges, Spells;
    assert ds == ds[..8] + ds[8..16] + ds[16..];
    SerialAddressBytes(f, ds[..8], ds[8..16], ds[16..], a);
  }

  lemma SerialAddressBytes(f: Flash, d1: seq<nibble>, d2: seq<nibble>, d3: seq<nibble>, a: address)
    requires Located(f) && f.count == 8 && f.ireg < 256
    requires Spells(Spi, d1, TopByte(a)) && Spells(Spi, d2, MiddleByte(a)) && Spells(Spi, d3, LowByte(a))
    ensures var r := Edges(f, d1 + d2 + d3);
            && Located(r) && r.state == f.state && r.count == 32
            && if f.state == FastRead then r.addr == a else r.addr == a + 1 && r.oreg % 256 == f.mem[a]
  {
    hide Edges, Spells, TopByte, MiddleByte, LowByte, Located;
    LocatedSpi(f);
    EdgesAppend(f, d1 + d2, d3);
    SerialTwoBytes(f, d1, d2, TopByte(a), MiddleByte(a));
    AddressValue(f.ireg, a);
    SerialLastByte(Edges(f, d1 + d2), d3, LowByte(a), a);
  }

  lemma SerialTwoBytes(f: Flash, d1: seq<nibble>, d2: seq<nibble>, b1: byte, b2: byte)
    requires Located(f) && f.count == 8 && f.ireg < 256 && Spells(Spi, d1, b1) && Spells(Spi, d2, b2)
    ensures var r := Edges(f, d1 + d2);
            && Located(r) && r.state == f.state && r.count == 24 && r.ireg == (f.ireg * 256 + b1) * 256 + b2
            && r.mem == f.mem
  {
    hide Edges, Spells, Located;
    LocatedSpi(f);
    EdgesAppend(f, d1, d2);
    SerialAddressByte(f, d1, b1);
    SerialAddressByte(Edges(f, d1), d2, b2);
  }

  /** Every later boundary fetches the next byte and shows what was fetched before. */
  lemma SerialFetch(f: Flash, ds: seq<nibble>, b: byte)
    requires Located(f) && 32 <= f.count < WORD - 8 && f.addr < MEM_BYTES + 1 && Spells(Spi, ds, b)
    ensures var r := Edges(f, ds);
            && Located(r) && r.state == f.state && r.count == f.count + 8 && r.addr == f.addr + 1
            && (f.addr < MEM_BYTES ==> r.oreg % 256 == f.mem[f.addr])
            && r == ByteStep(f, b) && r.oreg / 256 == ByteShifted(f, b).oreg / 256
  {
    hide Edges, ByteStep, DataOut, Spells;
    SerialStep(f, ds, b);
    var g := Load(ByteShifted(f, b), 0);
    SerialBoundary(g);
    LowReplaced(ByteShifted(f, b), if f.addr < MEM_BYTES then f.mem[f.addr] else 0);
  }

  /** From the byte in the output register on, eight edges per byte show the memory. */
  lemma {:induction false} SerialData(f: Flash, ds: seq<nibble>, n: nat)
    requires Located(f) && 32 <= f.count && f.count + 8 * n < WORD - 8 && |ds| == 8 * n
    requires 0 < f.addr && f.addr - 1 + n <= MEM_BYTES && (n > 0 ==> f.oreg % 256 == f.mem[f.addr - 1])
    ensures f.Valid() && ShowsBytes(EdgeOutputs(f, ds), f.mem[f.addr - 1..f.addr - 1 + n])
    ensures Located(Edges(f, ds)) && Edges(f, ds).sreg == f.sreg
    decreases n
  {
    hide Edges, EdgeOutputs, ByteStep, Shows, ShowsBytes, Located, Spells;
    LocatedSpi(f);
    var bytes := f.mem[f.addr - 1..f.addr - 1 + n];
    if n == 0 {
      NoOutput(f, ds);
      assert bytes == [];
    } else {
      var first, rest, b := ds[..8], ds[8..], SpiByte(ds[..8]);
      SerialFetch(f, first, b);
      LocatedSpi(ByteStep(f, b));
      ShownByte(f, first, b);
      assert ds == first + rest;
      EdgesAppend(f, first, rest);
      var g := Edges(f, first);
      SameStatus(f, first, b);
      SerialData(g, rest, n - 1);
      assert bytes == [f.mem[f.addr - 1]] + g.mem[g.addr - 1..g.addr - 1 + (n - 1)];
      ShowsMore(EdgeOutputs(f, first), f.oreg % 256, EdgeOutputs(g, rest), bytes[1..]);
    }
  }

  lemma SameStatus(f: Flash, ds: seq<nibble>, b: byte)
    requires Located(f) && f.count < WORD - 8 && Spells(Spi, ds, b)
    ensures Edges(f, ds).sreg == f.sreg
  {
    hide Edges, ByteStep, Spells;
    SerialStep(f, ds, b);
  }

  /** The edges before the data: command, address and, in a fast read, a dummy byte. */
  function SerialLead(fast: bool): nat { if fast then 40 else 32 }

  predicate SendsSerialRead(ds: seq<nibble>, fast: bool, a: address, n: nat) {
    && |ds| == SerialLead(fast) + 8 * n
    && Spells(Spi, ds[..8], if fast then 0x0b else 0x03) && SendsAddress(ds[8..32], Spi, a)
  }

  lemma SerialCommand(f: Flash, ds: seq<nibble>, fast: bool)
    requires Ready(f) && Spells(Spi, ds, if fast then 0x0b else 0x03)
    ensures var r := Edges(f, ds);
            && Located(r) && r.state == (if fast then FastRead else SlowRead) && r.count == 8 && r.ireg < 256
            && r.sreg == f.sreg
  {
    hide Edges, Spells, Decode;
    var op: byte := if fast then 0x0b else 0x03;
    CommandEdges(f, ds, op);
    SerialDecoded(Load(ByteShifted(f, op), 0xa5), fast);
  }

  lemma SerialDecoded(g: Flash, fast: bool)
    requires !g.sreg.deepSleep
    ensures Decode(g, if fast then 0x0b else 0x03) == g.(state := if fast then FastRead else SlowRead)
  {
  }

  lemma SerialHead(f: Flash, ds: seq<nibble>, fast: bool, a: address)
    requires Ready(f) && |ds| == SerialLead(fast)
    requires Spells(Spi, ds[..8], if fast then 0x0b else 0x03) && SendsAddress(ds[8..32], Spi, a)
    ensures var r := Edges(f, ds);
            && Located(r) && r.count == SerialLead(fast) && r.addr == a + 1 && r.oreg % 256 == f.mem[a]
  {
    hide Edges, Spells, SendsAddress, Located;
    var command, place, dummy := ds[..8], ds[8..32], ds[32..];
    assert ds == command + (place + dummy);
    SerialCommand(f, command, fast);
    EdgesAppend(f, command, place + dummy);
    var f1 := Edges(f, command);
    LocatedSpi(f1);
    EdgesAppend(f1, place, dummy);
    SerialAddress(f1, place, a);
    var f2 := Edges(f1, place);
    LocatedSpi(f2);
    if fast {
      SerialFetch(f2, dummy, SpiByte(dummy));
    } else {
      NoEdges(f2, dummy);
    }
  }

  lemma SerialRests(g: Flash)
    requires Located(g)
    ensures g.writeCount == 0 && Resting(Sim(Deselect(g), true)) && Deselect(g).mem == g.mem
  {
  }

  lemma SerialEdges(f: Flash, ds: seq<nibble>, fast: bool, a: address, n: nat)
    requires Ready(f) && SendsSerialRead(ds, fast, a, n) && a + n <= MEM_BYTES && |ds| < WORD - 16
    ensures f.Valid() && Located(Edges(f, ds))
    ensures ShowsBytes(EdgeOutputs(f, ds)[SerialLead(fast)..], f.mem[a..a + n])
  {
    hide Edges, EdgeOutputs, Spells, SendsAddress, ShowsBytes, Located;
    var k := SerialLead(fast);
    var head, data := ds[..k], ds[k..];
    assert ds == head + data && head[..8] == ds[..8] && head[8..32] == ds[8..32];
    EdgesAppend(f, head, data);
    SerialHead(f, head, fast, a);
    SerialData(Edges(f, head), data, n);
    assert EdgeOutputs(f, ds)[k..] == EdgeOutputs(Edges(f, head), data);
  }

  /** A slow or a fast read of n bytes returns the memory from the address on, bit by bit,
      highest first, and changes nothing. */
  lemma SerialReadBack(s: Sim, t: Txn, fast: bool, a: address, n: nat)
    requires Resting(s) && Timed(t, 1) && SendsSerialRead(Data(t), fast, a, n) && a + n <= MEM_BYTES
    ensures s.flash.Valid() && Resting(RunTxn(s, t)) && RunTxn(s, t).flash.mem == s.flash.mem
    ensures var outs := FallOutputs(s, t.low);
            |outs| >= SerialLead(fast) && ShowsBytes(outs[SerialLead(fast)..], s.flash.mem[a..a + n])
  {
    hide Edges, EdgeOutputs, SendsSerialRead, ShowsBytes, RunTxn, Timed, FallOutputs, Resting, Located;
    RestingReady(s);
    TimedData(t);
    SerialLength(Data(t), fast, a, n);
    SerialEdges(s.flash, Data(t), fast, a, n);
    SerialRests(Edges(s.flash, Data(t)));
    RestingTxn(s, t, Edges(s.flash, Data(t)));
    LowPart(s, t);
  }

  lemma SerialLength(ds: seq<nibble>, fast: bool, a: address, n: nat)
    requires SendsSerialRead(ds, fast, a, n)
    ensures |ds| >= SerialLead(fast)
  {
  }
}
