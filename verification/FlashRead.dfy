/** Quad reads, cold (command 0xEB) and continuous (no command): what the host sees on
    the pins. */
module FlashRead {
  import opened FixedPoint
  import opened FlashSpec
  import opened FlashInvariant
  import opened FlashWire
  import opened FlashTransactions
  import Ring

  /** Chip select is high and the next edges are the address of another quad read. */
  ghost predicate Continuing(f: Flash) {
    && f.Valid() && f.mode == Quad && f.state == QuadReadIdle
    && f.count == 0 && f.ireg == 0 && f.writeCount == 0 && !f.sreg.wip && !f.sreg.deepSleep
  }

  lemma QuadStep(f: Flash, ds: seq<nibble>, b: byte)
    requires f.Valid() && f.mode == Quad && f.state != DualReadIdle && f.count % 8 == 0 && f.count < WORD - 8
    requires Spells(Quad, ds, b)
    ensures Edges(f, ds) == ByteStep(f, b)
  {
    hide Edges, ByteStep;
    if f.state == QuadReadIdle {
      IdleQuadByteEdges(f, ds, b);
    } else {
      QuadByteEdges(f, ds, b);
    }
  }

  /** Whatever the host drives, two edges spell some byte. */
  function PairValue(ds: seq<nibble>): (b: byte)
    requires |ds| == 2
    ensures Spells(Quad, ds, b)
  {
    (ds[0] as int) * 16 + ds[1]
  }

  // ---- address, mode byte, dummy clocks -------------------------------------------------

  /** A quad read whose address is still to come, `from` bits into the transaction. */
  ghost predicate Addressing(f: Flash, from: nat) {
    && f.Valid() && f.mode == Quad
    && ((f.state == QuadReadCmd && from == 8) || (f.state == QuadReadIdle && from == 0))
    && from <= f.count < from + 24 && f.count % 8 == 0 && !f.sreg.wip
  }

  lemma AddressStep(f: Flash, b: byte, from: nat)
    requires Addressing(f, from) && f.count < from + 16
    ensures ByteStep(f, b) == ByteShifted(f, b).(oreg := 0)
  {
    hide Decode, DataIn;
    assert f.count + 8 < 32;
  }

  lemma LastAddressStep(f: Flash, b: byte, from: nat)
    requires Addressing(f, from) && f.count == from + 16
    ensures var g, r := ByteShifted(f, b), ByteStep(f, b);
            && r == g.(addr := g.ireg % MEM_BYTES, oreg := r.oreg, state := r.state)
            && r.state == if from == 8 then QuadReadCmd else QuadRead
  {
    hide Decode, DataIn;
  }

  lemma ReadAddressByte(f: Flash, ds: seq<nibble>, b: byte, from: nat)
    requires Addressing(f, from) && f.count < from + 16 && f.ireg < 0x100_0000 && Spells(Quad, ds, b)
    ensures var r := Edges(f, ds);
            && Addressing(r, from) && r.count == f.count + 8 && r.ireg == f.ireg * 256 + b
            && r.modeByte == f.modeByte && r.sreg == f.sreg && r.writeCount == f.writeCount
  {
    hide Edges, Spells, ByteStep;
    QuadStep(f, ds, b);
    AddressStep(f, b, from);
  }

  lemma ReadLastAddressByte(f: Flash, ds: seq<nibble>, b: byte, from: nat)
    requires Addressing(f, from) && f.count == from + 16 && f.ireg < 0x100_0000 && Spells(Quad, ds, b)
    requires f.writeCount == 0 && !f.sreg.deepSleep
    ensures var r := Edges(f, ds);
            && Reading(r, from) && r.count == from + 24 && r.addr == (f.ireg * 256 + b) % MEM_BYTES
            && r.modeByte == f.modeByte && r.sreg == f.sreg
  {
    hide Edges, Spells, ByteStep;
    QuadStep(f, ds, b);
    LastAddressStep(f, b, from);
  }

  /** The address is complete; the mode byte and the dummy clocks follow. */
  ghost predicate Reading(f: Flash, from: nat) {
    && f.Valid() && f.mode == Quad
    && ((f.state == QuadReadCmd && from == 8) || (f.state == QuadRead && from == 0))
    && f.count >= from + 24 && f.count % 8 == 0 && !f.sreg.wip && f.writeCount == 0 && !f.sreg.deepSleep
  }

  lemma ReadBoundary(f: Flash, b: byte, from: nat)
    requires Reading(f, from) && f.count < WORD - 8
    ensures ByteStep(f, b) == DataOut(Load(ByteShifted(f, b), 0)) && ByteShifted(f, b).count == f.count + 8
  {
    hide Decode, DataIn, DataOut;
    assert ByteShifted(f, b).count % 8 == 0;
  }

  lemma ReadModeByte(f: Flash, ds: seq<nibble>, b: byte, from: nat)
    requires Reading(f, from) && f.count == from + 24 && Spells(Quad, ds, b)
    ensures var r := Edges(f, ds);
            Reading(r, from) && r.count == from + 32 && r.modeByte == b && r.addr == f.addr && r.sreg == f.sreg
  {
    hide Edges, ByteStep, Spells;
    QuadStep(f, ds, b);
    ReadBoundary(f, b, from);
    LowByteShifted(f.ireg, b);
  }

  lemma ReadDummyByte(f: Flash, ds: seq<nibble>, from: nat)
    requires Reading(f, from) && f.count == from + 32 && |ds| == 2
    ensures var r := Edges(f, ds);
            Reading(r, from) && r.count == from + 40 && r.modeByte == f.modeByte && r.addr == f.addr && r.sreg == f.sreg
  {
    hide Edges, ByteStep, Spells;
    QuadStep(f, ds, PairValue(ds));
    ReadBoundary(f, PairValue(ds), from);
  }

  /** Every later byte boundary fetches the next byte of memory. */
  lemma ReadFetch(f: Flash, b: byte, from: nat)
    requires Reading(f, from) && from + 40 <= f.count < WORD - 8
    ensures var r := ByteStep(f, b);
            && Reading(r, from) && r.count == f.count + 8 && r.modeByte == f.modeByte && r.sreg == f.sreg
            && r.addr == (f.addr + 1) % WORD && (f.addr < MEM_BYTES ==> r.oreg % 256 == f.mem[f.addr])
            && r.oreg / 256 % 16 == f.oreg % 16
  {
    hide ByteStep;
    ReadBoundary(f, b, from);
    var g := Load(ByteShifted(f, b), 0);
    assert DataOut(g) == Fetch(g);
    ShownLow(f.oreg);
  }

  lemma ShownLow(x: word)
    ensures x * 256 % WORD / 256 % 16 == x % 16 && x * 256 % WORD % 256 == 0
  {
    var q := x * 256 / WORD;
    assert x * 256 % WORD == (x - q * 0x100_0000) * 256;
    NibblePeriod(x - q * 0x100_0000, q * 0x10_0000);
  }

  lemma QuadAddressEdges(f: Flash, ds: seq<nibble>, a: address, from: nat)
    requires Addressing(f, from) && f.count == from && f.ireg < 256 && f.writeCount == 0 && !f.sreg.deepSleep
    requires SendsAddress(ds, Quad, a)
    ensures var r := Edges(f, ds);
            Reading(r, from) && r.count == from + 24 && r.addr == a && r.modeByte == f.modeByte && r.sreg == f.sreg
  {
    hide Edges, Spells;
    assert ds == ds[..2] + ds[2..4] + ds[4..];
    ReadAddressBytes(f, ds[..2], ds[2..4], ds[4..], a, from);
  }

  lemma ReadAddressBytes(f: Flash, d1: seq<nibble>, d2: seq<nibble>, d3: seq<nibble>, a: address, from: nat)
    requires Addressing(f, from) && f.count == from && f.ireg < 256 && f.writeCount == 0 && !f.sreg.deepSleep
    requires Spells(Quad, d1, TopByte(a)) && Spells(Quad, d2, MiddleByte(a)) && Spells(Quad, d3, LowByte(a))
    ensures var r := Edges(f, d1 + d2 + d3);
            Reading(r, from) && r.count == from + 24 && r.addr == a && r.modeByte == f.modeByte && r.sreg == f.sreg
  {
    hide Edges, Spells, TopByte, MiddleByte, LowByte, Reading, Addressing;
    AddressingValid(f, from);
    EdgesAppend(f, d1 + d2, d3);
    ReadTwoAddressBytes(f, d1, d2, TopByte(a), MiddleByte(a), from);
    AddressValue(f.ireg, a);
    ReadLastAddressByte(Edges(f, d1 + d2), d3, LowByte(a), from);
  }

  lemma ReadTwoAddressBytes(f: Flash, d1: seq<nibble>, d2: seq<nibble>, b1: byte, b2: byte, from: nat)
    requires Addressing(f, from) && f.count == from && f.ireg < 256
    requires Spells(Quad, d1, b1) && Spells(Quad, d2, b2)
    ensures var r := Edges(f, d1 + d2);
            && Addressing(r, from) && r.count == from + 16 && r.ireg == (f.ireg * 256 + b1) * 256 + b2
            && r.modeByte == f.modeByte && r.sreg == f.sreg && r.writeCount == f.writeCount
  {
    hide Edges, Spells, Addressing;
    AddressingValid(f, from);
    EdgesAppend(f, d1, d2);
    ReadAddressByte(f, d1, b1, from);
    ReadAddressByte(Edges(f, d1), d2, b2, from);
  }

  lemma AddressingValid(f: Flash, from: nat)
    requires Addressing(f, from)
    ensures f.Valid()
  {
  }

  lemma ThreeParts(ds: seq<nibble>, i: nat, j: nat)
    requires i <= j <= |ds|
    ensures ds == ds[..i] + (ds[i..j] + ds[j..])
  {
  }

  /** Address, mode byte and the first two dummy clocks: the next boundary fetches. */
  lemma ReadLead(f: Flash, ds: seq<nibble>, a: address, m: byte, from: nat)
    requires Addressing(f, from) && f.count == from && f.ireg < 256 && f.writeCount == 0 && !f.sreg.deepSleep
    requires from <= 8 && |ds| == 10 && SendsAddress(ds[..6], Quad, a) && Spells(Quad, ds[6..8], m)
    ensures var r := Edges(f, ds);
            Reading(r, from) && r.count == from + 40 && r.addr == a && r.modeByte == m && r.sreg == f.sreg
  {
    hide Edges, Spells, SendsAddress, Reading, Addressing;
    var d1, d2, d3 := ds[..6], ds[6..8], ds[8..];
    ThreeParts(ds, 6, 8);
    AddressingValid(f, from);
    EdgesAppend(f, d1, d2 + d3);
    var f1 := Edges(f, d1);
    EdgesAppend(f1, d2, d3);
    QuadAddressEdges(f, d1, a, from);
    ReadModeByte(f1, d2, m, from);
    ReadDummyByte(Edges(f1, d2), d3, from);
  }

  /** Address, mode byte and four dummy clocks: the first byte is ready. */
  lemma ReadHead(f: Flash, ds: seq<nibble>, a: address, m: byte, from: nat)
    requires Addressing(f, from) && f.count == from && f.ireg < 256 && f.writeCount == 0 && !f.sreg.deepSleep
    requires from <= 8 && |ds| == 12 && SendsAddress(ds[..6], Quad, a) && Spells(Quad, ds[6..8], m)
    ensures var r := Edges(f, ds);
            && Reading(r, from) && r.count == from + 48 && r.addr == a + 1 && r.modeByte == m && r.sreg == f.sreg
            && r.oreg % 256 == f.mem[a]
  {
    hide Edges, Spells, SendsAddress, Reading, Addressing;
    var lead, last := ds[..10], ds[10..];
    assert ds == lead + last && lead[..6] == ds[..6] && lead[6..8] == ds[6..8];
    AddressingValid(f, from);
    EdgesAppend(f, lead, last);
    ReadLead(f, lead, a, m, from);
    FetchEdges(Edges(f, lead), last, from);
  }

  lemma FetchEdges(f: Flash, ds: seq<nibble>, from: nat)
    requires Reading(f, from) && from + 40 <= f.count < WORD - 8 && |ds| == 2 && f.addr < WORD - 1
    ensures var r := Edges(f, ds);
            && Reading(r, from) && r.count == f.count + 8 && r.modeByte == f.modeByte && r.sreg == f.sreg
            && r.addr == f.addr + 1 && (f.addr < MEM_BYTES ==> r.oreg % 256 == f.mem[f.addr])
  {
    hide Edges, ByteStep, Spells;
    QuadStep(f, ds, PairValue(ds));
    ReadFetch(f, PairValue(ds), from);
  }

  // ---- data --------------------------------------------------------------------------------

  /** Each byte as two nibbles, high half first. */
  function Nibbles(bytes: seq<byte>): (r: seq<nibble>)
    ensures |r| == 2 * |bytes|
  {
    if |bytes| == 0 then [] else [bytes[0] / 16, bytes[0] % 16] + Nibbles(bytes[1..])
  }

  lemma ShownByte(f: Flash, ds: seq<nibble>, from: nat)
    requires Reading(f, from) && from + 48 <= f.count < WORD - 8 && |ds| == 2
    ensures EdgeOutputs(f, ds) == [f.oreg % 256 / 16, f.oreg % 256 % 16]
  {
    hide Edges, EdgeOutputs, ByteStep, Spells;
    QuadByteEdges(f, ds, PairValue(ds));
    ReadFetch(f, PairValue(ds), from);
    Halves(f.oreg);
  }

  lemma Halves(x: nat)
    ensures x % 256 / 16 == x / 16 % 16 && x % 256 % 16 == x % 16
  {
    var q, h, l := x / 256, x % 256 / 16, x % 256 % 16;
    assert x == (q * 16 + h) * 16 + l;
    Ring.ModShift(q * 16 + h, l, 16);
    Ring.ModShift(q, h, 16);
  }

  /** Two edges per byte return the memory from the byte in the output register on. */
  lemma {:induction false} ReadData(f: Flash, ds: seq<nibble>, n: nat, from: nat)
    requires Reading(f, from) && from + 48 <= f.count && f.count + 8 * n < WORD - 8 && |ds| == 2 * n
    requires 0 < f.addr && f.addr - 1 + n <= MEM_BYTES
    requires n > 0 ==> f.oreg % 256 == f.mem[f.addr - 1]
    ensures EdgeOutputs(f, ds) == Nibbles(f.mem[f.addr - 1..f.addr - 1 + n])
    ensures var r := Edges(f, ds); Reading(r, from) && r.modeByte == f.modeByte && r.sreg == f.sreg
    decreases n
  {
    hide Edges, EdgeOutputs;
    if n == 0 {
      NoEdges(f, ds);
    } else {
      var g := Edges(f, ds[..2]);
      ShownByte(f, ds[..2], from);
      FetchEdges(f, ds[..2], from);
      assert ds == ds[..2] + ds[2..];
      EdgesAppend(f, ds[..2], ds[2..]);
      ReadData(g, ds[2..], n - 1, from);
      var bytes := f.mem[f.addr - 1..f.addr - 1 + n];
      assert bytes[1..] == g.mem[g.addr - 1..g.addr - 1 + (n - 1)];
    }
  }
}
