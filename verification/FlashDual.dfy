/** Reads of the memory on two data lines (command 0xbb), cold and continued. */
module FlashDual {
  import opened FixedPoint
  import opened FlashSpec
  import opened FlashInvariant
  import opened FlashWire
  import opened FlashTransactions
  import opened FlashSession
  import FlashCommands
  import Ring

  // ---- bytes on two lines --------------------------------------------------------------------

  function FourPairs(p0: int, p1: int, p2: int, p3: int): int { 64 * p0 + 16 * p1 + 4 * p2 + p3 }

  /** Four edges spell a byte, two bits each, highest first. */
  predicate DualSpells(ds: seq<nibble>, b: byte) {
    |ds| == 4 && b == FourPairs(ds[0] % 4, ds[1] % 4, ds[2] % 4, ds[3] % 4)
  }

  function DualByte(ds: seq<nibble>): (b: byte)
    requires |ds| == 4
    ensures DualSpells(ds, b)
  {
    FourPairs(ds[0] % 4, ds[1] % 4, ds[2] % 4, ds[3] % 4)
  }

  /** A register with two more bits shifted in. */
  function In2(x: nat, d: nat): word { (x * 4 + d) % WORD }

  /** Two shifts by two bits. */
  lemma TwoByTwo(x: nat, d: nat, e: nat)
    ensures ((x * 4 + d) % WORD * 4 + e) % WORD == (x * 16 + (4 * d + e)) % WORD
  {
    var q := (x * 4 + d) / WORD;
    assert x * 16 + (4 * d + e) == (x * 4 + d) % WORD * 4 + e + WORD * (4 * q);
    WordPeriod((x * 4 + d) % WORD * 4 + e, 4 * q);
  }

  lemma FourShifts(x: word, d0: nat, d1: nat, d2: nat, d3: nat)
    ensures In2(In2(In2(In2(x, d0), d1), d2), d3) == (x * 256 + FourPairs(d0, d1, d2, d3)) % WORD
  {
    TwoByTwo(x, d0, d1);
    TwoByTwo((x * 16 + (4 * d0 + d1)) % WORD, d2, d3);
    SixteenMod(x, 4 * d0 + d1, 4 * d2 + d3);
  }

  /** Two more bits of a byte. */
  function Pair(f: Flash, d: nibble): Flash
    requires f.count < WORD - 8
  {
    f.(ireg := In2(f.ireg, d % 4), oreg := In2(f.oreg, 0), count := f.count + 2)
  }

  /** n pairs into a byte. */
  ghost predicate MidByte(f: Flash, n: nat) {
    && f.Valid() && f.mode == Dual && (f.state == DualReadCmd || f.state == DualRead)
    && f.count < WORD - 8 && f.count % 8 == 2 * n
  }

  lemma DualMidEdge(f: Flash, d: nibble, n: nat)
    requires MidByte(f, n) && n < 3 && f.count < WORD - 10
    ensures f.Valid() && f.count < WORD - 8 && Edge(f, d) == Pair(f, d) && MidByte(Pair(f, d), n + 1)
  {
    MidByteEdge(f, d);
  }

  lemma DualThreeEdges(f: Flash, ds: seq<nibble>)
    requires MidByte(f, 0) && f.count < WORD - 16 && |ds| == 4
    ensures f.Valid() && f.count < WORD - 8
    ensures Edges(f, ds[..1]) == Pair(f, ds[0])
    ensures Pair(f, ds[0]).count < WORD - 8 && Edges(f, ds[..2]) == Pair(Pair(f, ds[0]), ds[1])
    ensures Pair(Pair(f, ds[0]), ds[1]).count < WORD - 8
    ensures Edges(f, ds[..3]) == Pair(Pair(Pair(f, ds[0]), ds[1]), ds[2])
    ensures Edges(f, ds) == Edge(Edges(f, ds[..3]), ds[3])
  {
    hide Edge, Edges, MidByte, Pair;
    MidByteValid(f, 0);
    NoEdges(f, ds[..0]);
    NextEdges(f, ds, 0);
    DualMidEdge(f, ds[0], 0);
    var f1 := Pair(f, ds[0]);
    PairCount(f, ds[0]);
    NextEdges(f, ds, 1);
    DualMidEdge(f1, ds[1], 1);
    PairCount(f1, ds[1]);
    NextEdges(f, ds, 2);
    DualMidEdge(Pair(f1, ds[1]), ds[2], 2);
    NextEdges(f, ds, 3);
    assert ds[..4] == ds;
  }

  lemma MidByteValid(f: Flash, n: nat)
    requires MidByte(f, n)
    ensures f.Valid() && f.mode == Dual && f.state != QuadReadIdle && f.state != DualReadIdle
  {
  }

  lemma PairCount(f: Flash, d: nibble)
    requires f.count < WORD - 8
    ensures Pair(f, d).count == f.count + 2
  {
  }

  lemma NextEdges(f: Flash, ds: seq<nibble>, k: nat)
    requires f.Valid() && k < |ds|
    ensures Edges(f, ds[..k + 1]) == Edge(Edges(f, ds[..k]), ds[k])
  {
    hide Edge, Edges;
    LastEdge(f, ds[..k + 1]);
    assert ds[..k + 1][..k] == ds[..k];
  }

  /** The four edges of a byte process one byte boundary. */
  lemma DualByteEdges(f: Flash, ds: seq<nibble>, b: byte)
    requires MidByte(f, 0) && f.count < WORD - 16 && DualSpells(ds, b)
    ensures f.Valid() && Edges(f, ds) == ByteStep(f, b)
  {
    hide Edge, Edges, Process, In2, FourPairs;
    DualThreeEdges(f, ds);
    FourShifts(f.ireg, ds[0] % 4, ds[1] % 4, ds[2] % 4, ds[3] % 4);
    FourShifts(f.oreg, 0, 0, 0, 0);
    assert FourPairs(0, 0, 0, 0) == 0 by { NoPairs(); }
    var g := Edges(f, ds[..3]);
    DualLastShift(f, g, ds[3], b);
    EdgeIs(g, ds[3]);
  }

  lemma NoPairs()
    ensures FourPairs(0, 0, 0, 0) == 0
  {
  }

  lemma EdgeIs(f: Flash, d: nibble)
    requires f.Valid()
    ensures ShiftIn(f, d).Valid() && Edge(f, d) == Process(ShiftIn(f, d))
  {
    hide Process;
  }

  lemma DualLastShift(f: Flash, g: Flash, d: nibble, b: byte)
    requires f.Valid() && f.mode == Dual && f.count < WORD - 8
    requires g == f.(ireg := g.ireg, oreg := g.oreg, count := f.count + 6)
    requires In2(g.ireg, d % 4) == (f.ireg * 256 + b) % WORD && In2(g.oreg, 0) == f.oreg * 256 % WORD
    ensures ShiftIn(g, d) == ByteShifted(f, b)
  {
  }

  // ---- what the host sees ----------------------------------------------------------------------

  /** Samples i to i + 3 are the four pairs of bits of b on data lines 1 and 0, highest first. */
  predicate ShowsPairs(outs: seq<nibble>, i: nat, b: byte) {
    && i + 4 <= |outs|
    && FourPairs(outs[i] % 4, outs[i + 1] % 4, outs[i + 2] % 4, outs[i + 3] % 4) == b
  }

  ghost predicate ShowsDual(outs: seq<nibble>, bytes: seq<byte>) {
    |outs| == 4 * |bytes| && forall i: nat :: i < |bytes| ==> ShowsPairs(outs, 4 * i, bytes[i])
  }

  lemma ShowsDualMore(first: seq<nibble>, b: byte, rest: seq<nibble>, bytes: seq<byte>)
    requires |first| == 4 && ShowsPairs(first, 0, b) && ShowsDual(rest, bytes)
    ensures ShowsDual(first + rest, [b] + bytes)
  {
    hide FourPairs;
    var outs := first + rest;
    forall i: nat | i < 1 + |bytes| ensures ShowsPairs(outs, 4 * i, ([b] + bytes)[i]) {
      if i > 0 {
        assert ShowsPairs(rest, 4 * (i - 1), bytes[i - 1]);
        assert outs[4 * i..4 * i + 4] == rest[4 * (i - 1)..4 * (i - 1) + 4];
      }
    }
  }

  lemma DualOutput(f: Flash, d: nibble)
    requires f.mode == Dual
    ensures Output(f, d) % 4 == f.oreg / 256 % 4
  {
  }

  /** Bits 8 and 9 of a register shifted by m are bits that far below. */
  lemma TopPair(x: nat, m: nat, r: nat)
    requires m > 0 && r > 0 && m * r == 256
    ensures x * m % WORD / 256 % 4 == x / r % 4
  {
    var q := x * m / WORD;
    var a, b := x / r, x % r;
    assert x * m == a * 256 + b * m by {
      assert x == a * r + b;
      assert (a * r + b) * m == a * (r * m) + b * m;
    }
    assert 0 <= b * m < 256 by { TimesLess(b, r, m); }
    Ring.ModShift(a - q * 0x100_0000, b * m, 256);
    assert x * m % WORD == (a - q * 0x100_0000) * 256 + b * m;
    assert (a - q * 0x100_0000) % 4 == a % 4 by { Ring.ModShift((a / 4) - q * 0x40_0000, a % 4, 4); }
  }

  lemma QuarterTwice(x: nat)
    ensures x / 16 == x / 4 / 4
  {
    var q, r, t := x / 4 / 4, x / 4 % 4, x % 4;
    assert x == q * 16 + (4 * r + t);
    Ring.ModShift(q, 4 * r + t, 16);
  }

  lemma ByteOfPairs(x: nat)
    ensures FourPairs(x / 64 % 4, x / 16 % 4, x / 4 % 4, x % 4) == x % 256
  {
    QuarterTwice(x);
    QuarterTwice(x / 4);
    SixtyFourth(x);
    LowFour(x, x / 4, x / 16, x / 64);
  }

  lemma SixtyFourth(x: nat)
    ensures x / 64 == x / 4 / 16
  {
    var q, r, t := x / 4 / 16, x / 4 % 16, x % 4;
    assert x == q * 64 + (4 * r + t);
    Ring.ModShift(q, 4 * r + t, 64);
  }

  lemma LowFour(x: nat, a: nat, b: nat, c: nat)
    requires a == x / 4 && b == a / 4 && c == b / 4
    ensures FourPairs(c % 4, b % 4, a % 4, x % 4) == x % 256
  {
    var low := FourPairs(c % 4, b % 4, a % 4, x % 4);
    assert x == c / 4 * 256 + low;
    Ring.ModShift(c / 4, low, 256);
  }

  lemma ThreeShifts(x: word)
    ensures In2(x, 0) == x * 4 % WORD && In2(In2(x, 0), 0) == x * 16 % WORD
    ensures In2(In2(In2(x, 0), 0), 0) == x * 64 % WORD
  {
    TwoByTwo(x, 0, 0);
    var q := x * 16 / WORD;
    assert x * 64 == x * 16 % WORD * 4 + WORD * (4 * q);
    WordPeriod(x * 16 % WORD * 4, 4 * q);
  }

  /** Four edges show the low byte of the output register, if the boundary at the end only
      replaces that byte. */
  lemma DualShownByte(f: Flash, ds: seq<nibble>, b: byte)
    requires MidByte(f, 0) && f.count < WORD - 16 && DualSpells(ds, b)
    requires f.Valid() && ByteStep(f, b).mode == Dual && ByteStep(f, b).oreg / 256 == ByteShifted(f, b).oreg / 256
    ensures ShowsPairs(EdgeOutputs(f, ds), 0, f.oreg % 256)
  {
    hide Edge, Edges, EdgeOutputs, ByteStep, Output, FourPairs, In2;
    DualThreeEdges(f, ds);
    DualByteEdges(f, ds, b);
    ThreeShifts(f.oreg);
    TopPair(f.oreg, 4, 64);
    TopPair(f.oreg, 16, 16);
    TopPair(f.oreg, 64, 4);
    TopPair(f.oreg, 256, 1);
    ByteOfPairs(f.oreg);
    assert ds[..4] == ds;
    FlashCommands.EdgeOutputAt(f, ds, 0);
    FlashCommands.EdgeOutputAt(f, ds, 1);
    FlashCommands.EdgeOutputAt(f, ds, 2);
    FlashCommands.EdgeOutputAt(f, ds, 3);
    DualOutput(Edges(f, ds[..1]), ds[0]);
    DualOutput(Edges(f, ds[..2]), ds[1]);
    DualOutput(Edges(f, ds[..3]), ds[2]);
    DualOutput(Edges(f, ds), ds[3]);
  }

  // ---- address and mode byte -------------------------------------------------------------------

  /** n pairs into a byte of the address of a continued read. */
  ghost predicate IdleMid(f: Flash, n: nat) {
    f.Valid() && f.mode == Dual && f.state == DualReadIdle && f.count % 8 == 2 * n && f.count < WORD - 16 + 2 * n
  }

  lemma IdleDualEdge(f: Flash, d: nibble, n: nat)
    requires IdleMid(f, n) && n < 3
    ensures f.Valid() && Edge(f, d) == IdlePair(f, d) && IdleMid(IdlePair(f, d), n + 1)
  {
    assert (f.count + 2) % 8 != 0;
  }

  function IdlePair(f: Flash, d: nibble): Flash {
    f.(ireg := In2(f.ireg, d % 4), oreg := 0, count := (f.count + 2) % WORD)
  }

  /** A byte of the address of a continued read. */
  lemma IdleDualByteEdges(f: Flash, ds: seq<nibble>, b: byte)
    requires f.Valid() && f.mode == Dual && f.state == DualReadIdle
    requires f.count % 8 == 0 && f.count < WORD - 16 && DualSpells(ds, b)
    ensures Edges(f, ds) == ByteStep(f, b)
  {
    hide Edge, Edges, In2, FourPairs, ByteStep, IdlePair;
    IdleDualThree(f, ds);
    ThreeIdlePairs(f, ds[0], ds[1], ds[2]);
    FourShifts(f.ireg, ds[0] % 4, ds[1] % 4, ds[2] % 4, ds[3] % 4);
    IdleDualLast(f, Edges(f, ds[..3]), ds[3], b);
  }

  lemma IdleDualThree(f: Flash, ds: seq<nibble>)
    requires IdleMid(f, 0) && |ds| == 4
    ensures f.Valid() && Edges(f, ds[..3]) == IdlePair(IdlePair(IdlePair(f, ds[0]), ds[1]), ds[2])
    ensures Edges(f, ds) == Edge(Edges(f, ds[..3]), ds[3])
  {
    hide Edge, Edges, IdlePair, IdleMid;
    IdleDualEdge(f, ds[0], 0);
    NoEdges(f, ds[..0]);
    NextEdges(f, ds, 0);
    var f1 := IdlePair(f, ds[0]);
    IdleDualEdge(f1, ds[1], 1);
    NextEdges(f, ds, 1);
    IdleDualEdge(IdlePair(f1, ds[1]), ds[2], 2);
    NextEdges(f, ds, 2);
    NextEdges(f, ds, 3);
    assert ds[..4] == ds;
  }

  lemma ThreeIdlePairs(f: Flash, d0: nibble, d1: nibble, d2: nibble)
    requires f.count < WORD - 16
    ensures IdlePair(IdlePair(IdlePair(f, d0), d1), d2)
         == f.(ireg := In2(In2(In2(f.ireg, d0 % 4), d1 % 4), d2 % 4), oreg := 0, count := f.count + 6)
  {
    hide In2;
  }

  lemma IdleDualLast(f: Flash, g: Flash, d: nibble, b: byte)
    requires f.Valid() && f.mode == Dual && f.state == DualReadIdle && f.count < WORD - 16
    requires g == f.(ireg := g.ireg, oreg := g.oreg, count := f.count + 6)
    requires In2(g.ireg, d % 4) == (f.ireg * 256 + b) % WORD
    ensures Edge(g, d) == ByteStep(f, b)
  {
  }

  lemma DualStep(f: Flash, ds: seq<nibble>, b: byte)
    requires f.Valid() && f.mode == Dual && (f.state == DualReadCmd || f.state == DualRead || f.state == DualReadIdle)
    requires f.count % 8 == 0 && f.count < WORD - 16 && DualSpells(ds, b)
    ensures Edges(f, ds) == ByteStep(f, b)
  {
    hide Edges, ByteStep, FourPairs;
    if f.state == DualReadIdle {
      IdleDualByteEdges(f, ds, b);
    } else {
      DualByteEdges(f, ds, b);
    }
  }

  /** A dual read whose address is still to come, `from` bits into the transaction. */
  ghost predicate DualAddressing(f: Flash, from: nat) {
    && f.Valid() && f.mode == Dual
    && ((f.state == DualReadCmd && from == 8) || (f.state == DualReadIdle && from == 0))
    && from <= f.count < from + 24 && f.count % 8 == 0 && f.writeCount == 0 && !f.sreg.wip && !f.sreg.deepSleep
  }

  /** The address is complete. */
  ghost predicate DualReading(f: Flash, from: nat) {
    && f.Valid() && f.mode == Dual
    && ((f.state == DualReadCmd && from == 8) || (f.state == DualRead && from == 0))
    && f.count >= from + 24 && f.count % 8 == 0 && f.writeCount == 0 && !f.sreg.wip && !f.sreg.deepSleep
  }

  lemma DualAddressStep(f: Flash, b: byte, from: nat)
    requires DualAddressing(f, from) && f.count < from + 16
    ensures ByteStep(f, b) == ByteShifted(f, b).(oreg := 0)
  {
    if f.state == DualReadCmd {
      hide ByteStep;
      OutBoundary(f, b);
      assert DataOut(Load(ByteShifted(f, b), 0)) == ByteShifted(f, b).(oreg := 0);
    } else {
      hide Decode, ByteDone;
    }
  }

  lemma DualLastAddressStep(f: Flash, b: byte, from: nat)
    requires DualAddressing(f, from) && f.count == from + 16
    ensures var g, r := ByteShifted(f, b), ByteStep(f, b);
            && r == g.(addr := g.ireg % MEM_BYTES, oreg := r.oreg, state := r.state)
            && r.state == if from == 8 then DualReadCmd else DualRead
  {
    hide Decode, DataIn;
  }

  lemma DualAddressByte(f: Flash, ds: seq<nibble>, b: byte, from: nat)
    requires DualAddressing(f, from) && f.count < from + 16 && f.ireg < 0x100_0000 && DualSpells(ds, b)
    ensures var r := Edges(f, ds);
            DualAddressing(r, from) && r.count == f.count + 8 && r.ireg == f.ireg * 256 + b
  {
    hide Edges, FourPairs, ByteStep;
    DualStep(f, ds, b);
    DualAddressStep(f, b, from);
  }

  lemma DualLastAddressByte(f: Flash, ds: seq<nibble>, b: byte, a: address, from: nat)
    requires DualAddressing(f, from) && f.count == from + 16 && f.ireg < 0x100_0000 && DualSpells(ds, b)
    requires (f.ireg * 256 + b) % MEM_BYTES == a
    ensures var r := Edges(f, ds);
            DualReading(r, from) && r.count == from + 24 && r.addr == a
  {
    hide Edges, FourPairs, ByteStep;
    DualStep(f, ds, b);
    DualLastAddressStep(f, b, from);
  }

  lemma DualBoundary(f: Flash, b: byte, from: nat)
    requires DualReading(f, from) && f.count < WORD - 16
    ensures var g := Load(ByteShifted(f, b), 0);
            && ByteStep(f, b) == DataOut(g) && g.count == f.count + 8
            && DataOut(g) == Fetch(if f.count == from + 24 then g.(modeByte := g.ireg % 256) else g)
  {
    hide Decode, DataIn;
    assert ByteShifted(f, b).count % 8 == 0;
  }

  /** Every boundary after the address fetches; the first one also takes the mode byte. */
  lemma DualFetch(f: Flash, ds: seq<nibble>, b: byte, from: nat)
    requires DualReading(f, from) && f.count < WORD - 16 && f.addr <= MEM_BYTES && DualSpells(ds, b)
    ensures var r := Edges(f, ds);
            && DualReading(r, from) && r.count == f.count + 8 && r.addr == f.addr + 1
            && r.modeByte == (if f.count == from + 24 then b else f.modeByte)
            && (f.addr < MEM_BYTES ==> r.oreg % 256 == f.mem[f.addr])
            && r == ByteStep(f, b) && r.oreg / 256 == ByteShifted(f, b).oreg / 256
  {
    hide Edges, ByteStep, DataOut, FourPairs, Fetch, Load;
    DualStep(f, ds, b);
    DualBoundary(f, b, from);
    LowByteShifted(f.ireg, b);
    var g := ByteShifted(f, b);
    FetchedNext(g, if f.count == from + 24 then g.ireg % 256 else g.modeByte);
  }

  lemma FetchedNext(g: Flash, m: byte)
    requires g.Valid() && g.addr <= MEM_BYTES
    ensures Load(g, 0).count == g.count && Load(g, 0).ireg == g.ireg && Load(g, 0).modeByte == g.modeByte
    ensures Load(g, 0).(modeByte := g.modeByte) == Load(g, 0)
    ensures var r := Fetch(Load(g, 0).(modeByte := m));
            && r == g.(addr := g.addr + 1, oreg := r.oreg, modeByte := m) && r.oreg / 256 == g.oreg / 256
            && (g.addr < MEM_BYTES ==> r.oreg % 256 == g.mem[g.addr])
  {
    FlashCommands.LowReplaced(g, if g.addr < MEM_BYTES then g.mem[g.addr] else 0);
  }

  /** Address and mode byte. */
  predicate DualLocates(ds: seq<nibble>, a: address, m: byte) {
    && |ds| == 16 && DualSpells(ds[..4], TopByte(a)) && DualSpells(ds[4..8], MiddleByte(a))
    && DualSpells(ds[8..12], LowByte(a)) && DualSpells(ds[12..], m)
  }

  lemma DualAddressValid(f: Flash, from: nat)
    requires DualAddressing(f, from)
    ensures f.Valid()
  {
  }

  lemma DualTwoBytes(f: Flash, d1: seq<nibble>, d2: seq<nibble>, b1: byte, b2: byte, from: nat)
    requires DualAddressing(f, from) && f.count == from && f.ireg < 256 && DualSpells(d1, b1) && DualSpells(d2, b2)
    ensures var r := Edges(f, d1 + d2);
            && DualAddressing(r, from) && r.count == from + 16 && r.ireg == (f.ireg * 256 + b1) * 256 + b2
  {
    hide Edges, DualSpells, DualAddressing;
    DualAddressValid(f, from);
    EdgesAppend(f, d1, d2);
    DualAddressByte(f, d1, b1, from);
    DualAddressByte(Edges(f, d1), d2, b2, from);
  }

  lemma DualAddressEdges(f: Flash, d1: seq<nibble>, d2: seq<nibble>, d3: seq<nibble>, a: address, from: nat)
    requires DualAddressing(f, from) && f.count == from && f.ireg < 256
    requires DualSpells(d1, TopByte(a)) && DualSpells(d2, MiddleByte(a)) && DualSpells(d3, LowByte(a))
    ensures var r := Edges(f, d1 + d2 + d3); DualReading(r, from) && r.count == from + 24 && r.addr == a
  {
    hide Edges, DualSpells, DualAddressing, DualReading, TopByte, MiddleByte, LowByte;
    DualAddressValid(f, from);
    EdgesAppend(f, d1 + d2, d3);
    DualTwoBytes(f, d1, d2, TopByte(a), MiddleByte(a), from);
    AddressValue(f.ireg, a);
    DualLastAddressByte(Edges(f, d1 + d2), d3, LowByte(a), a, from);
  }

  lemma DualHead(f: Flash, ds: seq<nibble>, a: address, m: byte, from: nat)
    requires DualAddressing(f, from) && f.count == from && f.ireg < 256 && DualLocates(ds, a, m) && from <= 8
    ensures var r := Edges(f, ds);
            && DualReading(r, from) && r.count == from + 32 && r.addr == a + 1 && r.modeByte == m
            && r.oreg % 256 == f.mem[a]
  {
    hide Edges, DualSpells, DualAddressing, DualReading, TopByte, MiddleByte, LowByte;
    DualAddressValid(f, from);
    var d1, d2, d3, d4 := ds[..4], ds[4..8], ds[8..12], ds[12..];
    assert ds == d1 + d2 + d3 + d4;
    EdgesAppend(f, d1 + d2 + d3, d4);
    DualAddressEdges(f, d1, d2, d3, a, from);
    DualFetch(Edges(f, d1 + d2 + d3), d4, m, from);
  }

  // ---- data ------------------------------------------------------------------------------------

  lemma DualReadingMid(f: Flash, from: nat)
    requires DualReading(f, from) && f.count < WORD - 16
    ensures MidByte(f, 0) && f.Valid() && f.mode == Dual
  {
  }

  /** From the byte in the output register on, four edges per byte show the memory. */
  lemma {:induction false} DualData(f: Flash, ds: seq<nibble>, n: nat, from: nat)
    requires DualReading(f, from) && f.count >= from + 32 && f.count + 8 * n < WORD - 16 && |ds| == 4 * n
    requires 0 < f.addr && f.addr - 1 + n <= MEM_BYTES && (n > 0 ==> f.oreg % 256 == f.mem[f.addr - 1])
    ensures f.Valid() && ShowsDual(EdgeOutputs(f, ds), f.mem[f.addr - 1..f.addr - 1 + n])
    ensures DualReading(Edges(f, ds), from) && Edges(f, ds).modeByte == f.modeByte
    decreases n
  {
    hide Edges, EdgeOutputs, ByteStep, ByteShifted, ShowsPairs, ShowsDual, DualReading, DualSpells, MidByte, FourPairs;
    DualReadingMid(f, from);
    DualReadingCount(f, from);
    var bytes := f.mem[f.addr - 1..f.addr - 1 + n];
    if n == 0 {
      NoDual(f, ds);
      assert bytes == [];
    } else {
      var first, rest, b := ds[..4], ds[4..], DualByte(ds[..4]);
      DualFetch(f, first, b, from);
      DualReadingMid(ByteStep(f, b), from);
      DualShownByte(f, first, b);
      assert ds == first + rest;
      EdgesAppend(f, first, rest);
      var g := Edges(f, first);
      DualData(g, rest, n - 1, from);
      assert bytes == [f.mem[f.addr - 1]] + g.mem[g.addr - 1..g.addr - 1 + (n - 1)];
      ShowsDualMore(EdgeOutputs(f, first), f.oreg % 256, EdgeOutputs(g, rest), bytes[1..]);
    }
  }

  lemma DualReadingCount(f: Flash, from: nat)
    requires DualReading(f, from)
    ensures f.count >= from + 24
  {
  }

  lemma NoDual(f: Flash, ds: seq<nibble>)
    requires f.Valid() && |ds| == 0
    ensures Edges(f, ds) == f && EdgeOutputs(f, ds) == [] && ShowsDual([], [])
  {
  }

  // ---- transactions ----------------------------------------------------------------------------

  /** Between transactions, in the continuous dual read mode. */
  ghost predicate DualReadingOn(s: Sim) {
    && s.lastSck && s.flash.Valid() && s.flash.mode == Dual && s.flash.state == DualReadIdle
    && s.flash.count == 0 && s.flash.ireg == 0 && s.flash.writeCount == 0
    && !s.flash.sreg.wip && !s.flash.sreg.deepSleep
  }

  /** The edges of a dual read of n bytes: command (unless it continues an earlier read),
      address, mode byte, and four clocks per byte. */
  predicate SendsDual(ds: seq<nibble>, cold: bool, a: address, m: byte, n: nat) {
    var k := Lead(cold);
    && |ds| == k + 16 + 4 * n && (cold ==> Spells(Spi, ds[..8], 0xbb)) && DualLocates(ds[k..k + 16], a, m)
  }

  lemma DualCommand(f: Flash, ds: seq<nibble>)
    requires Ready(f) && Spells(Spi, ds, 0xbb)
    ensures var r := Edges(f, ds); DualAddressing(r, 8) && r.count == 8 && r.ireg < 256
  {
    hide Edges, Spells;
    CommandEdges(f, ds, 0xbb);
  }

  lemma DualBody(f: Flash, ds: seq<nibble>, a: address, m: byte, n: nat, from: nat)
    requires DualAddressing(f, from) && f.count == from && f.ireg < 256 && |ds| == 16 + 4 * n
    requires DualLocates(ds[..16], a, m) && a + n <= MEM_BYTES
    ensures f.Valid() && ShowsDual(EdgeOutputs(f, ds)[16..], f.mem[a..a + n])
    ensures DualReading(Edges(f, ds), from) && Edges(f, ds).modeByte == m
  {
    hide Edges, EdgeOutputs, DualLocates, DualReading, ShowsDual;
    var head, data := ds[..16], ds[16..];
    assert ds == head + data && from <= 8;
    DualHead(f, head, a, m, from);
    EdgesAppend(f, head, data);
    DualData(Edges(f, head), data, n, from);
  }

  lemma DualEdges(f: Flash, ds: seq<nibble>, cold: bool, a: address, m: byte, n: nat)
    requires if cold then Ready(f) else DualReadingOn(Sim(f, true))
    requires SendsDual(ds, cold, a, m, n) && a + n <= MEM_BYTES
    ensures f.Valid() && |ds| >= Lead(cold) + 16
    ensures ShowsDual(EdgeOutputs(f, ds)[Lead(cold) + 16..], f.mem[a..a + n])
    ensures DualReading(Edges(f, ds), Lead(cold)) && Edges(f, ds).modeByte == m
  {
    hide Edges, EdgeOutputs, Spells, DualLocates, DualReading, ShowsDual;
    var k := Lead(cold);
    var head, body := ds[..k], ds[k..];
    assert ds == head + body && body[..16] == ds[k..k + 16];
    EdgesAppend(f, head, body);
    if cold {
      DualCommand(f, head);
    } else {
      NoEdges(f, head);
    }
    DualBody(Edges(f, head), body, a, m, n, k);
    assert EdgeOutputs(f, ds)[k + 16..] == EdgeOutputs(Edges(f, head), body)[16..];
  }

  lemma DualEnds(g: Flash, from: nat)
    requires DualReading(g, from)
    ensures g.writeCount == 0
    ensures var s := Sim(Deselect(g), true);
            && s.flash.mem == g.mem
            && if g.modeByte / 16 == 0xA then DualReadingOn(s) else Resting(s)
  {
  }

  lemma {:induction false} DualHigh(s: Sim, w: seq<Pins>)
    requires DualReadingOn(s) && Deselected(w)
    ensures DualReadingOn(Run(s, w)) && Run(s, w).flash.mem == s.flash.mem
    decreases |w|
  {
    if |w| > 0 {
      DualHigh(Step(s, w[0]), w[1..]);
    }
  }

  lemma DualCalm(s: Sim)
    requires Resting(s) || DualReadingOn(s)
    ensures Calm(s.flash) && s.flash.count == 0 && s.lastSck
  {
  }

  /** A dual read, cold or continued, returns the memory, two bits per clock, and changes
      nothing; a mode byte 0xA? keeps the flash in the continuous read mode. */
  lemma DualReadBack(s: Sim, t: Txn, cold: bool, a: address, m: byte, n: nat)
    requires (if cold then Resting(s) else DualReadingOn(s)) && Timed(t, 1)
    requires SendsDual(Data(t), cold, a, m, n) && a + n <= MEM_BYTES
    ensures s.flash.Valid()
    ensures var outs := FallOutputs(s, t.low);
            |outs| >= Lead(cold) + 16 && ShowsDual(outs[Lead(cold) + 16..], s.flash.mem[a..a + n])
    ensures var r := RunTxn(s, t);
            r.flash.mem == s.flash.mem && if m / 16 == 0xA then DualReadingOn(r) else Resting(r)
  {
    hide Edges, EdgeOutputs, SendsDual, ShowsDual, DualReading, Resting, DualReadingOn, Deselect, Calm, Ready;
    DualCalm(s);
    RestingOrOn(s, cold);
    DualEdges(s.flash, Data(t), cold, a, m, n);
    SelectedRun(s, t.low);
    var g := Edges(s.flash, Data(t));
    DualEnds(g, Lead(cold));
    var r := Sim(Deselect(g), true);
    FirstRaised(Run(s, t.low), t.high, g);
    if m / 16 == 0xA {
      DualHigh(r, t.high[1..]);
    } else {
      RestingStays(r, t.high[1..]);
    }
  }

  lemma RestingOrOn(s: Sim, cold: bool)
    requires if cold then Resting(s) else DualReadingOn(s)
    ensures s.flash.Valid() && if cold then Ready(s.flash) else DualReadingOn(Sim(s.flash, true))
  {
  }

  lemma FirstRaised(s: Sim, w: seq<Pins>, g: Flash)
    requires s.flash == g && g.Valid() && g.writeCount == 0 && |w| > 0 && Deselected(w)
    ensures Run(s, w) == Run(Sim(Deselect(g), true), w[1..])
  {
    hide Deselect;
  }

  lemma RestingStays(s: Sim, w: seq<Pins>)
    requires Resting(s) && Deselected(w)
    ensures Resting(Run(s, w)) && Run(s, w).flash.mem == s.flash.mem
  {
    HighPart(s, w);
  }
}
