/** The transactions on the one-bit bus beside program, sector erase and quad read: write
    disable, refused writes, bulk erase, and what the host sees on the data line when it
    reads the status register or the memory. */
module FlashCommands {
  import opened FixedPoint
  import opened FlashSpec
  import opened FlashInvariant
  import opened FlashWire
  import opened FlashTransactions
  import opened FlashSession
  import Ring

  // ---- bytes on the output line --------------------------------------------------------------

  /** Sample number i + k of data line 1 is bit 7 - k of b. */
  predicate ShowsBit(outs: seq<nibble>, i: nat, b: byte, k: nat)
    requires k < 8 && i + 8 <= |outs|
  {
    HasBit(outs[i + k], 1) <==> HasBit(b, 7 - k)
  }

  /** From number i on, eight samples of data line 1 are the bits of b, highest first. */
  ghost predicate Shows(outs: seq<nibble>, i: nat, b: byte) {
    i + 8 <= |outs| && forall k: nat :: k < 8 ==> ShowsBit(outs, i, b, k)
  }

  ghost predicate ShowsBytes(outs: seq<nibble>, bytes: seq<byte>) {
    |outs| == 8 * |bytes| && forall i: nat :: i < |bytes| ==> Shows(outs, 8 * i, bytes[i])
  }

  lemma ShowsMore(first: seq<nibble>, b: byte, rest: seq<nibble>, bytes: seq<byte>)
    requires |first| == 8 && Shows(first, 0, b) && ShowsBytes(rest, bytes)
    ensures ShowsBytes(first + rest, [b] + bytes)
  {
    hide HasBit;
    var outs := first + rest;
    forall i: nat | i < 1 + |bytes| ensures Shows(outs, 8 * i, ([b] + bytes)[i]) {
      forall k: nat | k < 8 ensures ShowsBit(outs, 8 * i, ([b] + bytes)[i], k) {
        if i == 0 {
          assert ShowsBit(first, 0, b, k);
        } else {
          assert Shows(rest, 8 * (i - 1), bytes[i - 1]) && ShowsBit(rest, 8 * (i - 1), bytes[i - 1], k);
          assert outs[8 * i + k] == rest[8 * (i - 1) + k];
        }
      }
    }
  }

  lemma OutputBit(f: Flash, d: nibble)
    requires f.mode == Spi
    ensures HasBit(Output(f, d), 1) <==> HasBit(f.oreg, 8)
  {
    assert Pow2(1) == 2 && Pow2(8) == 256;
  }

  lemma {:induction false} EdgeOutputAt(f: Flash, ds: seq<nibble>, k: nat)
    requires f.Valid() && k < |ds|
    ensures EdgeOutputs(f, ds)[k] == Output(Edges(f, ds[..k + 1]), ds[k])
    decreases k
  {
    hide Edge, Output;
    if k > 0 {
      EdgeOutputAt(Edge(f, ds[0]), ds[1..], k - 1);
      assert ds[..k + 1][1..] == ds[1..][..k];
    } else {
      OneEdge(f, ds[0]);
      assert ds[..1] == [ds[0]];
    }
  }

  /** After j shifts bit 8 is what bit 8 - j was. */
  lemma ShiftedBit(x: word, j: nat)
    requires 1 <= j <= 8
    ensures HasBit(BitsIn(x, j, 0), 8) <==> HasBit(x, 8 - j)
  {
    var m, r := Pow2(j), Pow2(8 - j);
    Pow2Sum(j, 8 - j);
    assert Pow2(8) == 256;
    TopBit(x, m, r);
  }

  lemma TopBit(x: nat, m: nat, r: nat)
    requires m > 0 && r > 0 && m * r == 256
    ensures x * m % WORD / 256 % 2 == x / r % 2
  {
    var q := x * m / WORD;
    var a, b := x / r, x % r;
    assert x * m == a * 256 + b * m by {
      assert x == a * r + b;
      assert (a * r + b) * m == a * (r * m) + b * m;
    }
    assert 0 <= b * m < 256 by { TimesLess(b, r, m); }
    Ring.ModShift(a - q * 0x100_0000, b * m, 256);
    assert x * m % WORD == (a - q * 0x100_0000) * 256 + b * m;
    assert (a - q * 0x100_0000) % 2 == a % 2 by { Ring.ModShift((a / 2) - q * 0x80_0000, a % 2, 2); }
  }

  /** Eight edges show the low byte of the output register, if the boundary at the end only
      replaces that byte. */
  lemma ShownByte(f: Flash, ds: seq<nibble>, b: byte)
    requires f.Valid() && f.mode == Spi && f.state != QuadReadIdle && f.state != DualReadIdle
    requires f.count % 8 == 0 && f.count < WORD - 8 && Spells(Spi, ds, b)
    requires ByteStep(f, b).mode == Spi && ByteStep(f, b).oreg / 256 == ByteShifted(f, b).oreg / 256
    ensures Shows(EdgeOutputs(f, ds), 0, f.oreg % 256)
  {
    hide Edges, EdgeOutputs, ByteStep, HasBit, BitsIn, Output;
    forall k: nat | k < 8 ensures ShowsBit(EdgeOutputs(f, ds), 0, f.oreg % 256, k) {
      ShownBit(f, ds, b, k);
      LowBit(f.oreg, 7 - k);
    }
  }

  lemma LowBit(x: word, k: nat)
    requires k < 8
    ensures HasBit(x, k) <==> HasBit(x % 256, k)
  {
    Pow2Sum(k, 8 - k);
    assert Pow2(8) == 256 && Pow2(8 - k) == 2 * Pow2(7 - k);
    LowPart256(x, Pow2(k), Pow2(7 - k));
  }

  lemma LowPart256(x: nat, r: nat, half: nat)
    requires r > 0 && r * (2 * half) == 256
    ensures x / r % 2 == x % 256 / r % 2
  {
    var q, a, b := x / 256, x % 256 / r, x % 256 % r;
    assert x == q * 256 + (a * r + b);
    assert q * (r * (2 * half)) == (2 * (q * half)) * r;
    assert x == (2 * (q * half) + a) * r + b;
    Ring.ModShift(2 * (q * half) + a, b, r);
    Ring.ModShift(q * half + a / 2, a % 2, 2);
  }

  lemma ShownBit(f: Flash, ds: seq<nibble>, b: byte, k: nat)
    requires f.Valid() && f.mode == Spi && f.state != QuadReadIdle && f.state != DualReadIdle
    requires f.count % 8 == 0 && f.count < WORD - 8 && Spells(Spi, ds, b) && k < 8
    requires ByteStep(f, b).mode == Spi && ByteStep(f, b).oreg / 256 == ByteShifted(f, b).oreg / 256
    ensures HasBit(EdgeOutputs(f, ds)[k], 1) <==> HasBit(f.oreg, 7 - k)
  {
    hide Edges, EdgeOutputs, ByteStep, HasBit, BitsIn, Output;
    EdgeOutputAt(f, ds, k);
    var g := Edges(f, ds[..k + 1]);
    ShiftedBit(f.oreg, k + 1);
    if k < 7 {
      SpiShift(f, ds[..k + 1]);
    } else {
      assert ds[..8] == ds;
      SpiByteEdges(f, ds, b);
      SameHigh(g.oreg, ByteShifted(f, b).oreg);
      EightIn(f.oreg);
    }
    OutputBit(g, ds[k]);
  }

  lemma SameHigh(x: word, y: word)
    requires x / 256 == y / 256
    ensures HasBit(x, 8) <==> HasBit(y, 8)
  {
    assert Pow2(8) == 256;
  }

  lemma EightIn(x: word)
    ensures BitsIn(x, 8, 0) == x * 256 % WORD
  {
    assert Pow2(8) == 256;
  }

  // ---- transactions --------------------------------------------------------------------------

  /** A transaction after which the flash is at rest. */
  lemma RestingTxn(s: Sim, t: Txn, g: Flash)
    requires Resting(s) && Timed(t, 1) && g == Edges(s.flash, Data(t)) && g.writeCount == 0
    requires Resting(Sim(Deselect(g), true))
    ensures Resting(RunTxn(s, t)) && Like(RunTxn(s, t).flash, Deselect(g))
  {
    hide Edges, Deselect;
    EndTxn(s, t);
    HighPart(Sim(Deselect(g), true), t.high[1..]);
  }

  /** The flash at rest before a command. */
  lemma RestingReady(s: Sim)
    requires Resting(s)
    ensures s.flash.Valid() && Ready(s.flash)
  {
  }

  lemma WriteDisable(s: Sim, t: Txn)
    requires Resting(s) && Timed(t, 1) && Spells(Spi, Data(t), 0x04)
    ensures var r := RunTxn(s, t); Resting(r) && !r.flash.sreg.wel && r.flash.mem == s.flash.mem
  {
    hide Edges, Spells;
    CommandEdges(s.flash, Data(t), 0x04);
    DisabledRests(Load(ByteShifted(s.flash, 0x04), 0xa5));
    RestingTxn(s, t, Edges(s.flash, Data(t)));
  }

  lemma DisabledRests(f: Flash)
    requires f.Valid() && f.mode == Spi && f.writeCount == 0 && !f.sreg.wip && !f.sreg.deepSleep
    ensures var g := Decode(f, 0x04);
            && g.writeCount == 0 && Deselect(g).mem == f.mem && !Deselect(g).sreg.wel
            && Resting(Sim(Deselect(g), true))
  {
  }

  const WRITES: set<byte> := {0x01, 0x02, 0x32, 0xc7, 0xd8}

  /** A write that was not enabled: whatever follows its command is ignored. */
  ghost predicate Refusing(f: Flash) {
    && f.Valid() && f.state == Invalid && f.mode == Spi && f.count >= 8 && f.writeCount == 0
    && !f.sreg.wip && !f.sreg.deepSleep
  }

  lemma RefusingEdge(f: Flash, d: nibble)
    requires Refusing(f) && f.count < WORD - 4
    ensures var r := Edge(f, d); Refusing(r) && r.mem == f.mem && r.sreg == f.sreg && r.count == f.count + 1
  {
    hide Decode, DataIn;
  }

  lemma {:induction false} RefusingEdges(f: Flash, ds: seq<nibble>)
    requires Refusing(f) && f.count + |ds| < WORD - 4
    ensures var r := Edges(f, ds); Refusing(r) && r.mem == f.mem && r.sreg == f.sreg
    decreases |ds|
  {
    if |ds| > 0 {
      hide Edge;
      RefusingEdge(f, ds[0]);
      RefusingEdges(Edge(f, ds[0]), ds[1..]);
    }
  }

  lemma RefusedCommand(f: Flash, op: byte)
    requires f.Valid() && f.mode == Spi && f.count == 8 && f.writeCount == 0 && !f.sreg.wip && !f.sreg.deepSleep
    requires op in WRITES && !f.sreg.wel
    ensures Refusing(Decode(f, op)) && Decode(f, op).count == 8 && Decode(f, op).sreg == f.sreg
  {
  }

  lemma RefusalRests(g: Flash)
    requires Refusing(g)
    ensures Resting(Sim(Deselect(g), true)) && Deselect(g).mem == g.mem && Deselect(g).sreg == g.sreg
  {
  }

  /** Without WEL no program, erase or status write does anything, however long its data. */
  lemma WriteRefused(s: Sim, t: Txn, op: byte)
    requires Resting(s) && !s.flash.sreg.wel && Timed(t, 1) && op in WRITES
    requires |Data(t)| >= 8 && Spells(Spi, Data(t)[..8], op)
    ensures var r := RunTxn(s, t); Resting(r) && r.flash.mem == s.flash.mem && r.flash.sreg == s.flash.sreg
  {
    hide Edges, Spells, Decode;
    var f, ds := s.flash, Data(t);
    TimedData(t);
    assert ds == ds[..8] + ds[8..];
    EdgesAppend(f, ds[..8], ds[8..]);
    CommandEdges(f, ds[..8], op);
    RefusedCommand(Load(ByteShifted(f, op), 0xa5), op);
    RefusingEdges(Edges(f, ds[..8]), ds[8..]);
    RefusalRests(Edges(f, ds));
    RestingTxn(s, t, Edges(f, ds));
  }

  /** A bulk erase sets the whole memory. */
  lemma BulkErased(s: Sim, t: Txn)
    requires Resting(s) && s.flash.sreg.wel && Timed(t, 3_200_000_001) && Spells(Spi, Data(t), 0xc7)
    ensures var r := RunTxn(s, t);
            && Resting(r) && !r.flash.sreg.wel && |r.flash.mem| == MEM_BYTES
            && forall i :: 0 <= i < MEM_BYTES ==> r.flash.mem[i] == 0xff
  {
    hide Edges, Spells, WriteDone;
    CommandEdges(s.flash, Data(t), 0xc7);
    BulkAccepted(Load(ByteShifted(s.flash, 0xc7), 0xa5));
    CompleteWrite(s, t);
    WrittenMeans(Edges(s.flash, Data(t)));
    BulkDone(Edges(s.flash, Data(t)));
  }

  lemma BulkAccepted(f: Flash)
    requires f.sreg.Writable()
    ensures Decode(f, 0xc7) == f.(state := BulkErase)
  {
  }

  lemma BulkDone(f: Flash)
    requires f.Valid() && f.state == BulkErase && WriteDone(f, Written(f), WriteTime(f.state))
    ensures forall i :: 0 <= i < MEM_BYTES ==> Written(f)[i] == 0xff
  {
  }

  // ---- the status register -------------------------------------------------------------------

  /** What bit k of the status register stands for: bit 0 a write in progress, bit 1 writing
      enabled; the host sets bits 2 to 4 and 7. */
  predicate StatusBit(r: Status, k: nat)
    requires k < 8
  {
    if k == 0 then r.wip else if k == 1 then r.wel else if k == 2 then r.b2 else if k == 3 then r.b3
    else if k == 4 then r.b4 else if k == 5 then r.b5 else if k == 6 then r.b6 else r.b7
  }

  /** The register from bit k on. */
  function Upper(r: Status, k: nat): nat
    requires k <= 8
    decreases 8 - k
  {
    if k == 8 then 0 else (if StatusBit(r, k) then 1 else 0) + 2 * Upper(r, k + 1)
  }

  lemma LowestBit(x: nat)
    ensures HasBit(x, 0) <==> x % 2 == 1
  {
    assert Pow2(0) == 1;
  }

  lemma {:induction false} UpperBit(r: Status, j: nat, k: nat)
    requires j + k < 8
    ensures HasBit(Upper(r, j), k) <==> StatusBit(r, j + k)
    decreases k
  {
    hide HasBit, StatusBit;
    if k > 0 {
      HalfBit(Upper(r, j), k);
      assert Upper(r, j) / 2 == Upper(r, j + 1);
      UpperBit(r, j + 1, k - 1);
    } else {
      assert Upper(r, j) % 2 == 1 <==> StatusBit(r, j);
      LowestBit(Upper(r, j));
    }
  }

  lemma UpperHalf(r: Status)
    ensures Upper(r, 4) == Bit(r.b4) + 2 * Bit(r.b5) + 4 * Bit(r.b6) + 8 * Bit(r.b7)
  {
    assert Upper(r, 7) == Bit(r.b7);
    assert Upper(r, 6) == Bit(r.b6) + 2 * Upper(r, 7);
    assert Upper(r, 5) == Bit(r.b5) + 2 * Upper(r, 6);
  }

  lemma UpperIsByte(r: Status)
    ensures Upper(r, 0) == r.Byte()
  {
    UpperHalf(r);
    assert Upper(r, 3) == Bit(r.b3) + 2 * Upper(r, 4);
    assert Upper(r, 2) == Bit(r.b2) + 2 * Upper(r, 3);
    assert Upper(r, 1) == Bit(r.wel) + 2 * Upper(r, 2);
  }

  lemma StatusByteBit(r: Status, k: nat)
    requires k < 8
    ensures HasBit(r.Byte(), k) <==> StatusBit(r, k)
  {
    hide HasBit, Upper;
    UpperIsByte(r);
    UpperBit(r, 0, k);
  }

  ghost predicate Reporting(f: Flash) {
    && f.Valid() && f.state == ReadStatus && f.mode == Spi && f.count >= 8 && f.count % 8 == 0
    && f.writeCount == 0 && !f.sreg.wip && !f.sreg.deepSleep && f.oreg % 256 == f.sreg.Byte()
  }

  lemma ReportStep(f: Flash, b: byte)
    requires Reporting(f) && f.count < WORD - 8
    ensures var r := ByteStep(f, b);
            && Reporting(r) && r.count == f.count + 8 && r.sreg == f.sreg
            && r.oreg / 256 == ByteShifted(f, b).oreg / 256
  {
    hide ByteStep, Status.Byte;
    var g := ByteShifted(f, b);
    OutBoundary(f, b);
    StatusLoaded(Load(g, 0));
    LowReplaced(g, f.sreg.Byte());
  }

  lemma StatusLoaded(g: Flash)
    requires g.state == ReadStatus
    ensures DataOut(g) == Load(g, g.sreg.Byte())
  {
  }

  /** Only the low byte of the output register is replaced. */
  lemma LowReplaced(g: Flash, value: byte)
    ensures var r := Load(Load(g, 0), value); r == g.(oreg := r.oreg)
    ensures Load(Load(g, 0), value).oreg / 256 == g.oreg / 256 && Load(Load(g, 0), value).oreg % 256 == value
  {
    var q := g.oreg / 256;
    assert g.oreg - g.oreg % 256 == q * 256;
    Ring.ModShift(q, 0, 256);
    Ring.ModShift(q, value, 256);
  }

  lemma {:induction false} ReportEdges(f: Flash, ds: seq<nibble>, n: nat)
    requires Reporting(f) && f.count + 8 * n < WORD - 8 && |ds| == 8 * n
    ensures ShowsBytes(EdgeOutputs(f, ds), seq(n, _ => f.sreg.Byte()))
    ensures Reporting(Edges(f, ds)) && Edges(f, ds).sreg == f.sreg
    decreases n
  {
    hide Edges, EdgeOutputs, ByteStep, Shows, ShowsBytes, Reporting, Status.Byte;
    var value := f.sreg.Byte();
    ReportingSpi(f);
    if n == 0 {
      NoOutput(f, ds);
      assert seq(n, _ => value) == [];
    } else {
      var first, rest, b := ds[..8], ds[8..], SpiByte(ds[..8]);
      ReportStep(f, b);
      ReportingSpi(ByteStep(f, b));
      SpiByteEdges(f, first, b);
      ShownByte(f, first, b);
      assert ds == first + rest;
      EdgesAppend(f, first, rest);
      ReportEdges(Edges(f, first), rest, n - 1);
      assert seq(n, _ => value) == [value] + seq(n - 1, _ => value);
      ShowsMore(EdgeOutputs(f, first), value, EdgeOutputs(Edges(f, first), rest), seq(n - 1, _ => value));
    }
  }

  lemma ReportingSpi(f: Flash)
    requires Reporting(f)
    ensures f.Valid() && f.state == ReadStatus && f.mode == Spi && f.count % 8 == 0 && f.oreg % 256 == f.sreg.Byte()
  {
  }

  lemma NoOutput(f: Flash, ds: seq<nibble>)
    requires f.Valid() && |ds| == 0
    ensures Edges(f, ds) == f && EdgeOutputs(f, ds) == [] && ShowsBytes([], [])
  {
  }

  /** Whatever the host drives, eight edges spell some byte. */
  function SpiByte(ds: seq<nibble>): (b: byte)
    requires |ds| == 8
    ensures Spells(Spi, ds, b)
  {
    SpiValueByte(ds);
    SpiValue(ds)
  }

  /** A status read of n bytes: each is the register, bit by bit, highest first. */
  lemma StatusRead(s: Sim, t: Txn, n: nat)
    requires Resting(s) && Timed(t, 1) && |Data(t)| == 8 + 8 * n && Spells(Spi, Data(t)[..8], 0x05)
    ensures s.flash.Valid() && Resting(RunTxn(s, t)) && RunTxn(s, t).flash.mem == s.flash.mem
    ensures var outs := FallOutputs(s, t.low);
            && |outs| == 8 + 8 * n
            && forall i: nat, k: nat :: i < n && k < 8 ==> StatusShown(outs, i, k, s.flash.sreg)
  {
    hide Edges, EdgeOutputs, Spells, ShowsBytes, Shows, Reporting, RunTxn, Timed, FallOutputs, Resting, StatusShown;
    var f, ds := s.flash, Data(t);
    RestingReady(s);
    TimedData(t);
    assert ds == ds[..8] + ds[8..];
    EdgesAppend(f, ds[..8], ds[8..]);
    StatusCommand(f, ds[..8]);
    var g := Edges(f, ds[..8]);
    ReportEdges(g, ds[8..], n);
    ReportRests(Edges(f, ds));
    RestingTxn(s, t, Edges(f, ds));
    LowPart(s, t);
    forall i: nat, k: nat | i < n && k < 8 ensures StatusShown(FallOutputs(s, t.low), i, k, f.sreg) {
      ShownStatus(EdgeOutputs(f, ds[..8]), EdgeOutputs(g, ds[8..]), i, k, f.sreg, n);
    }
  }

  /** In a status read, bit 7 - k of byte i. */
  predicate StatusShown(outs: seq<nibble>, i: nat, k: nat, r: Status)
    requires k < 8
  {
    8 + 8 * i + k < |outs| && (HasBit(outs[8 + 8 * i + k], 1) <==> StatusBit(r, 7 - k))
  }

  lemma ShownStatus(head: seq<nibble>, outs: seq<nibble>, i: nat, k: nat, r: Status, n: nat)
    requires |head| == 8 && i < n && k < 8 && ShowsBytes(outs, seq(n, _ => r.Byte()))
    ensures StatusShown(head + outs, i, k, r)
  {
    hide HasBit, StatusBit, Status.Byte;
    var bytes := seq(n, _ => r.Byte());
    assert Shows(outs, 8 * i, bytes[i]) && ShowsBit(outs, 8 * i, r.Byte(), k);
    assert (head + outs)[8 + 8 * i + k] == outs[8 * i + k];
    StatusByteBit(r, 7 - k);
  }

  lemma StatusCommand(f: Flash, ds: seq<nibble>)
    requires Ready(f) && Spells(Spi, ds, 0x05)
    ensures var r := Edges(f, ds); Reporting(r) && r.count == 8 && r.sreg == f.sreg
  {
    hide Edges, Spells, Decode, Status.Byte;
    CommandEdges(f, ds, 0x05);
    var g := Load(ByteShifted(f, 0x05), 0xa5);
    StatusDecoded(g);
    ByteLoaded(g, g.sreg.Byte());
  }

  lemma StatusDecoded(g: Flash)
    requires !g.sreg.deepSleep
    ensures Decode(g, 0x05) == Load(g, g.sreg.Byte()).(state := ReadStatus)
  {
  }

  lemma ByteLoaded(g: Flash, value: byte)
    ensures var r := Load(g, value); r == g.(oreg := r.oreg) && r.oreg % 256 == value
  {
    var q := g.oreg / 256;
    assert g.oreg - g.oreg % 256 == q * 256;
    Ring.ModShift(q, value, 256);
  }

  lemma ReportRests(g: Flash)
    requires Reporting(g)
    ensures g.writeCount == 0 && Resting(Sim(Deselect(g), true)) && Deselect(g).mem == g.mem
  {
  }

  /** A status write: bits 2, 3, 4 and 7 of the register become those of the byte sent, the
      other bits stay, and WEL is clear afterwards. */
  lemma StatusWritten(s: Sim, t: Txn, b: byte)
    requires Resting(s) && s.flash.sreg.wel && Timed(t, 5_001) && |Data(t)| == 16
    requires Spells(Spi, Data(t)[..8], 0x01) && Spells(Spi, Data(t)[8..], b)
    ensures var r := RunTxn(s, t);
            && Resting(r) && r.flash.mem == s.flash.mem
            && r.flash.sreg == s.flash.sreg.(wip := false, wel := false, b2 := HasBit(b, 2), b3 := HasBit(b, 3),
                                             b4 := HasBit(b, 4), b7 := HasBit(b, 7))
  {
    hide Edges, Spells, HasBit;
    var f, ds := s.flash, Data(t);
    RestingReady(s);
    StatusSent(f, ds, b);
    CompleteWrite(s, t);
  }

  lemma StatusSent(f: Flash, ds: seq<nibble>, b: byte)
    requires Ready(f) && f.sreg.wel && |ds| == 16 && Spells(Spi, ds[..8], 0x01) && Spells(Spi, ds[8..], b)
    ensures var g := Edges(f, ds);
            && g.state == WriteStatus && g.mode == Spi && g.writeCount == 0 && g.mem == f.mem
            && g.sreg == f.sreg.(wel := false, b2 := HasBit(b, 2), b3 := HasBit(b, 3), b4 := HasBit(b, 4),
                                 b7 := HasBit(b, 7))
  {
    hide Edges, Spells, HasBit, Decode, ByteStep;
    var first, second := ds[..8], ds[8..];
    assert ds == first + second;
    CommandEdges(f, first, 0x01);
    StatusAccepted(Load(ByteShifted(f, 0x01), 0xa5));
    EdgesAppend(f, first, second);
    var g := Edges(f, first);
    SpiByteEdges(g, second, b);
    StatusBoundary(g, b);
  }

  lemma StatusAccepted(f: Flash)
    requires f.sreg.Writable()
    ensures Decode(f, 0x01) == f.(state := WriteStatus)
  {
  }

  lemma StatusBoundary(f: Flash, b: byte)
    requires f.Valid() && f.state == WriteStatus && f.mode == Spi && f.count == 8 && f.ireg == 1 && !f.sreg.deepSleep
    ensures var r := ByteStep(f, b);
            && r == f.(ireg := r.ireg, oreg := r.oreg, count := 16, sreg := r.sreg)
            && r.sreg == f.sreg.(wel := false, b2 := HasBit(b, 2), b3 := HasBit(b, 3), b4 := HasBit(b, 4),
                                 b7 := HasBit(b, 7))
  {
    hide Decode, DataOut, HasBit, Set;
    LowByteShifted(1, b);
    SentBits(256 + b, b);
  }

  lemma SentBits(x: word, b: byte)
    requires x == 256 + b
    ensures Set(x, 4) == HasBit(b, 2) && Set(x, 8) == HasBit(b, 3) && Set(x, 16) == HasBit(b, 4)
    ensures Set(x, 128) == HasBit(b, 7)
  {
    Weights();
    hide Pow2, Set;
    LowBit(x, 2);
    LowBit(x, 3);
    LowBit(x, 4);
    LowBit(x, 7);
  }

  lemma Weights()
    ensures Pow2(2) == 4 && Pow2(3) == 8 && Pow2(4) == 16 && Pow2(7) == 128
  {
    assert Pow2(5) == 32;
  }

  // ---- the identification --------------------------------------------------------------------

  ghost predicate Identifying(f: Flash, value: byte) {
    && f.Valid() && f.state == ReadId && f.mode == Spi && f.count >= 8 && f.count % 8 == 0
    && f.writeCount == 0 && !f.sreg.wip && !f.sreg.deepSleep && f.oreg % 256 == value
  }

  /** The byte that the boundary at this count loads. */
  lemma IdLoaded(g: Flash)
    requires g.state == ReadId
    ensures DataOut(g) == Load(g, if g.count == 16 then 0x15 else if g.count == 24 then 0x23 else 0x40)
  {
  }

  lemma IdStep(f: Flash, ds: seq<nibble>, value: byte, next: byte)
    requires Identifying(f, value) && f.count < 40 && |ds| == 8
    requires next == if f.count == 8 then 0x15 else if f.count == 16 then 0x23 else 0x40
    ensures var r := Edges(f, ds);
            Identifying(r, next) && r.count == f.count + 8 && r.mem == f.mem && Shows(EdgeOutputs(f, ds), 0, value)
  {
    hide Edges, EdgeOutputs, ByteStep, Shows, Spells;
    var b := SpiByte(ds);
    var g := ByteShifted(f, b);
    SpiByteEdges(f, ds, b);
    OutBoundary(f, b);
    IdLoaded(Load(g, 0));
    LowReplaced(g, next);
    ShownByte(f, ds, b);
  }

  lemma IdCommand(f: Flash, ds: seq<nibble>)
    requires Ready(f) && Spells(Spi, ds, 0x9f)
    ensures var r := Edges(f, ds); Identifying(r, 0x01) && r.count == 8
  {
    hide Edges, Spells, Decode;
    CommandEdges(f, ds, 0x9f);
    var g := Load(ByteShifted(f, 0x9f), 0xa5);
    IdDecoded(g);
    ByteLoaded(g, 0x01);
  }

  lemma IdDecoded(g: Flash)
    requires !g.sreg.deepSleep
    ensures Decode(g, 0x9f) == Load(g, 0x01).(state := ReadId)
  {
  }

  lemma IdRests(g: Flash, value: byte)
    requires Identifying(g, value)
    ensures g.writeCount == 0 && Resting(Sim(Deselect(g), true)) && Deselect(g).mem == g.mem
  {
  }

  /** The identification reads 0x01, 0x15, 0x23. */
  lemma IdRead(s: Sim, t: Txn)
    requires Resting(s) && Timed(t, 1) && |Data(t)| == 32 && Spells(Spi, Data(t)[..8], 0x9f)
    ensures s.flash.Valid() && Resting(RunTxn(s, t)) && RunTxn(s, t).flash.mem == s.flash.mem
    ensures var outs := FallOutputs(s, t.low); |outs| == 32 && ShowsBytes(outs[8..], [0x01, 0x15, 0x23])
  {
    hide Edges, EdgeOutputs, Spells, ShowsBytes, Shows, Identifying, RunTxn, Timed, FallOutputs, Resting;
    var f, ds := s.flash, Data(t);
    RestingReady(s);
    IdEdges(f, ds);
    IdRests(Edges(f, ds), 0x40);
    RestingTxn(s, t, Edges(f, ds));
    LowPart(s, t);
  }

  lemma IdEdges(f: Flash, ds: seq<nibble>)
    requires Ready(f) && |ds| == 32 && Spells(Spi, ds[..8], 0x9f)
    ensures f.Valid() && Identifying(Edges(f, ds), 0x40) && ShowsBytes(EdgeOutputs(f, ds)[8..], [0x01, 0x15, 0x23])
  {
    hide Edges, EdgeOutputs, Spells, ShowsBytes, Shows, Identifying;
    var d0, d1, d2, d3 := ds[..8], ds[8..16], ds[16..24], ds[24..];
    assert ds == d0 + (d1 + (d2 + d3));
    IdCommand(f, d0);
    EdgesAppend(f, d0, d1 + (d2 + d3));
    var g := Edges(f, d0);
    IdentifyingValid(g, 0x01);
    IdStep(g, d1, 0x01, 0x15);
    EdgesAppend(g, d1, d2 + d3);
    var g1 := Edges(g, d1);
    IdStep(g1, d2, 0x15, 0x23);
    EdgesAppend(g1, d2, d3);
    var g2 := Edges(g1, d2);
    IdStep(g2, d3, 0x23, 0x40);
    ShowsThree(EdgeOutputs(g, d1), EdgeOutputs(g1, d2), EdgeOutputs(g2, d3), 0x01, 0x15, 0x23);
    assert EdgeOutputs(f, ds)[8..] == EdgeOutputs(g, d1) + (EdgeOutputs(g1, d2) + EdgeOutputs(g2, d3));
  }

  lemma ShowsThree(o1: seq<nibble>, o2: seq<nibble>, o3: seq<nibble>, b1: byte, b2: byte, b3: byte)
    requires |o1| == |o2| == |o3| == 8 && Shows(o1, 0, b1) && Shows(o2, 0, b2) && Shows(o3, 0, b3)
    ensures ShowsBytes(o1 + (o2 + o3), [b1, b2, b3])
  {
    hide Shows, ShowsBytes;
    var none: seq<byte> := [];
    ShowsNothing();
    ShowsMore(o3, b3, [], none);
    assert o3 + [] == o3 && [b3] + none == [b3];
    ShowsMore(o2, b2, o3, [b3]);
    assert [b2] + [b3] == [b2, b3];
    ShowsMore(o1, b1, o2 + o3, [b2, b3]);
    assert [b1] + [b2, b3] == [b1, b2, b3];
  }

  lemma IdentifyingValid(f: Flash, value: byte)
    requires Identifying(f, value)
    ensures f.Valid()
  {
  }

  lemma ShowsNothing()
    ensures ShowsBytes([], [])
  {
  }

  // ---- deep power down -------------------------------------------------------------------------

  /** At rest in deep power down. */
  ghost predicate Asleep(s: Sim) {
    && s.lastSck && s.flash.Valid() && s.flash.state == Idle && s.flash.mode == Spi && s.flash.count == 0
    && s.flash.ireg == 0 && s.flash.writeCount == 0 && !s.flash.sreg.wip && s.flash.sreg.deepSleep
  }

  lemma AsleepEdge(f: Flash, g: Flash)
    requires f.Valid() && f.state == Idle && f.mode == Spi && f.sreg.deepSleep
    requires g == f.(ireg := g.ireg, oreg := g.oreg, count := g.count) && (g.count == 8 ==> g.ireg % 256 != 0xab)
    ensures Process(g) == g.(oreg := Process(g).oreg)
  {
    hide DataIn;
  }

  lemma AsleepCall(s: Sim, p: Pins)
    requires s.flash.Valid() && s.flash.state == Idle && s.flash.mode == Spi && s.flash.sreg.deepSleep
    requires s.flash.writeCount == 0 && !Completes(s, p, 0xab)
    ensures var r := Step(s, p);
            && r.flash == s.flash.(ireg := r.flash.ireg, oreg := r.flash.oreg, count := r.flash.count)
            && (p.csn ==> r.lastSck && r.flash.count == 0 && r.flash.ireg == 0)
  {
    hide Process, ShiftIn;
    if Falling(s, p) {
      ShiftKeeps(s.flash, p.dat);
      AsleepEdge(s.flash, ShiftIn(s.flash, p.dat));
    }
  }

  /** In deep power down nothing but the release command has an effect, whatever the host
      sends and for however long: memory and registers stay as they are. */
  lemma {:induction false} SleepsOn(s: Sim, ins: seq<Pins>)
    requires s.flash.Valid() && s.flash.state == Idle && s.flash.mode == Spi && s.flash.sreg.deepSleep
    requires s.flash.writeCount == 0 && NoRelease(s, ins)
    ensures var f := Run(s, ins).flash; f == s.flash.(ireg := f.ireg, oreg := f.oreg, count := f.count)
    decreases |ins|
  {
    if |ins| > 0 {
      hide Step, Completes;
      AsleepCall(s, ins[0]);
      SleepsOn(Step(s, ins[0]), ins[1..]);
    }
  }

  /** The command 0xb9 sends a flash at rest into deep power down. */
  lemma PowerDown(s: Sim, t: Txn)
    requires Resting(s) && Timed(t, 1) && Spells(Spi, Data(t), 0xb9)
    ensures Asleep(RunTxn(s, t)) && RunTxn(s, t).flash.mem == s.flash.mem
  {
    hide Edges, Spells;
    var g := Edges(s.flash, Data(t));
    CommandEdges(s.flash, Data(t), 0xb9);
    DownRests(Load(ByteShifted(s.flash, 0xb9), 0xa5));
    EndTxn(s, t);
    AsleepHigh(Sim(Deselect(g), true), t.high[1..]);
  }

  lemma DownRests(f: Flash)
    requires f.Valid() && f.mode == Spi && f.writeCount == 0 && !f.sreg.wip
    ensures var g := Decode(f, 0xb9);
            f.sreg.deepSleep
            || (g.writeCount == 0 && Asleep(Sim(Deselect(g), true)) && Deselect(g).mem == f.mem)
  {
  }

  lemma {:induction false} AsleepHigh(s: Sim, w: seq<Pins>)
    requires Asleep(s) && Deselected(w)
    ensures Asleep(Run(s, w)) && Run(s, w).flash.mem == s.flash.mem
    decreases |w|
  {
    if |w| > 0 {
      AsleepHigh(Step(s, w[0]), w[1..]);
    }
  }
}
