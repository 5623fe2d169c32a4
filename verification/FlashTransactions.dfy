/** Whole transactions on the wire: write enable, erase, page program and quad read, and
    what a host reads back. */
module FlashTransactions {
  import opened FixedPoint
  import opened FlashSpec
  import opened FlashInvariant
  import opened FlashWire
  import Ring

  /** Chip select is high, no write is in progress, and the next byte is a command. */
  ghost predicate Ready(f: Flash) {
    && f.Valid() && f.mode == Spi && f.state != QuadReadIdle && f.state != DualReadIdle
    && f.count == 0 && f.ireg == 0 && f.writeCount == 0 && !f.sreg.wip && !f.sreg.deepSleep
  }

  function EdgesPerByte(m: Mode): nat
    requires m != Dual
  {
    if m == Spi then 8 else 2
  }

  /** The edges that send these bytes one after the other on the same bus. */
  predicate Sends(m: Mode, ds: seq<nibble>, bytes: seq<byte>)
    requires m != Dual
    decreases |bytes|
  {
    var w := EdgesPerByte(m);
    if |bytes| == 0 then |ds| == 0
    else
      && |ds| >= w
      && Spells(m, ds[..w], bytes[0])
      && Sends(m, ds[w..], bytes[1..])
  }

  // ---- the page buffer -----------------------------------------------------------

  /** The cell of the page that byte number j of a program starting at `at` goes to. */
  function Cell(at: nat, j: nat): (c: nat)
    ensures c < 256
  {
    (at + j) % 256
  }

  /** Bytes written from offset `at` on, wrapping inside the page. */
  function Fill(page: seq<byte>, at: nat, bytes: seq<byte>): (r: seq<byte>)
    requires |page| == 256
    ensures |r| == 256
    decreases |bytes|
  {
    if |bytes| == 0 then page else Fill(page[Cell(at, 0) := bytes[0]], at + 1, bytes[1..])
  }

  lemma {:induction false} FillKeeps(page: seq<byte>, at: nat, bytes: seq<byte>, c: nat)
    requires |page| == 256 && c < 256 && forall j :: 0 <= j < |bytes| ==> Cell(at, j) != c
    ensures Fill(page, at, bytes)[c] == page[c]
    decreases |bytes|
  {
    if |bytes| > 0 {
      var next := at + 1;
      forall j | 0 <= j < |bytes| - 1 ensures Cell(next, j) != c {
        assert Cell(at, j + 1) != c;
      }
      assert Cell(at, 0) != c;
      FillKeeps(page[Cell(at, 0) := bytes[0]], next, bytes[1..], c);
    }
  }

  lemma {:induction false} FillWrites(page: seq<byte>, at: nat, bytes: seq<byte>, j: nat)
    requires |page| == 256 && j < |bytes| <= j + 256
    ensures Fill(page, at, bytes)[Cell(at, j)] == bytes[j]
    decreases |bytes|
  {
    var page', rest, next := page[Cell(at, 0) := bytes[0]], bytes[1..], at + 1;
    if j > 0 {
      FillWrites(page', next, rest, j - 1);
      assert Cell(next, j - 1) == Cell(at, j);
    } else {
      forall i | 0 <= i < |rest| ensures Cell(next, i) != Cell(at, 0) {
        Ring.SlotsDiffer(at, next + i, 256);
      }
      FillKeeps(page', next, rest, Cell(at, 0));
    }
  }

  /** The last byte sent to a cell wins; a cell that no byte was sent to is unchanged. */
  lemma FillCells(page: seq<byte>, at: nat, bytes: seq<byte>)
    requires |page| == 256
    ensures forall j :: 0 <= j < |bytes| <= j + 256 ==> Fill(page, at, bytes)[Cell(at, j)] == bytes[j]
    ensures forall c :: 0 <= c < 256 && (forall j :: 0 <= j < |bytes| ==> Cell(at, j) != c) ==>
              Fill(page, at, bytes)[c] == page[c]
  {
    hide Fill, Cell;
    forall j | 0 <= j < |bytes| <= j + 256 ensures Fill(page, at, bytes)[Cell(at, j)] == bytes[j] {
      FillWrites(page, at, bytes, j);
    }
    forall c | 0 <= c < 256 && (forall j :: 0 <= j < |bytes| ==> Cell(at, j) != c)
      ensures Fill(page, at, bytes)[c] == page[c]
    {
      FillKeeps(page, at, bytes, c);
    }
  }

  // ---- command and address ----------------------------------------------------------

  /** Three bytes, most significant first. */
  predicate SendsAddress(ds: seq<nibble>, m: Mode, a: address)
    requires m != Dual
  {
    var w := EdgesPerByte(m);
    && |ds| == 3 * w
    && Spells(m, ds[..w], TopByte(a)) && Spells(m, ds[w..2 * w], MiddleByte(a)) && Spells(m, ds[2 * w..], LowByte(a))
  }

  type address = a: int | 0 <= a < MEM_BYTES

  function TopByte(a: address): byte { a / 0x1_0000 }
  function MiddleByte(a: address): byte { a / 0x100 % 256 }
  function LowByte(a: address): byte { a % 256 }

  /** The states differ at most in the output register. */
  ghost predicate Like(f: Flash, g: Flash) { f == g.(oreg := f.oreg) }

  /** A command byte on an idle bus. */
  lemma CommandEdges(f: Flash, ds: seq<nibble>, op: byte)
    requires Ready(f) && Spells(Spi, ds, op)
    ensures Edges(f, ds) == Decode(Load(ByteShifted(f, op), 0xa5), op)
    ensures ByteShifted(f, op).count == 8 && ByteShifted(f, op).ireg == op
  {
    hide Decode;
    SpiByteEdges(f, ds, op);
  }

  predicate Addressed(s: State) { s == PageProgram || s == QuadPageProgram || s == SectorErase }

  /** Three address bytes after an accepted program or erase command. */
  lemma AddressEdges(f: Flash, ds: seq<nibble>, op: byte, a: address)
    requires f.Valid() && f.mode == Spi && f.count == 8 && f.ireg == op && Addressed(f.state)
    requires SendsAddress(ds, Spi, a)
    ensures Like(Edges(f, ds), DataIn(f.(count := 32, ireg := op * 0x100_0000 + a)))
  {
    hide Spells, Edges;
    assert ds == ds[..8] + ds[8..16] + ds[16..];
    AddressBytes(f, ds[..8], ds[8..16], ds[16..], op, a);
  }

  lemma AddressBytes(f: Flash, d1: seq<nibble>, d2: seq<nibble>, d3: seq<nibble>, op: byte, a: address)
    requires f.Valid() && f.mode == Spi && f.count == 8 && f.ireg == op && Addressed(f.state)
    requires Spells(Spi, d1, TopByte(a)) && Spells(Spi, d2, MiddleByte(a)) && Spells(Spi, d3, LowByte(a))
    ensures Like(Edges(f, d1 + d2 + d3), DataIn(f.(count := 32, ireg := op * 0x100_0000 + a)))
  {
    hide Spells, DataIn, TopByte, MiddleByte, LowByte, Edges;
    EdgesAppend(f, d1 + d2, d3);
    TwoAddressBytes(f, d1, d2, TopByte(a), MiddleByte(a));
    var g := Edges(f, d1 + d2);
    LastAddressByte(g, d3, LowByte(a));
    AddressDone(f, g, op, a);
  }

  lemma AddressDone(f: Flash, g: Flash, op: byte, a: address)
    requires f.Valid() && g.Valid() && Like(g, f.(count := 24, ireg := (op * 256 + TopByte(a)) * 256 + MiddleByte(a)))
    ensures Like(DataIn(g.(count := 32, ireg := g.ireg * 256 + LowByte(a))),
                 DataIn(f.(count := 32, ireg := op * 0x100_0000 + a)))
  {
    hide DataIn;
    AddressValue(op, a);
    var ireg: word := op * 0x100_0000 + a;
    DataInLike(g.(count := 32, ireg := ireg), f.(count := 32, ireg := ireg));
  }

  lemma TwoAddressBytes(f: Flash, d1: seq<nibble>, d2: seq<nibble>, b1: byte, b2: byte)
    requires f.Valid() && f.mode == Spi && f.count == 8 && f.ireg < 256 && Addressed(f.state)
    requires Spells(Spi, d1, b1) && Spells(Spi, d2, b2)
    ensures Like(Edges(f, d1 + d2), f.(count := 24, ireg := (f.ireg * 256 + b1) * 256 + b2))
  {
    hide Spells, Edges;
    EdgesAppend(f, d1, d2);
    AddressByte(f, d1, b1);
    AddressByte(Edges(f, d1), d2, b2);
  }

  lemma AddressValue(op: byte, a: address)
    ensures ((op * 256 + TopByte(a)) * 256 + MiddleByte(a)) * 256 + LowByte(a) == op * 0x100_0000 + a
    ensures (op * 0x100_0000 + a) % MEM_BYTES == a
  {
  }

  lemma AddressByte(f: Flash, ds: seq<nibble>, b: byte)
    requires f.Valid() && f.mode == Spi && f.ireg < 0x1_0000 && (f.count == 8 || f.count == 16)
    requires Addressed(f.state) && Spells(Spi, ds, b)
    ensures Like(Edges(f, ds), f.(count := f.count + 8, ireg := f.ireg * 256 + b))
  {
    hide Spells, DataIn, Decode, DataOut, Edges;
    SpiByteEdges(f, ds, b);
    var g := ByteShifted(f, b);
    assert g.count == f.count + 8 && g.ireg == f.ireg * 256 + b;
    AddressIgnored(Load(g, 0));
  }

  /** Until the address is complete its bytes only shift in. */
  lemma AddressIgnored(g: Flash)
    requires g.Valid() && Addressed(g.state) && (g.count == 16 || g.count == 24)
    ensures DataIn(g) == g
  {
  }

  lemma LastAddressByte(f: Flash, ds: seq<nibble>, b: byte)
    requires f.Valid() && f.mode == Spi && f.ireg < 0x100_0000 && f.count == 24
    requires Addressed(f.state) && Spells(Spi, ds, b)
    ensures Like(Edges(f, ds), DataIn(f.(count := 32, ireg := f.ireg * 256 + b)))
  {
    hide Spells, DataIn;
    SpiByteEdges(f, ds, b);
    var g := ByteShifted(f, b);
    assert g.count == 32 && g.ireg == f.ireg * 256 + b;
    assert ByteStep(f, b) == DataIn(Load(g, 0));
    DataInLike(Load(g, 0), f.(count := 32, ireg := f.ireg * 256 + b));
  }

  lemma DataInLike(f: Flash, g: Flash)
    requires f.Valid() && g.Valid() && Like(f, g)
    ensures Like(DataIn(f), DataIn(g))
  {
  }

  // ---- page data ------------------------------------------------------------------------

  function DataBus(s: State): Mode { if s == QuadPageProgram then Quad else Spi }

  /** After the address of a page program. */
  ghost predicate Collecting(f: Flash) {
    f.Valid() && Programming(f.state) && f.mode == DataBus(f.state) && f.count >= 32 && f.count % 8 == 0
  }

  lemma DataByte(f: Flash, ds: seq<nibble>, b: byte)
    requires Collecting(f) && f.count < WORD - 8 && Spells(f.mode, ds, b)
    ensures var r := Edges(f, ds);
            && Like(r, Store(f.(ireg := r.ireg, count := f.count + 8))) && r.ireg % 256 == b && Collecting(r)
  {
    hide Spells, Edges, ByteStep, ByteShifted, Store;
    if f.mode == Spi {
      SpiByteEdges(f, ds, b);
    } else {
      QuadByteEdges(f, ds, b);
    }
    CollectStep(f, b);
  }

  lemma CollectStep(f: Flash, b: byte)
    requires Collecting(f) && f.count < WORD - 8
    ensures var r := ByteStep(f, b);
            && Like(r, Store(f.(ireg := r.ireg, count := f.count + 8))) && r.ireg % 256 == b && Collecting(r)
  {
    hide ByteStep, Store;
    var g := ByteShifted(f, b);
    LowByteShifted(f.ireg, b);
    CollectBoundary(f, b);
    StoreLike(Load(g, 0), f.(ireg := g.ireg, count := f.count + 8));
  }

  lemma CollectBoundary(f: Flash, b: byte)
    requires Collecting(f) && f.count < WORD - 8
    ensures ByteStep(f, b) == Store(Load(ByteShifted(f, b), 0))
    ensures ByteShifted(f, b).count == f.count + 8
  {
    hide Decode, DataOut;
    assert ByteShifted(f, b).count % 8 == 0;
  }

  lemma StoreLike(f: Flash, g: Flash)
    requires f.Valid() && g.Valid() && Like(f, g)
    ensures Like(Store(f), Store(g))
    ensures var r := Store(f); r == f.(pmem := r.pmem, addr := r.addr)
  {
  }

  lemma LowByteShifted(x: word, b: byte)
    ensures (x * 256 + b) % WORD % 256 == b
  {
    var q := (x * 256 + b) / WORD;
    assert (x * 256 + b) % WORD == (x - q * 0x100_0000) * 256 + b;
  }

  /** Data bytes end up in the page buffer, each in the cell of its address. */
  lemma {:induction false} DataEdges(f: Flash, ds: seq<nibble>, bytes: seq<byte>, at: nat)
    requires Collecting(f) && f.count + 8 * |bytes| < WORD && Sends(f.mode, ds, bytes) && f.addr % 256 == at % 256
    ensures var r := Edges(f, ds);
            && Collecting(r) && r.state == f.state && r.pmem == Fill(f.pmem, at, bytes)
            && Page(r.addr) == Page(f.addr) && r.sreg == f.sreg && r.writeCount == f.writeCount
    decreases |bytes|
  {
    hide Edges, Spells;
    if |bytes| == 0 {
      NoEdges(f, ds);
    } else {
      var w := EdgesPerByte(f.mode);
      DataByte(f, ds[..w], bytes[0]);
      var g := Edges(f, ds[..w]);
      StoreStep(f.(ireg := g.ireg, count := f.count + 8), at);
      DataEdges(g, ds[w..], bytes[1..], at + 1);
      assert ds == ds[..w] + ds[w..];
      EdgesAppend(f, ds[..w], ds[w..]);
    }
  }

  lemma NoEdges(f: Flash, ds: seq<nibble>)
    requires f.Valid() && |ds| == 0
    ensures Edges(f, ds) == f
  {
  }

  lemma StoreStep(f: Flash, at: nat)
    requires f.Valid() && f.addr % 256 == at % 256
    ensures var r := Store(f);
            && r.pmem == f.pmem[Cell(at, 0) := f.ireg % 256]
            && r.addr % 256 == (at + 1) % 256 && Page(r.addr) == Page(f.addr)
  {
  }

  /** The edges of a page program. */
  predicate SendsProgram(ds: seq<nibble>, quad: bool, a: address, bytes: seq<byte>) {
    && |ds| >= 32 && Spells(Spi, ds[..8], if quad then 0x32 else 0x02) && SendsAddress(ds[8..32], Spi, a)
    && Sends(if quad then Quad else Spi, ds[32..], bytes)
  }

  lemma ProgramEdges(f: Flash, ds: seq<nibble>, quad: bool, a: address, bytes: seq<byte>)
    requires Ready(f) && f.sreg.wel && SendsProgram(ds, quad, a, bytes) && 8 * |bytes| < WORD - 64
    ensures var r := Edges(f, ds);
            && Programming(r.state) && Page(r.addr) == Page(a) && r.pmem == Fill(Blank(), a, bytes)
            && r.sreg == f.sreg && r.writeCount == 0
  {
    hide Edges, Spells, SendsAddress, Sends, Fill;
    var op: byte := if quad then 0x32 else 0x02;
    assert ds == ds[..8] + (ds[8..32] + ds[32..]);
    EdgesAppend(f, ds[..8], ds[8..32] + ds[32..]);
    var f1 := Edges(f, ds[..8]);
    EdgesAppend(f1, ds[8..32], ds[32..]);
    ProgramCommand(f, ds[..8], op);
    ProgramAddress(f1, ds[8..32], op, a);
    DataEdges(Edges(f1, ds[8..32]), ds[32..], bytes, a);
  }

  lemma ProgramCommand(f: Flash, ds: seq<nibble>, op: byte)
    requires Ready(f) && f.sreg.wel && Spells(Spi, ds, op) && (op == 0x02 || op == 0x32)
    ensures var r := Edges(f, ds);
            && r.state == (if op == 0x32 then QuadPageProgram else PageProgram) && r.mode == Spi
            && r.count == 8 && r.ireg == op && r.sreg == f.sreg && r.writeCount == 0
  {
    hide Edges, Spells;
    CommandEdges(f, ds, op);
    AcceptedProgram(Load(ByteShifted(f, op), 0xa5), op);
  }

  lemma AcceptedProgram(f: Flash, op: byte)
    requires f.sreg.Writable() && (op == 0x02 || op == 0x32)
    ensures Decode(f, op) == f.(state := if op == 0x32 then QuadPageProgram else PageProgram)
  {
  }

  lemma ProgramAddress(f: Flash, ds: seq<nibble>, op: byte, a: address)
    requires f.Valid() && Programming(f.state) && f.mode == Spi && f.count == 8 && f.ireg == op
    requires SendsAddress(ds, Spi, a)
    ensures var r := Edges(f, ds);
            && Collecting(r) && r.state == f.state && r.addr == a && r.pmem == Blank() && r.count == 32
            && r.sreg == f.sreg && r.writeCount == f.writeCount
  {
    hide Edges, SendsAddress;
    AddressEdges(f, ds, op, a);
  }
}
