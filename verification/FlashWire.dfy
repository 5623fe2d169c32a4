/** From waveforms to bytes: a run with chip select low is the sequence of its falling
    edges, and eight (two) edges on a one (four) bit bus are one byte. */
module FlashWire {
  import opened FixedPoint
  import opened FlashSpec
  import opened FlashInvariant

  function Edges(f: Flash, ds: seq<nibble>): (r: Flash)
    requires f.Valid()
    ensures r.Valid() && r.mem == f.mem
    decreases |ds|
  {
    if |ds| == 0 then f else Edges(Edge(f, ds[0]), ds[1..])
  }

  /** What the host sees on the pins at each of these falling edges. */
  function EdgeOutputs(f: Flash, ds: seq<nibble>): (outs: seq<nibble>)
    requires f.Valid()
    ensures |outs| == |ds|
    decreases |ds|
  {
    if |ds| == 0 then [] else [Output(Edge(f, ds[0]), ds[0])] + EdgeOutputs(Edge(f, ds[0]), ds[1..])
  }

  lemma {:induction false} EdgesAppend(f: Flash, a: seq<nibble>, b: seq<nibble>)
    requires f.Valid()
    ensures Edges(f, a + b) == Edges(Edges(f, a), b)
    ensures EdgeOutputs(f, a + b) == EdgeOutputs(f, a) + EdgeOutputs(Edges(f, a), b)
    decreases |a|
  {
    if |a| == 0 {
      assert a + b == b;
    } else {
      assert (a + b)[0] == a[0] && (a + b)[1..] == a[1..] + b;
      EdgesAppend(Edge(f, a[0]), a[1..], b);
    }
  }

  // ---- waveforms -------------------------------------------------------------------

  /** The data pins at the falling edges of a waveform; the clock may rest at either
      level for any number of calls. */
  function Falls(sck: bool, w: seq<Pins>): seq<nibble>
    decreases |w|
  {
    if |w| == 0 then [] else (if sck && !w[0].sck then [w[0].dat] else []) + Falls(w[0].sck, w[1..])
  }

  /** The pins returned by the calls that are falling edges. */
  function FallOutputs(s: Sim, w: seq<Pins>): seq<nibble>
    requires s.flash.Valid()
    decreases |w|
  {
    if |w| == 0 then []
    else (if Falling(s, w[0]) then [StepOutput(s, w[0])] else []) + FallOutputs(Step(s, w[0]), w[1..])
  }

  predicate Selected(w: seq<Pins>) { forall i :: 0 <= i < |w| ==> !w[i].csn }

  predicate Deselected(w: seq<Pins>) { forall i :: 0 <= i < |w| ==> w[i].csn }

  /** No write timer is running and none can be started by this transaction. */
  predicate Calm(f: Flash) {
    f.Valid() && f.writeCount == 0 && (f.count < 8 ==> !f.sreg.deepSleep)
  }

  lemma CalmEdge(f: Flash, d: nibble)
    requires Calm(f) && f.count < WORD - 4
    ensures Calm(Edge(f, d)) && Edge(f, d).count == f.count + Width(f.mode)
  {
    hide Decode, ByteDone, ShiftIn;
    ShiftFacts(f, d);
    var g := ShiftIn(f, d);
    CalmDecode(Load(g, 0xa5), g.ireg % 256);
    ByteKeepsCalm(Load(g, 0));
  }

  lemma CalmDecode(f: Flash, op: byte)
    ensures Decode(f, op).count == f.count
    ensures f.writeCount == 0 && !f.sreg.deepSleep ==> Decode(f, op).writeCount == 0
  {
  }

  lemma ByteKeepsCalm(f: Flash)
    requires f.Valid()
    ensures ByteDone(f).writeCount == f.writeCount && ByteDone(f).count == f.count
    ensures ByteDone(f).sreg.deepSleep ==> f.sreg.deepSleep
  {
  }

  /** With no write in progress, a selected run does what its falling edges do. */
  lemma {:induction false} SelectedRun(s: Sim, w: seq<Pins>)
    requires Calm(s.flash) && Selected(w) && s.flash.count + 4 * |w| < WORD
    ensures var ds := Falls(s.lastSck, w);
            && Run(s, w).flash == Edges(s.flash, ds)
            && FallOutputs(s, w) == EdgeOutputs(s.flash, ds)
    decreases |w|
  {
    hide Edge, Output;
    if |w| > 0 {
      var p, ds := w[0], Falls(w[0].sck, w[1..]);
      if Falling(s, p) {
        CalmEdge(s.flash, p.dat);
        SelectedRun(Step(s, p), w[1..]);
        assert Falls(s.lastSck, w) == [p.dat] + ds;
        assert ([p.dat] + ds)[1..] == ds;
      } else {
        SelectedRun(Step(s, p), w[1..]);
        assert Falls(s.lastSck, w) == ds;
      }
    }
  }

  // ---- bytes -------------------------------------------------------------------------

  /** A whole byte shifted in, and the byte boundary processed. */
  function ByteStep(f: Flash, b: byte): (r: Flash)
    requires f.Valid()
    ensures r.Valid() && r.mem == f.mem
  {
    Process(ByteShifted(f, b))
  }

  function ByteShifted(f: Flash, b: byte): (g: Flash)
    requires f.Valid()
    ensures g.Valid() && g == f.(ireg := g.ireg, oreg := g.oreg, count := g.count)
  {
    f.(ireg := (f.ireg * 256 + b) % WORD, oreg := f.oreg * 256 % WORD, count := (f.count + 8) % WORD)
  }

  /** A later byte boundary of a command that sends data. */
  lemma OutBoundary(f: Flash, b: byte)
    requires f.Valid() && f.state != QuadReadIdle && f.state != DualReadIdle
    requires 8 <= f.count < WORD - 8 && f.count % 8 == 0
    requires !Programming(f.state) && f.state != WriteStatus && f.state != SectorErase
    ensures ByteShifted(f, b).count == f.count + 8 && ByteStep(f, b) == DataOut(Load(ByteShifted(f, b), 0))
  {
    hide Decode, DataIn, DataOut;
    assert (f.count + 8) % 8 == 0;
  }

  /** The number spelled, most significant bit first, on data line 0. */
  function SpiValue(ds: seq<nibble>): nat {
    if |ds| == 0 then 0 else 2 * SpiValue(ds[..|ds| - 1]) + ds[|ds| - 1] % 2
  }

  /** The edges that send byte b on a bus of the given width. */
  predicate Spells(m: Mode, ds: seq<nibble>, b: byte) {
    match m
    case Spi => |ds| == 8 && SpiValue(ds) == b
    case Quad => |ds| == 2 && b / 16 == ds[0] && b % 16 == ds[1]
    case Dual => false
  }

  lemma MidByteEdge(f: Flash, d: nibble)
    requires f.Valid() && f.state != QuadReadIdle && f.state != DualReadIdle
    requires ShiftIn(f, d).count % 8 != 0
    ensures Edge(f, d) == ShiftIn(f, d)
  {
    hide Decode, ByteDone, ShiftIn;
    ShiftKeeps(f, d);
  }

  lemma {:induction false} SpiShift(f: Flash, ds: seq<nibble>)
    requires f.Valid() && f.mode == Spi && f.state != QuadReadIdle && f.state != DualReadIdle
    requires f.count % 8 == 0 && f.count < WORD - 8 && |ds| < 8
    ensures Edges(f, ds) == f.(ireg := BitsIn(f.ireg, |ds|, SpiValue(ds)), oreg := BitsIn(f.oreg, |ds|, 0),
                               count := f.count + |ds|)
    decreases |ds|
  {
    hide Edge, BitsIn;
    if |ds| > 0 {
      var n := |ds| - 1;
      SpiShift(f, ds[..n]);
      LastEdge(f, ds);
      SpiShiftBit(f, Edges(f, ds[..n]), n, SpiValue(ds[..n]), ds[n]);
    } else {
      NoShift(f.ireg);
      NoShift(f.oreg);
    }
  }

  lemma SpiShiftBit(f: Flash, mid: Flash, n: nat, v: nat, d: nibble)
    requires f.Valid() && f.mode == Spi && f.state != QuadReadIdle && f.state != DualReadIdle
    requires f.count % 8 == 0 && f.count < WORD - 8 && n < 7
    requires mid == f.(ireg := BitsIn(f.ireg, n, v), oreg := BitsIn(f.oreg, n, 0), count := f.count + n)
    ensures Edge(mid, d)
         == f.(ireg := BitsIn(f.ireg, n + 1, 2 * v + d % 2), oreg := BitsIn(f.oreg, n + 1, 0),
               count := f.count + (n + 1))
  {
    hide Edge, BitsIn;
    SpiBit(mid, d);
    BitsInNext(f.ireg, n, v, d % 2);
    BitsInNext(f.oreg, n, 0, 0);
  }

  lemma LastEdge(f: Flash, ds: seq<nibble>)
    requires f.Valid() && |ds| > 0
    ensures Edges(f, ds) == Edge(Edges(f, ds[..|ds| - 1]), ds[|ds| - 1])
  {
    hide Edge;
    var n := |ds| - 1;
    assert ds == ds[..n] + [ds[n]];
    EdgesAppend(f, ds[..n], [ds[n]]);
    OneEdge(Edges(f, ds[..n]), ds[n]);
  }

  lemma OneEdge(f: Flash, d: nibble)
    requires f.Valid()
    ensures Edges(f, [d]) == Edge(f, d)
  {
    hide Edge;
  }

  /** One bit of a byte that is not its last. */
  lemma SpiBit(f: Flash, d: nibble)
    requires f.Valid() && f.mode == Spi && f.state != QuadReadIdle && f.state != DualReadIdle
    requires f.count < WORD - 1 && (f.count + 1) % 8 != 0
    ensures Edge(f, d) == f.(ireg := (f.ireg * 2 + d % 2) % WORD, oreg := f.oreg * 2 % WORD, count := f.count + 1)
  {
    MidByteEdge(f, d);
  }

  /** A register after n bits of value v have been shifted in. */
  function BitsIn(x: nat, n: nat, v: nat): word { (x * Pow2(n) + v) % WORD }

  lemma NoShift(x: word)
    ensures BitsIn(x, 0, 0) == x
  {
  }

  lemma BitsInNext(x: nat, n: nat, v: nat, d: nat)
    ensures (BitsIn(x, n, v) * 2 + d) % WORD == BitsIn(x, n + 1, 2 * v + d)
  {
    DoubleMod(x * Pow2(n) + v, d);
    assert x * Pow2(n + 1) == 2 * (x * Pow2(n));
  }

  lemma DoubleMod(x: nat, d: nat)
    ensures (x % WORD * 2 + d) % WORD == (2 * x + d) % WORD
  {
    assert x % WORD * 2 + d == 2 * x + d - WORD * (2 * (x / WORD));
    WordPeriod(2 * x + d - WORD * (2 * (x / WORD)), 2 * (x / WORD));
  }

  lemma {:induction false} WordPeriod(x: int, k: nat)
    requires x >= 0
    ensures (x + WORD * k) % WORD == x % WORD
  {
    if k > 0 {
      WordPeriod(x, k - 1);
      assert x + WORD * k == x + WORD * (k - 1) + WORD;
    }
  }

  lemma SpiByteEdges(f: Flash, ds: seq<nibble>, b: byte)
    requires f.Valid() && f.mode == Spi && f.state != QuadReadIdle && f.state != DualReadIdle
    requires f.count % 8 == 0 && f.count < WORD - 8 && Spells(Spi, ds, b)
    ensures Edges(f, ds) == ByteStep(f, b)
  {
    hide Process, Edges, ByteShifted, BitsIn;
    SpiShift(f, ds[..7]);
    LastEdge(f, ds);
    SpiLast(f, Edges(f, ds[..7]), SpiValue(ds[..7]), ds[7], b);
  }

  lemma SpiLast(f: Flash, mid: Flash, v: nat, d: nibble, b: byte)
    requires f.Valid() && f.mode == Spi && f.count < WORD - 8 && b == 2 * v + d % 2
    requires mid == f.(ireg := BitsIn(f.ireg, 7, v), oreg := BitsIn(f.oreg, 7, 0), count := f.count + 7)
    ensures ShiftIn(mid, d) == ByteShifted(f, b)
  {
    assert Pow2(7) == 128 && Pow2(8) == 256 by { assert Pow2(3) == 8; assert Pow2(5) == 32; }
    BitsInNext(f.ireg, 7, v, d % 2);
    BitsInNext(f.oreg, 7, 0, 0);
  }

  lemma TwoEdges(f: Flash, ds: seq<nibble>)
    requires f.Valid() && |ds| == 2
    ensures Edges(f, ds) == Edge(Edge(f, ds[0]), ds[1])
    ensures EdgeOutputs(f, ds) == [Output(Edge(f, ds[0]), ds[0]), Output(Edges(f, ds), ds[1])]
  {
    hide Edge;
    EdgesAppend(f, [ds[0]], [ds[1]]);
    assert ds == [ds[0]] + [ds[1]];
  }

  lemma TwoShifts(f: Flash, d: nibble, e: nibble, b: byte)
    requires f.Valid() && f.mode == Quad && f.count < WORD - 8 && b / 16 == d && b % 16 == e
    ensures ShiftIn(ShiftIn(f, d), e) == ByteShifted(f, b)
    ensures ShiftIn(f, d).oreg / 256 % 16 == f.oreg / 16 % 16
  {
    SixteenMod(f.ireg, d, e);
    SixteenMod(f.oreg, 0, 0);
    HighNibbleShown(f.oreg);
  }

  /** Two edges on the quad bus; the first one shows the high half of the low byte of the
      output register. */
  lemma QuadByteEdges(f: Flash, ds: seq<nibble>, b: byte)
    requires f.Valid() && f.mode == Quad && f.state != QuadReadIdle && f.state != DualReadIdle
    requires f.count % 8 == 0 && f.count < WORD - 8 && Spells(Quad, ds, b)
    ensures Edges(f, ds) == ByteStep(f, b)
    ensures EdgeOutputs(f, ds)[0] == f.oreg / 16 % 16
    ensures EdgeOutputs(f, ds)[1] == Output(ByteStep(f, b), ds[1])
  {
    hide Process, ByteShifted;
    TwoEdges(f, ds);
    MidByteEdge(f, ds[0]);
    TwoShifts(f, ds[0], ds[1], b);
  }

  lemma IdleQuadByteEdges(f: Flash, ds: seq<nibble>, b: byte)
    requires f.Valid() && f.mode == Quad && f.state == QuadReadIdle
    requires f.count % 8 == 0 && f.count < WORD - 8 && Spells(Quad, ds, b)
    ensures Edges(f, ds) == ByteStep(f, b)
  {
    hide Process, ByteShifted, Edges, Edge;
    TwoEdges(f, ds);
    TwoShifts(f, ds[0], ds[1], b);
    var g := ShiftIn(f, ds[0]);
    IdleFirstEdge(f, ds[0]);
    ShiftKeeps(f, ds[0]);
    IdleSecondEdge(g, ds[1]);
    IdleIgnoresOutput(ShiftIn(g, ds[1]), 0);
  }

  lemma IdleFirstEdge(f: Flash, d: nibble)
    requires f.Valid() && f.mode == Quad && f.state == QuadReadIdle && f.count % 8 == 0 && f.count < WORD - 8
    ensures Edge(f, d) == ShiftIn(f, d).(oreg := 0)
  {
  }

  lemma IdleSecondEdge(g: Flash, e: nibble)
    requires g.Valid() && g.mode == Quad && g.state == QuadReadIdle
    ensures ShiftIn(g, e).Valid() && Edge(g.(oreg := 0), e) == Process(ShiftIn(g, e).(oreg := 0))
  {
    hide Process;
  }

  lemma IdleIgnoresOutput(g: Flash, oreg: word)
    requires g.Valid() && g.state == QuadReadIdle
    ensures Process(g.(oreg := oreg)) == Process(g)
  {
  }

  lemma SixteenMod(x: nat, d: nat, e: nat)
    ensures ((x * 16 + d) % WORD * 16 + e) % WORD == (x * 256 + d * 16 + e) % WORD
  {
    var q := (x * 16 + d) / WORD;
    assert x * 256 + d * 16 + e == (x * 16 + d) % WORD * 16 + e + WORD * (16 * q);
    WordPeriod((x * 16 + d) % WORD * 16 + e, 16 * q);
  }

  lemma HighNibbleShown(x: nat)
    ensures x * 16 % WORD / 256 % 16 == x / 16 % 16
  {
    var q := x * 16 / WORD;
    var y := x - q * 0x1000_0000;
    assert x * 16 % WORD == y * 16;
    assert y * 16 / 256 == y / 16;
    assert y / 16 == x / 16 - q * 0x100_0000;
    NibblePeriod(y / 16, q * 0x10_0000);
  }

  lemma NibblePeriod(y: int, k: int)
    ensures (y + 16 * k) % 16 == y % 16
  {
  }
}
