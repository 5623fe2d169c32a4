/** The QSPI flash model as a function on its state: what one call of the simulator
    does with the chip-select, clock and data pins. */
module FlashSpec {
  import opened FixedPoint

  const MEM_BYTES: int := 0x100_0000   // lglen = 24
  const SECTOR: int := 0x1_0000

  // Write, erase and release times in calls, for a 100 MHz clock.
  const T_W: int := 5_000
  const T_BE: int := 3_200_000_000
  const T_DP: int := 1_000_000_000
  const T_RES: int := 3_000_000_000
  const T_PP: int := 1_200
  const T_SE: int := 1_500_000

  const DEVID: int := 0x0115_2340
  const DEVESD: int := 0x14

  type nibble = x: int | 0 <= x < 16

  datatype State =
    | Idle | QuadReadIdle | ReadStatus | ReadConfig | WriteStatus | ClearStatus | ReadId | Release
    | SlowRead | FastRead | QuadReadCmd | QuadRead | SectorErase | PageProgram | QuadPageProgram
    | BulkErase | DeepPowerDown | DualReadIdle | DualReadCmd | DualRead | Invalid

  datatype Mode = Spi | Dual | Quad

  /** The status register: WIP is bit 0, WEL bit 1, deep power down bit 9. */
  datatype Status = Status(wip: bool, wel: bool, b2: bool, b3: bool, b4: bool, b5: bool, b6: bool, b7: bool,
                           deepSleep: bool)
  {
    function Byte(): byte {
      Bit(wip) + 2 * Bit(wel) + 4 * Bit(b2) + 8 * Bit(b3) + 16 * Bit(b4) + 32 * Bit(b5) + 64 * Bit(b6) + 128 * Bit(b7)
    }

    /** WEL set, WIP and deep power down clear. */
    predicate Writable() { wel && !wip && !deepSleep }

    /** A write or erase begins. */
    function Started(): Status { this.(wel := false, wip := true) }

    /** The write timer runs out: the mask 0x0fc also drops WEL and deep power down. */
    function Expired(): Status { this.(wip := false, wel := false, deepSleep := false) }
  }

  function Bit(b: bool): int { if b then 1 else 0 }

  predicate Set(x: int, weight: int)
    requires weight > 0
  {
    x / weight % 2 == 1
  }

  datatype Flash = Flash(state: State, mode: Mode, writeCount: word, ireg: word, oreg: word,
                         sreg: Status, creg: byte, addr: word, count: word, modeByte: byte,
                         mem: seq<byte>, pmem: seq<byte>)
  {
    predicate Valid() { |mem| == MEM_BYTES && |pmem| == 256 }
  }

  // ---- bitwise and -------------------------------------------------------------

  function AndBits(a: nat, b: nat, n: nat): nat {
    if n == 0 then 0 else (if a % 2 == 1 && b % 2 == 1 then 1 else 0) + 2 * AndBits(a / 2, b / 2, n - 1)
  }

  function And(a: byte, b: byte): byte {
    AndBound(a, b, 8);
    AndBits(a, b, 8)
  }

  lemma {:induction false} AndBound(a: nat, b: nat, n: nat)
    ensures AndBits(a, b, n) < Pow2(n)
    ensures n == 8 ==> AndBits(a, b, n) < 256
  {
    if n > 0 {
      AndBound(a / 2, b / 2, n - 1);
    }
    assert Pow2(8) == 256;
  }

  /** Bit k of x is set. */
  predicate HasBit(x: nat, k: nat) { Set(x, Pow2(k)) }

  lemma NestedHalf(x: nat, m: nat)
    requires m > 0
    ensures x / (2 * m) == (x / 2) / m
  {
    var q, r := (x / 2) / m, (x / 2) % m;
    assert x / 2 == q * m + r;
    var rest := 2 * r + x % 2;
    assert x == q * (2 * m) + rest && 0 <= rest < 2 * m;
    var v := x / (2 * m);
    assert x == v * (2 * m) + x % (2 * m);
    if v < q {
      TimesLess(v, q, 2 * m);
    } else if q < v {
      TimesLess(q, v, 2 * m);
    }
  }

  lemma HalfBit(x: nat, k: nat)
    requires k > 0
    ensures HasBit(x, k) <==> HasBit(x / 2, k - 1)
  {
    NestedHalf(x, Pow2(k - 1));
  }

  /** A bit of the conjunction is set exactly if it is set on both sides. */
  lemma {:induction false} AndBitsBit(a: nat, b: nat, n: nat, k: nat)
    requires k < n
    ensures HasBit(AndBits(a, b, n), k) <==> HasBit(a, k) && HasBit(b, k)
    decreases n
  {
    if k > 0 {
      HalfBit(AndBits(a, b, n), k);
      HalfBit(a, k);
      HalfBit(b, k);
      AndBitsBit(a / 2, b / 2, n - 1, k - 1);
      assert AndBits(a, b, n) / 2 == AndBits(a / 2, b / 2, n - 1);
    }
  }

  /** r has exactly the bits that both a and b have. */
  ghost predicate BothSet(r: byte, a: byte, b: byte) {
    forall k: nat :: k < 8 ==> (HasBit(r, k) <==> HasBit(a, k) && HasBit(b, k))
  }

  lemma AndBoth(a: byte, b: byte)
    ensures BothSet(And(a, b), a, b)
  {
    forall k: nat | k < 8 ensures HasBit(And(a, b), k) <==> HasBit(a, k) && HasBit(b, k) {
      AndBitsBit(a, b, 8, k);
    }
  }

  lemma {:induction false} AndOnesBits(b: nat, n: nat)
    requires b < Pow2(n)
    ensures AndBits(Pow2(n) - 1, b, n) == b
  {
    if n > 0 {
      AndOnesBits(b / 2, n - 1);
      assert (Pow2(n) - 1) % 2 == 1 && (Pow2(n) - 1) / 2 == Pow2(n - 1) - 1;
    }
  }

  /** Programming an erased cell stores the byte itself. */
  lemma AndOnes(b: byte)
    ensures And(255, b) == b
  {
    assert Pow2(8) == 256;
    AndOnesBits(b, 8);
  }

  lemma {:induction false} AndOnesRightBits(a: nat, n: nat)
    requires a < Pow2(n)
    ensures AndBits(a, Pow2(n) - 1, n) == a
  {
    if n > 0 {
      AndOnesRightBits(a / 2, n - 1);
      assert (Pow2(n) - 1) % 2 == 1 && (Pow2(n) - 1) / 2 == Pow2(n - 1) - 1;
    }
  }

  /** A cell of the page that no byte was sent to keeps its value. */
  lemma AndOnesRight(a: byte)
    ensures And(a, 255) == a
  {
    assert Pow2(8) == 256;
    AndOnesRightBits(a, 8);
  }

  // ---- the output pins -----------------------------------------------------------

  function Output(f: Flash, dat: nibble): nibble {
    match f.mode
    case Quad => f.oreg / 256 % 16
    case Dual => f.oreg / 256 % 4 + dat / 4 * 4
    case Spi => (if f.oreg / 256 % 2 == 1 then 2 else 0) + (dat - dat / 2 % 2 * 2)
  }

  /** The low byte of the output register is replaced. */
  function Load(f: Flash, value: byte): Flash {
    f.(oreg := f.oreg - f.oreg % 256 + value)
  }

  /** Loads the addressed byte and moves on to the next one. */
  function Fetch(f: Flash): Flash {
    Load(f, if f.addr < |f.mem| then f.mem[f.addr] else 0).(addr := (f.addr + 1) % WORD)
  }

  // ---- a call with chip select high ------------------------------------------------

  function Page(addr: word): word { addr - addr % 256 }

  function ProgramPage(mem: seq<byte>, page: int, pmem: seq<byte>): (r: seq<byte>)
    requires |pmem| == 256
    ensures |r| == |mem|
  {
    seq(|mem|, i requires 0 <= i < |mem| =>
      if page <= i < page + 256 then And(mem[i], pmem[i - page]) else mem[i])
  }

  function EraseRange(mem: seq<byte>, from: int, n: int): (r: seq<byte>)
    ensures |r| == |mem|
  {
    seq(|mem|, i requires 0 <= i < |mem| => if from <= i < from + n then 255 else mem[i])
  }

  /** What a page program does to the 256 cells that share the upper address bits, bit by
      bit: it clears bits and sets none. */
  ghost predicate PageProgrammed(mem': seq<byte>, mem: seq<byte>, addr: word, pmem: seq<byte>)
    requires |mem'| == |mem| && |pmem| == 256
  {
    forall i :: 0 <= i < |mem| ==>
      if i / 256 == addr / 256 then BothSet(mem'[i], mem[i], pmem[i % 256]) else mem'[i] == mem[i]
  }

  lemma ProgramPageBits(mem: seq<byte>, addr: word, pmem: seq<byte>)
    requires |pmem| == 256
    ensures PageProgrammed(ProgramPage(mem, Page(addr), pmem), mem, addr, pmem)
  {
    hide And, BothSet;
    forall i | 0 <= i < |mem| && i / 256 == addr / 256
      ensures BothSet(ProgramPage(mem, Page(addr), pmem)[i], mem[i], pmem[i % 256])
    {
      assert i - Page(addr) == i % 256;
      AndBoth(mem[i], pmem[i % 256]);
    }
  }

  function SectorStart(addr: word): word { addr - addr % SECTOR }

  /** An erase sets the 64 KB that share the upper address bits to 0xFF. */
  predicate SectorErased(mem': seq<byte>, mem: seq<byte>, addr: word)
    requires |mem'| == |mem|
  {
    forall i :: 0 <= i < |mem| ==> mem'[i] == if i / 0x1_0000 == addr / 0x1_0000 then 0xff else mem[i]
  }

  lemma EraseRangeCells(mem: seq<byte>, addr: word)
    ensures SectorErased(EraseRange(mem, SectorStart(addr), SECTOR), mem, addr)
  {
  }

  predicate Programming(s: State) { s == PageProgram || s == QuadPageProgram }

  predicate Writing(s: State) {
    Programming(s) || s == SectorErase || s == WriteStatus || s == BulkErase
  }

  function WriteTime(s: State): word {
    match s
    case SectorErase => T_SE
    case WriteStatus => T_W
    case BulkErase => T_BE
    case _ => T_PP
  }

  /** The memory after the write or erase that f has accepted. */
  function Written(f: Flash): (mem: seq<byte>)
    requires f.Valid()
    ensures |mem| == |f.mem|
  {
    match f.state
    case PageProgram => ProgramPage(f.mem, Page(f.addr), f.pmem)
    case QuadPageProgram => ProgramPage(f.mem, Page(f.addr), f.pmem)
    case SectorErase => EraseRange(f.mem, SectorStart(f.addr), SECTOR)
    case BulkErase => EraseRange(f.mem, 0, MEM_BYTES)
    case _ => f.mem
  }

  /** What each kind of write makes of the memory, and how many calls it takes. */
  ghost predicate WriteDone(f: Flash, mem: seq<byte>, calls: int)
    requires f.Valid() && |mem| == |f.mem|
  {
    match f.state
    case PageProgram => PageProgrammed(mem, f.mem, f.addr, f.pmem) && calls == 1_200
    case QuadPageProgram => PageProgrammed(mem, f.mem, f.addr, f.pmem) && calls == 1_200
    case SectorErase => SectorErased(mem, f.mem, f.addr) && calls == 1_500_000
    case BulkErase => (forall i :: 0 <= i < |mem| ==> mem[i] == 0xff) && calls == 3_200_000_000
    case WriteStatus => mem == f.mem && calls == 5_000
    case _ => true
  }

  lemma WrittenMeans(f: Flash)
    requires f.Valid()
    ensures WriteDone(f, Written(f), WriteTime(f.state))
  {
    hide ProgramPage, PageProgrammed, SectorErased;
    ProgramPageBits(f.mem, f.addr, f.pmem);
    EraseRangeCells(f.mem, f.addr);
  }

  function FinishWrite(f: Flash): Flash
    requires f.Valid()
  {
    f.(writeCount := WriteTime(f.state), sreg := f.sreg.Started(), mem := Written(f), state := Idle,
       mode := if Programming(f.state) then Spi else f.mode,
       addr := if f.state == SectorErase then SectorStart(f.addr) else f.addr)
  }

  function ContinueOrStop(f: Flash, idle: State): Flash {
    if f.modeByte / 16 == 0xA then f.(state := idle) else f.(mode := Spi)
  }

  /** The states that chip select high ends without touching the memory. */
  function DeselectOther(f: Flash): Flash {
    match f.state
    case ClearStatus => f.(state := Idle, sreg := f.sreg.(b5 := false, b6 := false, deepSleep := false))
    case DeepPowerDown => f.(writeCount := T_DP, state := Idle)
    case Release => f.(writeCount := T_RES, state := Idle)
    case QuadReadCmd => ContinueOrStop(f, QuadReadIdle)
    case QuadRead => ContinueOrStop(f, QuadReadIdle)
    case DualReadCmd => ContinueOrStop(f, DualReadIdle)
    case DualRead => ContinueOrStop(f, DualReadIdle)
    case _ => f
  }

  function Deselect(f: Flash): (r: Flash)
    requires f.Valid()
    ensures r.Valid()
  {
    var r := f.(ireg := 0, oreg := 0xfe, count := 0);
    if Writing(f.state) then FinishWrite(r) else DeselectOther(r)
  }

  /** A page or sector outside the memory (an address left over from an earlier read). */
  predicate DeselectFaults(f: Flash) {
    || (Programming(f.state) && Page(f.addr) + 256 > MEM_BYTES)
    || (f.state == SectorErase && SectorStart(f.addr) + SECTOR > MEM_BYTES)
  }

  // ---- a falling clock edge ----------------------------------------------------------

  function Width(m: Mode): int {
    match m
    case Quad => 4
    case Dual => 2
    case Spi => 1
  }

  function ShiftIn(f: Flash, dat: nibble): Flash {
    match f.mode
    case Quad => f.(ireg := (f.ireg * 16 + dat) % WORD, count := (f.count + 4) % WORD, oreg := f.oreg * 16 % WORD)
    case Dual => f.(ireg := (f.ireg * 4 + dat % 4) % WORD, count := (f.count + 2) % WORD, oreg := f.oreg * 4 % WORD)
    case Spi => f.(ireg := (f.ireg * 2 + dat % 2) % WORD, count := (f.count + 1) % WORD, oreg := f.oreg * 2 % WORD)
  }

  function AcceptWrite(f: Flash, next: State): Flash {
    if f.sreg.Writable() then f.(state := next) else f.(state := Invalid)
  }

  /** The eighth command bit has arrived. */
  function Decode(f: Flash, op: byte): (r: Flash)
    ensures r.mem == f.mem && r.pmem == f.pmem
  {
    if f.sreg.deepSleep && op != 0xab then f
    else if op == 0x01 then AcceptWrite(f, WriteStatus)
    else if op == 0x02 then AcceptWrite(f, PageProgram)
    else if op == 0x03 then f.(state := SlowRead)
    else if op == 0x04 then f.(state := Idle, sreg := f.sreg.(wel := false))
    else if op == 0x05 then Load(f, f.sreg.Byte()).(state := ReadStatus)
    else if op == 0x06 then f.(state := Idle, sreg := f.sreg.(wel := true))
    else if op == 0x0b then f.(state := FastRead)
    else if op == 0x30 then f.(state := ClearStatus)
    else if op == 0x32 then AcceptWrite(f, QuadPageProgram)
    else if op == 0x35 then Load(f, f.creg).(state := ReadConfig)
    else if op == 0x50 || op == 0x61 || op == 0x70 then Load(f, 0).(state := Idle)
    else if op == 0x81 then Load(f, 0)
    else if op == 0x9f then Load(f, DEVID / 0x100_0000 % 256).(state := ReadId)
    else if op == 0xab then
      if f.sreg.deepSleep then f.(state := Release, sreg := f.sreg.(deepSleep := false), writeCount := T_RES)
      else f.(state := Release)
    else if op == 0xb9 then
      if f.sreg.wip then f.(state := Invalid) else f.(state := Idle, sreg := f.sreg.(deepSleep := true))
    else if op == 0xbb then f.(state := DualReadCmd, mode := Dual)
    else if op == 0xc7 then AcceptWrite(f, BulkErase)
    else if op == 0xd8 then AcceptWrite(f, SectorErase)
    else if op == 0xeb then f.(state := QuadReadCmd, mode := Quad)
    else if op == 0x00 || op == 0xff then f.(state := Idle, mode := Spi)
    else if op == 0x66 || op == 0x99 then f
    else f.(state := Invalid)
  }

  function Blank(): (p: seq<byte>)
    ensures |p| == 256
  {
    seq(256, _ => 255)
  }

  /** One byte of page data: stored in the page buffer, whose address wraps in the page. */
  function Store(f: Flash): Flash
    requires f.Valid()
  {
    f.(pmem := f.pmem[f.addr % 256 := f.ireg % 256], addr := Page(f.addr) + (f.addr + 1) % 256)
  }

  /** The mask 0x0ffc000: bits 14 to 23. */
  function SectorAddress(ireg: word): word {
    ireg / 0x4000 % 0x400 * 0x4000
  }

  /** A later byte boundary while the host sends data. */
  function DataIn(f: Flash): (r: Flash)
    requires f.Valid()
    ensures r.Valid() && r.mem == f.mem
  {
    match f.state
    case WriteStatus =>
      if f.count == 16 then
        f.(sreg := f.sreg.(wel := false, deepSleep := false, b2 := Set(f.ireg, 4), b3 := Set(f.ireg, 8),
                           b4 := Set(f.ireg, 16), b7 := Set(f.ireg, 128)))
      else if f.count == 24 then
        f.(creg := f.creg - f.creg / 2 % 2 * 2 + f.ireg / 2 % 2 * 2)
      else f
    case PageProgram =>
      if f.count == 32 then f.(addr := f.ireg % MEM_BYTES, pmem := Blank())
      else if f.count >= 40 then Store(f)
      else f
    case QuadPageProgram =>
      if f.count == 32 then f.(addr := f.ireg % MEM_BYTES, pmem := Blank(), mode := Quad)
      else if f.count >= 40 then Store(f)
      else f
    case SectorErase =>
      if f.count == 32 then f.(addr := SectorAddress(f.ireg)) else f
    case _ => f
  }

  /** A later byte boundary while the flash sends data. */
  function DataOut(f: Flash): (r: Flash)
    ensures r.mem == f.mem && r.pmem == f.pmem
  {
    match f.state
    case ReadId =>
      Load(f, (if f.count == 16 then DEVID / 0x1_0000 else if f.count == 24 then DEVID / 0x100 else DEVID) % 256)
    case ReadStatus => Load(f, f.sreg.Byte())
    case ReadConfig => Load(f, f.creg)
    case SlowRead =>
      if f.count == 32 then Fetch(f.(addr := f.ireg % MEM_BYTES))
      else if f.count >= 40 && !f.sreg.wip then Fetch(f)
      else f.(oreg := 0)
    case FastRead =>
      if f.count == 32 then Load(f.(addr := f.ireg % MEM_BYTES), 0xc3)
      else if f.count >= 40 && !f.sreg.wip then Fetch(f)
      else f.(oreg := 0)
    case DualReadCmd =>
      if f.count == 32 then f.(addr := f.ireg % MEM_BYTES)
      else if f.count == 40 && !f.sreg.wip then Fetch(f.(modeByte := f.ireg % 256))
      else if f.count > 40 && !f.sreg.wip then Fetch(f)
      else f.(oreg := 0)
    case QuadReadCmd =>
      if f.count == 32 then f.(addr := f.ireg % MEM_BYTES)
      else if f.count == 40 then f.(modeByte := f.ireg % 256)
      else if f.count >= 56 && !f.sreg.wip then Fetch(f)
      else f.(oreg := 0)
    case DualRead => Fetch(if f.count == 32 then f.(modeByte := f.ireg % 256) else f)
    case QuadRead =>
      if f.count == 32 then f.(modeByte := f.ireg % 256)
      else if f.count >= 48 && !f.sreg.wip then Fetch(f)
      else f.(oreg := 0)
    case Release => if f.count >= 32 then Load(f, DEVESD) else f
    case _ => f
  }

  /** A later byte boundary of a transaction. */
  function ByteDone(f: Flash): (r: Flash)
    requires f.Valid()
    ensures r.Valid() && r.mem == f.mem
  {
    if Programming(f.state) || f.state == WriteStatus || f.state == SectorErase then DataIn(f) else DataOut(f)
  }

  function EnterRead(f: Flash, next: State): Flash {
    (if f.count == 24 then f.(addr := f.ireg % MEM_BYTES, state := next) else f).(oreg := 0)
  }

  function Process(f: Flash): Flash
    requires f.Valid()
  {
    if f.state == QuadReadIdle then EnterRead(f, QuadRead)
    else if f.state == DualReadIdle then EnterRead(f, DualRead)
    else if f.count == 8 then Decode(Load(f, 0xa5), f.ireg % 256)
    else if f.count % 8 == 0 && f.count != 0 then ByteDone(Load(f, 0))
    else f
  }

  function Edge(f: Flash, dat: nibble): (r: Flash)
    requires f.Valid()
    ensures r.Valid() && r.mem == f.mem
  {
    Process(ShiftIn(f, dat))
  }

  /** The byte at m_addr is outside the memory. */
  predicate FetchFaults(f: Flash) { f.addr >= MEM_BYTES }

  /** The simulator stops (a failed assertion, exit) or its behaviour is undefined. */
  predicate ByteFaults(f: Flash) {
    match f.state
    case WriteStatus => f.count != 16 && f.count != 24
    case ClearStatus => true
    case ReadId => f.count > 32
    case SlowRead => f.count >= 40 && !f.sreg.wip && FetchFaults(f)
    case FastRead => f.count >= 40 && !f.sreg.wip && FetchFaults(f)
    case DualReadCmd => f.count >= 40 && !f.sreg.wip && FetchFaults(f)
    case QuadReadCmd => f.count >= 56 && !f.sreg.wip && FetchFaults(f)
    case DualRead => FetchFaults(f)
    case QuadRead => f.count >= 48 && !f.sreg.wip && FetchFaults(f)
    case SectorErase => f.count == 32 && SectorAddress(f.ireg) >= 0x40_0000
    case _ => false
  }

  predicate IdleReadFaults(f: Flash) {
    || (f.state == QuadReadIdle && (f.sreg.deepSleep || f.mode != Quad))
    || (f.state == DualReadIdle && (f.sreg.deepSleep || f.mode != Dual))
  }

  predicate EdgeFaults(f: Flash, dat: nibble) {
    var g := ShiftIn(f, dat);
    if g.state == QuadReadIdle || g.state == DualReadIdle then IdleReadFaults(g)
    else g.count != 8 && g.count % 8 == 0 && g.count != 0 && ByteFaults(g)
  }

  // ---- one call ------------------------------------------------------------------------

  datatype Pins = Pins(csn: bool, sck: bool, dat: nibble)

  function Tick(f: Flash): Flash {
    if f.writeCount == 0 then f
    else if f.writeCount == 1 then f.(writeCount := 0, sreg := f.sreg.Expired())
    else f.(writeCount := f.writeCount - 1)
  }

  /** The simulator between two calls: the flash and the clock level last seen. */
  datatype Sim = Sim(flash: Flash, lastSck: bool)

  predicate Falling(s: Sim, p: Pins) { !p.csn && s.lastSck && !p.sck }

  function Step(s: Sim, p: Pins): (r: Sim)
    requires s.flash.Valid()
    ensures r.flash.Valid()
  {
    var t := Tick(s.flash);
    Sim(if p.csn then Deselect(t) else if Falling(s, p) then Edge(t, p.dat) else t, p.csn || p.sck)
  }

  function StepOutput(s: Sim, p: Pins): nibble
    requires s.flash.Valid()
  {
    if p.csn then p.dat else Output(Step(s, p).flash, p.dat)
  }

  predicate StepFaults(s: Sim, p: Pins) {
    var t := Tick(s.flash);
    if p.csn then DeselectFaults(t) else Falling(s, p) && EdgeFaults(t, p.dat)
  }

  /** The state of a new simulator; the address register, bit counter and page buffer
      are not initialised. */
  predicate Initial(s: Sim) {
    var f := s.flash;
    && s.lastSck && f.Valid() && f.state == Idle && f.mode == Spi && f.writeCount == 0
    && f.ireg == 0 && f.oreg == 0 && f.modeByte == 0 && f.creg == 1
    && f.sreg == Status(false, false, true, true, true, false, false, false, false)
    && f.mem == seq(MEM_BYTES, _ => 255)
  }
}
