/** The flash simulator object: one memory array, one page buffer and the registers. */
module FlashSim {
  import opened FixedPoint
  import opened FlashSpec

  class Simulator {
    const mem: array<byte>
    const pmem: array<byte>
    var state: State
    var mode: Mode
    var lastSck: bool
    var writeCount: word
    var ireg: word
    var oreg: word
    var sreg: Status
    var creg: byte
    var addr: word
    var count: word
    var modeByte: byte

    ghost predicate Valid()
    {
      mem.Length == MEM_BYTES && pmem.Length == 256 && mem != pmem
    }

    ghost function Now(): (f: Flash)
      requires Valid()
      reads this, mem, pmem
      ensures f.Valid()
    {
      Flash(state, mode, writeCount, ireg, oreg, sreg, creg, addr, count, modeByte, mem[..], pmem[..])
    }

    /** Registers that the source leaves uninitialised start with whatever is given. */
    constructor (strayAddr: word, strayCount: word)
      ensures Valid() && Initial(Sim(Now(), lastSck))
      ensures fresh(mem) && fresh(pmem)
    {
      mem := new byte[MEM_BYTES](_ => 255);
      pmem := new byte[256];
      state, mode, lastSck, writeCount := Idle, Spi, true, 0;
      ireg, oreg, creg, modeByte := 0, 0, 1, 0;
      sreg := Status(false, false, true, true, true, false, false, false, false);
      addr, count := strayAddr, strayCount;
    }

    method ProgramCells()
      requires Valid() && Page(addr) + 256 <= MEM_BYTES
      modifies mem
      ensures mem[..] == ProgramPage(old(mem[..]), Page(addr), pmem[..])
    {
      var page := Page(addr);
      for i := 0 to 256
        invariant forall j :: 0 <= j < mem.Length ==>
          mem[j] == if page <= j < page + i then And(old(mem[j]), pmem[j - page]) else old(mem[j])
      {
        mem[page + i] := And(mem[page + i], pmem[i]);
      }
    }

    method EraseCells(from: nat, n: nat)
      requires Valid() && from + n <= MEM_BYTES
      modifies mem
      ensures mem[..] == EraseRange(old(mem[..]), from, n)
    {
      for i := 0 to n
        invariant forall j :: 0 <= j < mem.Length ==> mem[j] == if from <= j < from + i then 255 else old(mem[j])
      {
        mem[from + i] := 255;
      }
    }

    method CompleteWrite()
      requires Valid() && Writing(state) && !DeselectFaults(Now())
      modifies this, mem
      ensures lastSck == old(lastSck) && Valid() && Now() == FinishWrite(old(Now()))
      ensures WriteDone(old(Now()), mem[..], writeCount)
    {
      hide ProgramPage, EraseRange, WriteDone;
      WrittenMeans(Now());
      writeCount, sreg := WriteTime(state), sreg.Started();
      if Programming(state) {
        ProgramCells();
        mode := Spi;
      } else if state == SectorErase {
        addr := SectorStart(addr);
        EraseCells(addr, SECTOR);
      } else if state == BulkErase {
        EraseCells(0, MEM_BYTES);
      }
      state := Idle;
    }

    method EndRead(idle: State)
      requires Valid()
      modifies this`mode, this`state
      ensures Now() == ContinueOrStop(old(Now()), idle)
    {
      if modeByte / 16 != 0xA {
        mode := Spi;
      } else {
        state := idle;
      }
    }

    /** What chip select high ends, other than a program or erase. */
    method EndOther()
      requires Valid() && !Writing(state)
      modifies this`mode, this`state, this`sreg, this`writeCount
      ensures Now() == DeselectOther(old(Now()))
    {
      hide ContinueOrStop;
      match state {
        case ClearStatus =>
          state, sreg := Idle, sreg.(b5 := false, b6 := false, deepSleep := false);
        case DeepPowerDown =>
          writeCount, state := T_DP, Idle;
        case Release =>
          writeCount, state := T_RES, Idle;
        case QuadReadCmd =>
          EndRead(QuadReadIdle);
        case QuadRead =>
          EndRead(QuadReadIdle);
        case DualReadCmd =>
          EndRead(DualReadIdle);
        case DualRead =>
          EndRead(DualReadIdle);
        case _ =>
      }
    }

    method ChipSelectHigh()
      requires Valid() && !DeselectFaults(Now())
      modifies this, mem
      ensures lastSck == old(lastSck) && Valid() && Now() == Deselect(old(Now()))
    {
      hide FinishWrite, Written, DeselectOther;
      ireg, oreg, count := 0, 0xfe, 0;
      if Writing(state) {
        CompleteWrite();
      } else {
        EndOther();
      }
    }

    method LoadOutput(value: byte)
      modifies this`oreg
      ensures oreg == old(oreg) - old(oreg) % 256 + value
    {
      oreg := oreg - oreg % 256 + value;
    }

    method FetchNext()
      requires Valid() && addr < MEM_BYTES
      modifies this`oreg, this`addr
      ensures Now() == Fetch(old(Now()))
    {
      LoadOutput(mem[addr]);
      addr := (addr + 1) % WORD;
    }

    method StoreByte()
      requires Valid()
      modifies pmem, this`addr
      ensures Now() == Store(old(Now()))
    {
      pmem[addr % 256] := ireg % 256;
      addr := Page(addr) + (addr + 1) % 256;
    }

    method ClearPage()
      requires Valid()
      modifies pmem
      ensures pmem[..] == Blank()
    {
      for i := 0 to 256
        invariant forall j :: 0 <= j < i ==> pmem[j] == 255
      {
        pmem[i] := 255;
      }
    }

    method AcceptOrReject(next: State)
      modifies this`state
      ensures state == if sreg.Writable() then next else Invalid
    {
      state := if sreg.Writable() then next else Invalid;
    }

    method LowCommand(op: byte)
      requires Valid() && op < 0x40 && !sreg.deepSleep
      modifies this
      ensures Valid() && Now() == Decode(old(Now()), op)
    {
      if op == 0x01 {
        AcceptOrReject(WriteStatus);
      } else if op == 0x02 {
        AcceptOrReject(PageProgram);
      } else if op == 0x03 {
        state := SlowRead;
      } else if op == 0x04 {
        state, sreg := Idle, sreg.(wel := false);
      } else if op == 0x05 {
        state := ReadStatus;
        LoadOutput(sreg.Byte());
      } else if op == 0x06 {
        state, sreg := Idle, sreg.(wel := true);
      } else if op == 0x0b {
        state := FastRead;
      } else if op == 0x30 {
        state := ClearStatus;
      } else if op == 0x32 {
        AcceptOrReject(QuadPageProgram);
      } else if op == 0x35 {
        state := ReadConfig;
        LoadOutput(creg);
      } else if op == 0x00 {
        state, mode := Idle, Spi;
      } else {
        state := Invalid;
      }
    }

    method HighCommand(op: byte)
      requires Valid() && op >= 0x40 && (op == 0xab || !sreg.deepSleep)
      modifies this
      ensures Valid() && Now() == Decode(old(Now()), op)
    {
      if op == 0x50 || op == 0x61 || op == 0x70 {
        state := Idle;
        LoadOutput(0);
      } else if op == 0x81 {
        LoadOutput(0);
      } else if op == 0x9f {
        state := ReadId;
        LoadOutput(DEVID / 0x100_0000 % 256);
      } else if op == 0xab {
        if sreg.deepSleep {
          sreg := sreg.(deepSleep := false);
          writeCount := T_RES;
        }
        state := Release;
      } else if op == 0xb9 {
        if sreg.wip {
          state := Invalid;
        } else {
          sreg := sreg.(deepSleep := true);
          state := Idle;
        }
      } else if op == 0xbb {
        state, mode := DualReadCmd, Dual;
      } else if op == 0xc7 {
        AcceptOrReject(BulkErase);
      } else if op == 0xd8 {
        AcceptOrReject(SectorErase);
      } else if op == 0xeb {
        state, mode := QuadReadCmd, Quad;
      } else if op == 0xff {
        state, mode := Idle, Spi;
      } else if op == 0x66 || op == 0x99 {
      } else {
        state := Invalid;
      }
    }

    method Command()
      requires Valid()
      modifies this
      ensures Valid() && Now() == Decode(old(Now()), old(ireg) % 256)
    {
      var op := ireg % 256;
      if sreg.deepSleep && op != 0xab {
      } else if op < 0x40 {
        LowCommand(op);
      } else {
        HighCommand(op);
      }
    }

    method ReceiveByte()
      requires Valid() && !ByteFaults(Now())
      modifies this, pmem
      ensures Valid() && Now() == DataIn(old(Now()))
    {
      match state
      case WriteStatus =>
        if count == 16 {
          sreg := sreg.(wel := false, deepSleep := false, b2 := Set(ireg, 4), b3 := Set(ireg, 8),
                        b4 := Set(ireg, 16), b7 := Set(ireg, 128));
        } else {
          creg := creg - creg / 2 % 2 * 2 + ireg / 2 % 2 * 2;
        }
      case PageProgram =>
        if count == 32 {
          addr := ireg % MEM_BYTES;
          ClearPage();
        } else if count >= 40 {
          StoreByte();
        }
      case QuadPageProgram =>
        if count == 32 {
          addr := ireg % MEM_BYTES;
          mode := Quad;
          ClearPage();
        } else if count >= 40 {
          StoreByte();
        }
      case SectorErase =>
        if count == 32 { addr := SectorAddress(ireg); }
      case _ =>
    }

    method SendByte()
      requires Valid() && !ByteFaults(Now())
      modifies this
      ensures Valid() && Now() == DataOut(old(Now()))
    {
      match state
      case ReadId =>
        LoadOutput((if count == 16 then DEVID / 0x1_0000 else if count == 24 then DEVID / 0x100 else DEVID) % 256);
      case ReadStatus => LoadOutput(sreg.Byte());
      case ReadConfig => LoadOutput(creg);
      case SlowRead =>
        if count == 32 {
          addr := ireg % MEM_BYTES;
          FetchNext();
        } else if count >= 40 && !sreg.wip {
          FetchNext();
        } else {
          oreg := 0;
        }
      case FastRead =>
        if count == 32 {
          addr := ireg % MEM_BYTES;
          LoadOutput(0xc3);
        } else if count >= 40 && !sreg.wip {
          FetchNext();
        } else {
          oreg := 0;
        }
      case DualReadCmd =>
        if count == 32 {
          addr := ireg % MEM_BYTES;
        } else if count >= 40 && !sreg.wip {
          if count == 40 { modeByte := ireg % 256; }
          FetchNext();
        } else {
          oreg := 0;
        }
      case QuadReadCmd =>
        if count == 32 {
          addr := ireg % MEM_BYTES;
        } else if count == 40 {
          modeByte := ireg % 256;
        } else if count >= 56 && !sreg.wip {
          FetchNext();
        } else {
          oreg := 0;
        }
      case DualRead =>
        if count == 32 { modeByte := ireg % 256; }
        FetchNext();
      case QuadRead =>
        if count == 32 {
          modeByte := ireg % 256;
        } else if count >= 48 && !sreg.wip {
          FetchNext();
        } else {
          oreg := 0;
        }
      case Release =>
        if count >= 32 { LoadOutput(DEVESD); }
      case _ =>
    }

    method ShiftPins(dat: nibble)
      requires Valid()
      modifies this`ireg, this`count, this`oreg
      ensures Now() == ShiftIn(old(Now()), dat)
    {
      if mode == Quad {
        ireg, count, oreg := (ireg * 16 + dat) % WORD, (count + 4) % WORD, oreg * 16 % WORD;
      } else if mode == Dual {
        ireg, count, oreg := (ireg * 4 + dat % 4) % WORD, (count + 2) % WORD, oreg * 4 % WORD;
      } else {
        ireg, count, oreg := (ireg * 2 + dat % 2) % WORD, (count + 1) % WORD, oreg * 2 % WORD;
      }
    }

    /** An address nibble of a continued read. */
    method IdleEdge(next: State)
      requires Valid()
      modifies this`addr, this`state, this`oreg
      ensures Now() == EnterRead(old(Now()), next)
    {
      if count == 24 {
        addr, state := ireg % MEM_BYTES, next;
      }
      oreg := 0;
    }

    /** A later byte boundary. */
    method ByteBoundary()
      requires Valid() && !ByteFaults(Now())
      modifies this, pmem
      ensures Valid() && Now() == ByteDone(Load(old(Now()), 0))
    {
      hide DataIn, DataOut;
      LoadOutput(0);
      if Programming(state) || state == WriteStatus || state == SectorErase {
        ReceiveByte();
      } else {
        SendByte();
      }
    }

    method FallingEdge(dat: nibble)
      requires Valid() && !EdgeFaults(Now(), dat)
      modifies this, pmem
      ensures Valid() && Now() == Edge(old(Now()), dat)
    {
      hide Decode, ByteDone, ByteFaults, ShiftIn, EnterRead;
      ShiftPins(dat);
      if state == QuadReadIdle {
        IdleEdge(QuadRead);
      } else if state == DualReadIdle {
        IdleEdge(DualRead);
      } else if count == 8 {
        LoadOutput(0xa5);
        Command();
      } else if count % 8 == 0 && count != 0 {
        ByteBoundary();
      }
    }

    /** One call of the simulator. */
    method Call(csn: bool, sck: bool, dat: nibble) returns (pins: nibble)
      requires Valid() && !StepFaults(Sim(Now(), lastSck), Pins(csn, sck, dat))
      modifies this, mem, pmem
      ensures Valid() && Sim(Now(), lastSck) == Step(old(Sim(Now(), lastSck)), Pins(csn, sck, dat))
      ensures pins == StepOutput(old(Sim(Now(), lastSck)), Pins(csn, sck, dat))
    {
      hide Deselect, Edge, EdgeFaults, DeselectFaults;
      if writeCount > 0 {
        writeCount := writeCount - 1;
        if writeCount == 0 {
          sreg := sreg.Expired();
        }
      }
      if csn {
        lastSck := true;
        ChipSelectHigh();
        return dat;
      }
      if lastSck && !sck {
        FallingEdge(dat);
      }
      lastSck := sck;
      if mode == Quad {
        pins := oreg / 256 % 16;
      } else if mode == Dual {
        pins := oreg / 256 % 4 + dat / 4 * 4;
      } else {
        pins := (if oreg / 256 % 2 == 1 then 2 else 0) + (dat - dat / 2 % 2 * 2);
      }
    }
  }
}
