/** The testbench's UART receiver: a small timed automaton stepped once per clock cycle,
    and the exact range of bit periods over which it decodes every transmission. */
module UartDecode {
  import opened FixedPoint
  import Ring

  const IDLE := 0
  const START := 1
  const STOP := 9

  datatype State = State(phase: nat, timer: int, shifter: nat, printed: seq<nat>)

  predicate Bit(b: nat, k: nat) {
    (b / Pow2(k)) % 2 == 1
  }

  /** x |= bit << k */
  function OrBit(x: nat, k: nat, bit: bool): nat {
    if bit && !Bit(x, k) then x + Pow2(k) else x
  }

  /** One clock cycle, with n cycles per bit. */
  function Step(s: State, tx: bool, n: nat): State {
    if s.phase == IDLE then
      if !tx then s.(phase := START, timer := n + n / 2) else s
    else if s.timer - 1 != 0 then
      s.(timer := s.timer - 1)
    else if START <= s.phase < STOP then
      s.(shifter := OrBit(s.shifter, s.phase - 1, tx), timer := n, phase := s.phase + 1)
    else if s.phase == STOP then
      State(IDLE, 0, 0, s.printed + [s.shifter])
    else
      s.(timer := 0)
  }

  function Run(s: State, line: seq<bool>, n: nat): State
    decreases |line|
  {
    if |line| == 0 then s else Run(Step(s, line[0], n), line[1..], n)
  }

  /** The variables of the testbench's main function that belong to the receiver. */
  class Decoder {
    const cyclesPerBit: nat
    var uartState: nat
    var bitTimer: int
    var shifter: nat
    var printed: seq<nat>

    function Now(): State
      reads this
    {
      State(uartState, bitTimer, shifter, printed)
    }

    constructor (cyclesPerBit: nat)
      ensures this.cyclesPerBit == cyclesPerBit && Now() == State(IDLE, 0, 0, [])
    {
      this.cyclesPerBit := cyclesPerBit;
      uartState, bitTimer, shifter, printed := IDLE, 0, 0, [];
    }

    method Cycle(tx: bool)
      modifies this
      ensures Now() == Step(old(Now()), tx, cyclesPerBit)
    {
      if uartState == IDLE {
        if !tx {
          uartState := START;
          bitTimer := cyclesPerBit + cyclesPerBit / 2;
        }
      } else {
        bitTimer := bitTimer - 1;
        if bitTimer == 0 {
          if START <= uartState < STOP {
            shifter := OrBit(shifter, uartState - 1, tx);
            bitTimer := cyclesPerBit;
            uartState := uartState + 1;
          } else if uartState == STOP {
            printed := printed + [shifter];
            shifter := 0;
            uartState := IDLE;
          }
        }
      }
    }

    method Watch(line: seq<bool>)
      modifies this
      ensures Now() == Run(old(Now()), line, cyclesPerBit)
    {
      var cycle := 0;
      while cycle < |line|
        invariant 0 <= cycle <= |line|
        invariant Run(Now(), line[cycle..], cyclesPerBit) == Run(old(Now()), line, cyclesPerBit)
      {
        Cycle(line[cycle]);
        cycle := cycle + 1;
      }
    }
  }

  // ---- the transmitter ---------------------------------------------------------------------

  /** Level of a frame's bit slot: start bit, eight data bits from the lowest, stop bit. */
  predicate Level(b: nat, slot: nat) {
    if slot == 0 then false else if slot <= 8 then Bit(b, slot - 1) else true
  }

  function FrameLine(b: nat, period: nat): (line: seq<bool>)
    requires period > 0
    ensures |line| == 10 * period
  {
    seq(10 * period, c requires 0 <= c < 10 * period => Level(b, c / period))
  }

  function Quiet(cycles: nat): (line: seq<bool>)
    ensures |line| == cycles
  {
    seq(cycles, _ => true)
  }

  /** A byte, sent after the line has rested for some cycles. */
  datatype Sent = Sent(gap: nat, byte: nat)

  predicate Bytes(message: seq<Sent>) {
    forall i :: 0 <= i < |message| ==> message[i].byte < 256
  }

  function Transmission(message: seq<Sent>, period: nat): seq<bool>
    requires period > 0
  {
    if |message| == 0 then []
    else Quiet(message[0].gap) + FrameLine(message[0].byte, period) + Transmission(message[1..], period)
  }

  function Payload(message: seq<Sent>): (bytes: seq<nat>)
    ensures |bytes| == |message|
  {
    if |message| == 0 then [] else [message[0].byte] + Payload(message[1..])
  }

  function Decoded(line: seq<bool>, n: nat): seq<nat> {
    Run(State(IDLE, 0, 0, []), line, n).printed
  }

  /** Every message, with any rests, is decoded by the time the line has been quiet
      for ten bit times. */
  ghost predicate DecodesAll(period: nat, n: nat)
    requires period > 0
  {
    forall message: seq<Sent> :: Bytes(message) ==>
      Decoded(Transmission(message, period) + Quiet(10 * n), n) == Payload(message)
  }

  /** The tolerance: nine bit times of error before the stop bit is sampled may not reach
      half a bit, nor may the sampling of the stop bit reach the next frame. */
  predicate Tolerated(period: nat, n: nat) {
    9 * period <= 9 * n + n / 2 + 1 && 9 * n + n / 2 < 10 * period
  }

  // ---- runs ----------------------------------------------------------------------------------

  lemma {:induction false} RunAppend(s: State, a: seq<bool>, b: seq<bool>, n: nat)
    ensures Run(s, a + b, n) == Run(Run(s, a, n), b, n)
    decreases |a|
  {
    if |a| == 0 {
      assert a + b == b;
    } else {
      assert (a + b)[1..] == a[1..] + b;
      RunAppend(Step(s, a[0], n), a[1..], b, n);
    }
  }

  lemma {:induction false} Hold(s: State, line: seq<bool>, n: nat)
    requires s.phase != IDLE && |line| < s.timer
    ensures Run(s, line, n) == s.(timer := s.timer - |line|)
    decreases |line|
  {
    if |line| > 0 {
      Hold(Step(s, line[0], n), line[1..], n);
    }
  }

  /** A sample is taken when the timer runs out, with the last cycle of the line. */
  lemma Sample(s: State, line: seq<bool>, n: nat)
    requires START <= s.phase < STOP && |line| == s.timer > 0
    ensures Run(s, line, n)
         == State(s.phase + 1, n, OrBit(s.shifter, s.phase - 1, line[|line| - 1]), s.printed)
  {
    Expire(s, line, n);
  }

  lemma Expire(s: State, line: seq<bool>, n: nat)
    requires s.phase != IDLE && |line| == s.timer > 0
    ensures Run(s, line, n) == Step(s.(timer := 1), line[|line| - 1], n)
  {
    hide Step;
    var m := |line| - 1;
    assert line == line[..m] + [line[m]];
    RunAppend(s, line[..m], [line[m]], n);
    Hold(s, line[..m], n);
    assert Run(s.(timer := 1), [line[m]], n) == Step(s.(timer := 1), line[m], n);
  }

  lemma {:induction false} Rest(s: State, line: seq<bool>, n: nat)
    requires s.phase == IDLE && forall c :: 0 <= c < |line| ==> line[c]
    ensures Run(s, line, n) == s
    decreases |line|
  {
    if |line| > 0 {
      Rest(s, line[1..], n);
    }
  }

  // ---- one frame -------------------------------------------------------------------------------

  /** Cycle of a frame at which sample k is taken: 0 is the detection of the start bit,
      1 to 8 the data bits, 9 the end of the frame. */
  function SampleAt(k: nat, n: nat): nat {
    if k == 0 then 0 else k * n + n / 2
  }

  lemma Shifted(b: nat, k: nat)
    ensures OrBit(b % Pow2(k), k, Bit(b, k)) == b % Pow2(k + 1)
  {
    var m := Pow2(k);
    hide Pow2;
    var q, low := b / m, b % m;
    LowPart(low, k);
    assert Pow2(k + 1) == 2 * m by { Doubled(k); }
    assert b == (2 * (q / 2) + q % 2) * m + low;
    Halves(b, m, q / 2, q % 2, low);
    assert q % 2 * m == if Bit(b, k) then m else 0;
  }

  lemma Doubled(k: nat)
    ensures Pow2(k + 1) == 2 * Pow2(k)
  {
  }

  lemma LowPart(low: nat, k: nat)
    requires low < Pow2(k)
    ensures !Bit(low, k)
  {
    Ring.ModShift(0, low, Pow2(k));
  }

  lemma Halves(b: nat, m: nat, h: nat, parity: nat, low: nat)
    requires m > 0 && b == (2 * h + parity) * m + low && low < m && parity < 2
    ensures b % (2 * m) == parity * m + low
  {
    assert (2 * h + parity) * m == h * (2 * m) + parity * m;
    Ring.ModShift(h, parity * m + low, 2 * m);
  }

  /** The drift of sample k is between nothing and that of sample 9. */
  lemma Drift(k: int, drift: int, half: nat, period: nat)
    requires 1 <= k <= 8 && half - period < 9 * drift <= half + 1 && half - period < 0
    ensures half - period < k * drift <= half
  {
    if drift <= 0 {
      assert 9 * drift <= k * drift <= 0;
    } else {
      assert 0 < k * drift <= 8 * drift;
    }
  }

  lemma InSlot(k: nat, n: nat, half: nat, period: nat)
    requires half - period < k * (period - n) <= half
    ensures (k * n + half) / period == k
  {
    assert k * (period - n) == k * period - k * n;
    Ring.ModShift(k, k * n + half - k * period, period);
  }

  /** Sample k falls into bit slot k. */
  lemma SampleInSlot(k: nat, period: nat, n: nat)
    requires Tolerated(period, n) && period > 0 && 1 <= k <= 8
    ensures SampleAt(k, n) < 10 * period && SampleAt(k, n) / period == k
  {
    Drift(k, period - n, n / 2, period);
    InSlot(k, n, n / 2, period);
    assert k * n <= 8 * n;
  }

  lemma SampledLevel(b: nat, period: nat, n: nat, k: nat)
    requires Tolerated(period, n) && period > 0 && 1 <= k <= 8
    ensures SampleAt(k, n) < 10 * period && FrameLine(b, period)[SampleAt(k, n)] == Bit(b, k - 1)
  {
    SampleInSlot(k, period, n);
  }

  lemma Detected(b: nat, period: nat, n: nat, printed: seq<nat>)
    requires period > 0
    ensures Run(State(IDLE, 0, 0, printed), FrameLine(b, period)[..1], n)
         == State(START, n + n / 2, 0, printed)
  {
    var line, idle := FrameLine(b, period), State(IDLE, 0, 0, printed);
    Ring.ModShift(0, 0, period);
    assert line[..1] == [false];
    assert Run(idle, [false], n) == Step(idle, false, n);
  }

  /** The receiver after sample k of a frame has shifted in the k lowest bits. */
  lemma {:induction false} AfterSample(b: nat, period: nat, n: nat, k: nat, printed: seq<nat>)
    requires Tolerated(period, n) && period > 0 && n > 0 && k <= 8 && SampleAt(k, n) < 10 * period
    ensures Run(State(IDLE, 0, 0, printed), FrameLine(b, period)[..SampleAt(k, n) + 1], n)
         == State(k + 1, if k == 0 then n + n / 2 else n, b % Pow2(k), printed)
    decreases k
  {
    hide Run, Step, OrBit, FrameLine, Tolerated;
    if k == 0 {
      Detected(b, period, n, printed);
    } else {
      var line, idle := FrameLine(b, period), State(IDLE, 0, 0, printed);
      var e, c := SampleAt(k - 1, n), SampleAt(k, n);
      assert c == e + if k == 1 then n + n / 2 else n;
      AfterSample(b, period, n, k - 1, printed);
      SampledLevel(b, period, n, k);
      var before, span := line[..e + 1], line[e + 1..c + 1];
      assert line[..c + 1] == before + span;
      RunAppend(idle, before, span, n);
      Sample(Run(idle, before, n), span, n);
      Shifted(b, k - 1);
    }
  }

  /** From the end of the last sample on the line is high. */
  lemma HighAfterStop(b: nat, period: nat, n: nat)
    requires Tolerated(period, n) && period > 0
    ensures SampleAt(9, n) < 10 * period
    ensures forall c :: SampleAt(9, n) < c < 10 * period ==> FrameLine(b, period)[c]
  {
    forall c | SampleAt(9, n) < c < 10 * period ensures FrameLine(b, period)[c] {
      Ring.ModShift(9, c - 9 * period, period);
    }
  }

  /** A tolerated frame is decoded, and the receiver rests when it ends. */
  lemma FrameDecoded(b: nat, period: nat, n: nat, printed: seq<nat>)
    requires Tolerated(period, n) && period > 0 && n > 0 && b < 256
    ensures Run(State(IDLE, 0, 0, printed), FrameLine(b, period), n) == State(IDLE, 0, 0, printed + [b])
  {
    hide Run, OrBit, FrameLine, Tolerated;
    var line, idle := FrameLine(b, period), State(IDLE, 0, 0, printed);
    var e, c := SampleAt(8, n), SampleAt(9, n);
    assert c == e + n;
    HighAfterStop(b, period, n);
    AfterSample(b, period, n, 8, printed);
    assert Pow2(8) == 256;
    var before, span, after := line[..e + 1], line[e + 1..c + 1], line[c + 1..];
    assert line == before + (span + after);
    RunAppend(idle, before, span + after, n);
    RunAppend(Run(idle, before, n), span, after, n);
    Expire(Run(idle, before, n), span, n);
    Rest(State(IDLE, 0, 0, printed + [b]), after, n);
  }

  lemma {:induction false} MessageDecoded(message: seq<Sent>, period: nat, n: nat, printed: seq<nat>)
    requires Tolerated(period, n) && period > 0 && n > 0 && Bytes(message)
    ensures Run(State(IDLE, 0, 0, printed), Transmission(message, period), n)
         == State(IDLE, 0, 0, printed + Payload(message))
    decreases |message|
  {
    if |message| == 0 {
      assert printed + Payload(message) == printed;
    } else {
      var idle, m := State(IDLE, 0, 0, printed), message[0];
      var frame, rest := FrameLine(m.byte, period), Transmission(message[1..], period);
      assert Transmission(message, period) == Quiet(m.gap) + (frame + rest);
      RunAppend(idle, Quiet(m.gap), frame + rest, n);
      Rest(idle, Quiet(m.gap), n);
      RunAppend(idle, frame, rest, n);
      FrameDecoded(m.byte, period, n, printed);
      MessageDecoded(message[1..], period, n, printed + [m.byte]);
      assert printed + [m.byte] + Payload(message[1..]) == printed + Payload(message);
    }
  }

  // ---- the bounds are exact ----------------------------------------------------------------------

  /** Cycles until a busy receiver prints. */
  function Remaining(s: State, n: nat): int {
    s.timer + Product(STOP - s.phase, n)
  }

  predicate Proper(s: State, n: nat) {
    if s.phase == IDLE then s.timer == 0
    else s.phase <= STOP && 0 < s.timer && Remaining(s, n) <= 9 * n + n / 2
  }

  /** Cycles accounted for: a full frame time for every byte printed and the part of
      the current frame that has passed. */
  function Spent(s: State, n: nat): int {
    Product(|s.printed|, 9 * n + n / 2 + 1)
    + if s.phase == IDLE then 0 else 9 * n + n / 2 + 1 - Remaining(s, n)
  }

  lemma OneMore(a: int, x: int)
    ensures Product(a + 1, x) == Product(a, x) + x && Product(0, x) == 0 && Product(8, x) == 8 * x
  {
  }

  /** No cycle is accounted for twice. */
  lemma SpentStep(s: State, tx: bool, n: nat)
    requires Proper(s, n) && n > 0
    ensures Proper(Step(s, tx, n), n) && s.printed <= Step(s, tx, n).printed
    ensures Spent(Step(s, tx, n), n) == Spent(s, n) + if s.phase == IDLE && tx then 0 else 1
  {
    hide Product;
    OneMore(|s.printed|, 9 * n + n / 2 + 1);
    OneMore(STOP - s.phase - 1, n);
  }

  lemma {:induction false} SpentRun(s: State, line: seq<bool>, n: nat)
    requires Proper(s, n) && n > 0
    ensures Proper(Run(s, line, n), n) && s.printed <= Run(s, line, n).printed
    ensures Spent(Run(s, line, n), n) <= Spent(s, n) + |line|
    decreases |line|
  {
    if |line| > 0 {
      hide Step, Proper, Spent;
      SpentStep(s, line[0], n);
      SpentRun(Step(s, line[0], n), line[1..], n);
    }
  }

  /** While the line is quiet a receiver at rest prints nothing, and a busy one at most
      the byte it is reading. */
  lemma {:induction false} QuietPrints(s: State, line: seq<bool>, n: nat)
    requires Proper(s, n) && n > 0 && forall c :: 0 <= c < |line| ==> line[c]
    ensures |Run(s, line, n).printed| <= |s.printed| + if s.phase == IDLE then 0 else 1
    decreases |line|
  {
    if |line| > 0 {
      SpentStep(s, line[0], n);
      QuietPrints(Step(s, line[0], n), line[1..], n);
    }
  }

  /** A busy receiver prints one byte, whatever the line does, when its time is up. */
  lemma {:induction false} BusyPrints(s: State, line: seq<bool>, n: nat)
    requires Proper(s, n) && n > 0 && s.phase != IDLE && |line| >= Remaining(s, n)
    ensures |Run(s, line, n).printed| > |s.printed|
    decreases |line|
  {
    assert Remaining(s, n) > 0 by {
      ProductSign(STOP - s.phase, n);
    }
    SpentStep(s, line[0], n);
    var s' := Step(s, line[0], n);
    if s'.phase == IDLE {
      SpentRun(s', line[1..], n);
    } else {
      OneMore(STOP - s.phase - 1, n);
      BusyPrints(s', line[1..], n);
    }
  }

  lemma ProductSign(a: nat, b: nat)
    ensures Product(a, b) >= 0
  {
  }

  lemma {:induction false} LowSpends(s: State, line: seq<bool>, n: nat)
    requires Proper(s, n) && n > 0 && forall c :: 0 <= c < |line| ==> !line[c]
    ensures Proper(Run(s, line, n), n) && Spent(Run(s, line, n), n) == Spent(s, n) + |line|
    decreases |line|
  {
    if |line| > 0 {
      hide Step, Proper, Spent;
      SpentStep(s, line[0], n);
      LowSpends(Step(s, line[0], n), line[1..], n);
    }
  }

  /** A full frame time and one cycle more account for one byte and a further start bit. */
  lemma OneAndBusy(s: State, n: nat)
    requires Proper(s, n) && n > 0 && Spent(s, n) == 9 * n + n / 2 + 2
    ensures |s.printed| == 1 && s.phase != IDLE
  {
    var full := 9 * n + n / 2 + 1;
    ProductSign(STOP, n);
    if s.phase != IDLE {
      ProductSign(STOP - s.phase, n);
    }
    Ring.Multiples(|s.printed|, 1, full);
    Ring.Multiples(2, |s.printed|, full);
  }

  /** A receiver that is too fast samples the stop bit before it has begun: after a zero
      byte the line is still low, which it takes for another start bit. */
  lemma TooFast(period: nat, n: nat)
    requires period > 0 && n > 0 && 9 * period > 9 * n + n / 2 + 1
    ensures |Decoded(Transmission([Sent(0, 0)], period) + Quiet(10 * n), n)| >= 2
  {
    hide Run, FrameLine, Spent;
    var idle, frame, full := State(IDLE, 0, 0, []), FrameLine(0, period), 9 * n + n / 2 + 1;
    var low, rest := frame[..full + 1], frame[full + 1..] + Quiet(10 * n);
    Lone(period);
    assert frame + Quiet(10 * n) == low + rest;
    forall c | 0 <= c < |low| ensures !low[c] {
      ZeroIsLow(period, c);
    }
    RunAppend(idle, low, rest, n);
    LowSpends(idle, low, n);
    IdleSpends(n);
    OneAndBusy(Run(idle, low, n), n);
    BusyPrints(Run(idle, low, n), rest, n);
  }

  lemma IdleSpends(n: nat)
    ensures Proper(State(IDLE, 0, 0, []), n) && Spent(State(IDLE, 0, 0, []), n) == 0
  {
  }

  lemma Lone(period: nat)
    requires period > 0
    ensures Transmission([Sent(0, 0)], period) == FrameLine(0, period)
  {
    assert [Sent(0, 0)][1..] == [];
  }

  lemma ZeroIsLow(period: nat, c: nat)
    requires period > 0 && c < 9 * period
    ensures !FrameLine(0, period)[c]
  {
    Ring.Multiples(9, c / period, period);
    if c / period > 0 {
      ZeroBits(c / period - 1);
    }
  }

  lemma ZeroBits(k: nat)
    ensures !Bit(0, k)
  {
    Ring.ModShift(0, 0, Pow2(k));
  }

  lemma {:induction false} BackToBack(count: nat, period: nat)
    requires period > 0
    ensures |Transmission(seq(count, _ => Sent(0, 0)), period)| == Product(count, 10 * period)
  {
    var message := seq(count, _ => Sent(0, 0));
    if count > 0 {
      BackToBack(count - 1, period);
      assert message[1..] == seq(count - 1, _ => Sent(0, 0));
      OneMore(count - 1, 10 * period);
    }
  }

  lemma TooFew(s: State, n: nat)
    requires Proper(s, n) && n > 0
    requires Spent(s, n) <= Product(9 * n + n / 2 + 1, 9 * n + n / 2)
    ensures |s.printed| + (if s.phase == IDLE then 0 else 1) < 9 * n + n / 2 + 1
  {
    var full := 9 * n + n / 2 + 1;
    assert Product(full, full - 1) == (full - 1) * full;
    Ring.Multiples(|s.printed|, full - 1, full);
  }

  lemma ProductUpTo(a: nat, b: nat, c: nat)
    requires b <= c
    ensures Product(a, b) <= Product(a, c)
  {
    Ring.Multiples(b, c, a + 1);
  }

  /** A receiver that is too slow needs more than a frame time per byte, so in a long
      enough run of frames without rests it misses one, however long it waits after. */
  lemma TooSlow(period: nat, n: nat, wait: nat)
    requires period > 0 && n > 0 && 9 * n + n / 2 >= 10 * period
    ensures var count := 9 * n + n / 2 + 1;
            |Decoded(Transmission(seq(count, _ => Sent(0, 0)), period) + Quiet(wait), n)| < count
  {
    hide Run, Transmission, Spent, Proper, Product;
    var full := 9 * n + n / 2 + 1;
    var idle, line := State(IDLE, 0, 0, []), Transmission(seq(full, _ => Sent(0, 0)), period);
    RunAppend(idle, line, Quiet(wait), n);
    BackToBack(full, period);
    IdleSpends(n);
    SpentRun(idle, line, n);
    ProductUpTo(full, 10 * period, full - 1);
    TooFew(Run(idle, line, n), n);
    QuietPrints(Run(idle, line, n), Quiet(wait), n);
  }

  /** The receiver decodes every transmission exactly when the period is tolerated. */
  lemma BaudTolerance(period: nat, n: nat)
    requires period > 0 && n > 0
    ensures DecodesAll(period, n) <==> Tolerated(period, n)
  {
    if Tolerated(period, n) {
      forall message: seq<Sent> | Bytes(message)
        ensures Decoded(Transmission(message, period) + Quiet(10 * n), n) == Payload(message)
      {
        MessageDecoded(message, period, n, []);
        assert [] + Payload(message) == Payload(message);
        RunAppend(State(IDLE, 0, 0, []), Transmission(message, period), Quiet(10 * n), n);
        Rest(State(IDLE, 0, 0, Payload(message)), Quiet(10 * n), n);
      }
    } else if 9 * period > 9 * n + n / 2 + 1 {
      TooFast(period, n);
      assert Bytes([Sent(0, 0)]) && |Payload([Sent(0, 0)])| == 1;
    } else {
      var message := seq(9 * n + n / 2 + 1, _ => Sent(0, 0));
      TooSlow(period, n, 10 * n);
      assert Bytes(message) && |Payload(message)| == 9 * n + n / 2 + 1;
    }
  }
}
