/** Fixed-width integers and the fixed-point filter shared by the convolution
    accelerator, its software reference and the streaming engine.  */
module FixedPoint {

  type int8 = x: int | -128 <= x < 128
  type int32 = x: int | -0x8000_0000 <= x < 0x8000_0000

  const TWO31: int := 0x8000_0000
  const WORD: int := 0x1_0000_0000

  type byte = x: int | 0 <= x < 256
  type word = x: int | 0 <= x < WORD

  function Pow2(n: nat): (r: int)
    ensures r >= 1
  {
    if n == 0 then 1 else 2 * Pow2(n - 1)
  }

  lemma {:induction false} Pow2Monotone(a: nat, b: nat)
    requires a <= b
    ensures Pow2(a) <= Pow2(b)
  {
    if a < b {
      Pow2Monotone(a, b - 1);
    }
  }

  lemma {:induction false} Pow2Sum(a: nat, b: nat)
    ensures Pow2(a + b) == Pow2(a) * Pow2(b)
  {
    if b > 0 {
      Pow2Sum(a, b - 1);
      assert Pow2(a) * (2 * Pow2(b - 1)) == 2 * (Pow2(a) * Pow2(b - 1));
    }
  }

  function Clip8(x: int): int8 {
    if x > 127 then 127 else if x < -128 then -128 else x
  }

  /** C's integer division (section 6.5.5 of C11): the quotient is truncated toward zero. */
  function TruncDiv(a: int, b: int): int
    requires b > 0
  {
    if a >= 0 then a / b else -((-a) / b)
  }

  function Zeros(n: nat): (r: seq<int8>)
    ensures |r| == n
  {
    seq(n, _ => 0)
  }

  function Product(x: int, y: int): int { x * y }

  /** Sum of the products of two equally long byte strings. */
  function Dot(a: seq<int8>, b: seq<int8>): int
    requires |a| == |b|
  {
    if |a| == 0 then 0
    else Dot(a[..|a| - 1], b[..|b| - 1]) + Product(a[|a| - 1], b[|b| - 1])
  }

  lemma {:induction false} DotBound(a: seq<int8>, b: seq<int8>)
    requires |a| == |b|
    ensures -16384 * |a| <= Dot(a, b) <= 16384 * |a|
  {
    if |a| == 0 {
    } else {
      DotBound(a[..|a| - 1], b[..|b| - 1]);
      ProductBound(a[|a| - 1], b[|b| - 1]);
    }
  }

  lemma ProductBound(x: int8, y: int8)
    ensures -16384 <= Product(x, y) <= 16384
  {
    var a: int, b: int := x, y;
    if a >= 0 {
      assert -128 * a <= a * b <= 128 * a;
    } else {
      assert 128 * a <= a * b <= -128 * a;
    }
  }

  lemma {:induction false} DotAppend(a: seq<int8>, b: seq<int8>, c: seq<int8>, d: seq<int8>)
    requires |a| == |b| && |c| == |d|
    ensures Dot(a + c, b + d) == Dot(a, b) + Dot(c, d)
  {
    if |c| == 0 {
      assert a + c == a && b + d == b;
    } else {
      var n := |c| - 1;
      DotAppend(a, b, c[..n], d[..n]);
      assert (a + c)[..|a + c| - 1] == a + c[..n];
      assert (b + d)[..|b + d| - 1] == b + d[..n];
    }
  }

  /** The requantisation every layer ends with: an arithmetic right shift
      (a floor division) and a clip to int8. */
  function Requantise(acc: int, rshift: nat): int8 {
    Clip8(acc / Pow2(rshift))
  }

  /** q is s / d rounded to the nearest integer, a half going up, and saturated to int8. */
  predicate RoundsTo(q: int, s: int, d: int) {
    || (-128 <= q <= 127 && -d <= 2 * (s - q * d) < d)
    || (q == 127 && 2 * (s - 127 * d) >= d)
    || (q == -128 && 2 * (s + 128 * d) < -d)
  }

  lemma PowerHalves(r: nat)
    ensures Pow2(r) == 1 || Pow2(r) == 2 * (Pow2(r) / 2)
  {
    if r > 0 {
      var half := Pow2(r - 1);
      hide Pow2;
      assert 2 * half / 2 == half;
    }
  }

  /** The quotient of x + d / 2 is the nearest integer to x / d. */
  lemma NearestQuotient(x: int, d: int, q: int)
    requires d == 1 || (d > 0 && d == 2 * (d / 2))
    ensures q == (x + d / 2) / d <==> -d <= 2 * (x - q * d) < d
  {
    var y := x + d / 2;
    var v := y / d;
    assert y == v * d + y % d;
    if q < v {
      TimesLess(q, v, d);
    } else if v < q {
      TimesLess(v, q, d);
    }
  }

  lemma {:induction false} TimesLess(p: int, q: int, d: int)
    requires d > 0 && p < q
    ensures p * d + d <= q * d
    decreases q - p
  {
    assert (p + 1) * d == p * d + d;
    if p + 1 < q {
      TimesLess(p + 1, q, d);
    }
  }

  /** Half the divisor before the shift, and the clip after it, are rounding with saturation. */
  lemma RequantiseRounds(s: int, r: nat, q: int)
    ensures q == Requantise(s + Pow2(r) / 2, r) <==> RoundsTo(q, s, Pow2(r))
  {
    var d := Pow2(r);
    var v := (s + d / 2) / d;
    PowerHalves(r);
    NearestQuotient(s, d, v);
    RoundedBounds(s, d, v);
    if -128 <= q <= 127 {
      NearestQuotient(s, d, q);
    }
  }

  lemma RoundedBounds(s: int, d: int, v: int)
    requires d > 0 && -d <= 2 * (s - v * d) < d
    ensures v > 127 <==> 2 * (s - 127 * d) >= d
    ensures v < -128 <==> 2 * (s + 128 * d) < -d
  {
    if v > 127 {
      TimesLess(127, v, d);
    } else if v < 127 {
      TimesLess(v, 127, d);
    }
    if v < -128 {
      TimesLess(v, -128, d);
    } else if v > -128 {
      TimesLess(-128, v, d);
    }
  }

  /** A convolution layer: one weight row per output channel over a window of
      `taps` input bytes, and per-channel bias and shifts. */
  datatype Filter = Filter(taps: nat, weights: seq<seq<int8>>,
                           bias8: seq<int8>, lshift: seq<nat>, rshift: seq<nat>)
  {
    predicate Valid() {
      && |bias8| == |lshift| == |rshift| == |weights|
      && forall c :: 0 <= c < |weights| ==> |weights[c]| == taps
    }

    function Channels(): nat { |weights| }

    /** The bias aligned to the accumulator, plus half of the divisor 2^rshift. */
    function Bias32(c: nat): int
      requires Valid() && c < Channels()
    {
      Product(bias8[c], Pow2(lshift[c])) + Pow2(rshift[c]) / 2
    }

    /** One output frame: every channel applied to the same window of input bytes. */
    function Apply(window: seq<int8>): (frame: seq<int8>)
      requires Valid() && |window| == taps
      ensures |frame| == Channels()
    {
      seq(Channels(), c requires 0 <= c < Channels() =>
        Requantise(Dot(window, weights[c]) + Bias32(c), rshift[c]))
    }
  }

  /** memcpy between two distinct buffers. */
  method Copy<T>(dst: array<T>, at: nat, src: array<T>, from: nat, n: nat)
    requires dst != src && at + n <= dst.Length && from + n <= src.Length
    modifies dst
    ensures dst[..] == old(dst[..at]) + src[from..from + n] + old(dst[at + n..])
  {
    for i := 0 to n
      invariant dst[..at] == old(dst[..at])
      invariant dst[at..at + i] == src[from..from + i]
      invariant forall j :: at + i <= j < dst.Length ==> dst[j] == old(dst[j])
    {
      dst[at + i] := src[from + i];
    }
    assert dst[..] == dst[..at] + dst[at..at + n] + dst[at + n..];
  }
}
