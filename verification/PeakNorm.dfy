/** Per-clip peak normalisation: the samples of a clip are scaled in place so that its
    peak becomes 96, in integer arithmetic. */
module PeakNorm {
  import opened FixedPoint
  import Ring

  function Abs(x: int): nat { if x < 0 then -x else x }

  /** The largest magnitude in the clip. */
  function Peak(clip: seq<int8>): (p: nat)
    ensures p <= 128
  {
    if |clip| == 0 then 0
    else
      var rest, a := Peak(clip[..|clip| - 1]), Abs(clip[|clip| - 1]);
      if a > rest then a else rest
  }

  /** One sample before clamping: 96 * s / peak, rounded by adding half the peak to the
      magnitude and truncating; a peak of 1 is scaled by 64. */
  function Scale(s: int, peak: nat): int
    requires peak > 0
  {
    if peak == 1 then s * 64
    else if s >= 0 then TruncDiv(s * 96 + peak / 2, peak)
    else TruncDiv(s * 96 - peak / 2, peak)
  }

  function Normalised(clip: seq<int8>): (out: seq<int8>)
    ensures |out| == |clip|
  {
    var peak := Peak(clip);
    if peak < 1 then clip
    else seq(|clip|, i requires 0 <= i < |clip| => Clip8(Scale(clip[i], peak)))
  }

  method PeakNormClip(buf: array<int8>, n: nat)
    requires n <= buf.Length
    modifies buf
    ensures buf[..] == Normalised(old(buf[..n])) + old(buf[n..])
  {
    var peak := 0;
    for i := 0 to n
      invariant peak == Peak(buf[..i])
    {
      var x: int := buf[i];
      var a := if x < 0 then -x else x;
      assert buf[..i + 1][..i] == buf[..i];
      if a > peak {
        peak := a;
      }
    }
    if peak < 1 {
      assert buf[..] == buf[..n] + buf[n..];
      return;
    }
    for i := 0 to n
      invariant peak == Peak(old(buf[..n]))
      invariant forall j :: i <= j < buf.Length ==> buf[j] == old(buf[j])
      invariant forall j :: 0 <= j < i ==> buf[j] == Clip8(Scale(old(buf[j]), peak))
    {
      var s: int := buf[i];
      var scaled;
      if peak == 1 {
        scaled := s * 64;
      } else {
        var half := peak / 2;
        scaled := if s >= 0 then TruncDiv(s * 96 + half, peak) else TruncDiv(s * 96 - half, peak);
      }
      if scaled > 127 {
        scaled := 127;
      }
      if scaled < -128 {
        scaled := -128;
      }
      buf[i] := scaled;
    }
    assert buf[..] == buf[..n] + buf[n..];
    assert buf[..n] == Normalised(old(buf[..n]));
  }

  /** The peak bounds every sample and is the magnitude of one of them. */
  lemma {:induction false} PeakIsMaximum(clip: seq<int8>)
    ensures forall i :: 0 <= i < |clip| ==> Abs(clip[i]) <= Peak(clip)
    ensures |clip| > 0 ==> exists i :: 0 <= i < |clip| && Abs(clip[i]) == Peak(clip)
  {
    if |clip| > 0 {
      var rest, last := clip[..|clip| - 1], |clip| - 1;
      PeakIsMaximum(rest);
      forall i | 0 <= i < |clip| ensures Abs(clip[i]) <= Peak(clip) {
        assert i < last ==> clip[i] == rest[i];
      }
      if Peak(clip) == Peak(rest) && |rest| > 0 {
        var i :| 0 <= i < |rest| && Abs(rest[i]) == Peak(rest);
        assert clip[i] == rest[i];
      } else {
        assert Abs(clip[last]) == Peak(clip);
      }
    }
  }

  /** q = a / b, by its bounds. */
  lemma Quotient(a: int, b: int, q: int)
    requires b > 0 && a >= 0 && q * b <= a < q * b + b
    ensures a / b == q
  {
    Ring.ModShift(q, a - q * b, b);
  }

  /** A scaled magnitude is the integer nearest to 96 * s / peak, a half going up. */
  lemma Nearest(s: nat, peak: int, r: int)
    requires peak >= 2
    ensures r == Scale(s, peak) <==> -peak < 2 * (r * peak - 96 * s) <= peak
  {
    var a := s * 96 + peak / 2;
    assert a == (a / peak) * peak + a % peak;
    if -peak < 2 * (r * peak - 96 * s) <= peak {
      Quotient(a, peak, r);
    }
  }

  /** Every scaled sample is within half a unit of 96 * s / peak, and a half goes away
      from zero. */
  lemma HalfUnit(s: int, peak: int)
    requires peak >= 2
    ensures s >= 0 ==> -peak < 2 * (Scale(s, peak) * peak - 96 * s) <= peak
    ensures s <= 0 ==> -peak <= 2 * (Scale(s, peak) * peak - 96 * s) < peak
  {
    var r := Scale(Abs(s), peak);
    Nearest(Abs(s), peak, r);
    Odd(s, peak);
    assert -r * peak == -(r * peak);
  }

  lemma Odd(s: int, peak: nat)
    requires peak > 0
    ensures Scale(-s, peak) == -Scale(s, peak)
  {
  }

  lemma Monotone(s: int, t: int, peak: nat)
    requires peak > 0 && s <= t
    ensures Scale(s, peak) <= Scale(t, peak)
  {
    if peak > 1 {
      if 0 <= s {
        DivMonotone(s * 96 + peak / 2, t * 96 + peak / 2, peak);
      } else if t < 0 {
        DivMonotone(-t * 96 + peak / 2, -s * 96 + peak / 2, peak);
      } else {
        Positive(t, peak);
        Positive(-s, peak);
        Odd(-s, peak);
      }
    }
  }

  lemma DivMonotone(a: int, b: int, d: int)
    requires 0 <= a <= b && 0 < d
    ensures a / d <= b / d
  {
    Ring.Multiples(b / d, a / d, d);
  }

  lemma Positive(s: nat, peak: nat)
    requires peak > 0
    ensures Scale(s, peak) >= 0
  {
    if peak > 1 {
      DivMonotone(0, s * 96 + peak / 2, peak);
    }
  }

  /** Samples keep their sign: none is flushed to zero. */
  lemma SignKept(s: int, peak: nat)
    requires 0 < peak <= 128
    ensures s > 0 <==> Scale(s, peak) > 0
    ensures s < 0 <==> Scale(s, peak) < 0
  {
    var one := Scale(1, peak);
    assert one > 0 by {
      if peak > 1 {
        DivMonotone(peak, 96 + peak / 2, peak);
      }
    }
    Odd(1, peak);
    if s > 0 {
      Monotone(1, s, peak);
    } else if s < 0 {
      Monotone(s, -1, peak);
    } else {
      assert Scale(0, peak) == 0 by {
        if peak > 1 {
          Quotient(peak / 2, peak, 0);
        }
      }
    }
  }

  /** The peak a clip has afterwards. */
  function Target(peak: nat): nat {
    if peak == 0 then 0 else if peak == 1 then 64 else 96
  }

  lemma PeakScales(peak: nat)
    requires peak > 0
    ensures Scale(peak, peak) == Target(peak)
  {
    if peak > 1 {
      Quotient(peak * 96 + peak / 2, peak, 96);
    }
  }

  /** Samples within the peak stay within the target, so neither clamp ever acts. */
  lemma InRange(s: int, peak: nat)
    requires 0 < peak && Abs(s) <= peak
    ensures Abs(Scale(s, peak)) <= Target(peak)
    ensures Clip8(Scale(s, peak)) == Scale(s, peak)
  {
    PeakScales(peak);
    var p: int := peak;
    Odd(p, peak);
    Monotone(s, p, peak);
    Monotone(-p, s, peak);
  }

  lemma NormalisedAt(clip: seq<int8>, i: nat)
    requires i < |clip| && Peak(clip) > 0
    ensures Normalised(clip)[i] == Scale(clip[i], Peak(clip))
    ensures Abs(Normalised(clip)[i]) <= Target(Peak(clip))
  {
    PeakIsMaximum(clip);
    InRange(clip[i], Peak(clip));
  }

  /** The normalised clip peaks at exactly 96 (64 for a peak of 1, silence stays silent). */
  lemma PeakAfter(clip: seq<int8>)
    ensures Peak(Normalised(clip)) == Target(Peak(clip))
  {
    var out, peak := Normalised(clip), Peak(clip);
    if peak > 0 {
      PeakIsMaximum(clip);
      PeakIsMaximum(out);
      var i :| 0 <= i < |clip| && Abs(clip[i]) == peak;
      NormalisedAt(clip, i);
      PeakScales(peak);
      Odd(peak, peak);
      assert Abs(out[i]) == Target(peak);
      var j :| 0 <= j < |out| && Abs(out[j]) == Peak(out);
      NormalisedAt(clip, j);
    }
  }

  lemma FullScale(s: int)
    ensures Scale(s, 96) == s
  {
  }

  /** Normalising twice is normalising once, except for a clip whose peak is 1: the first
      pass takes it to 64 and the second to 96. */
  lemma IdempotentUnlessPeakOne(clip: seq<int8>)
    ensures Normalised(Normalised(clip)) == Normalised(clip) <==> Peak(clip) != 1
  {
    var once := Normalised(clip);
    var twice := Normalised(once);
    PeakAfter(clip);
    PeakAfter(once);
    if Peak(clip) > 1 {
      forall i | 0 <= i < |once| ensures twice[i] == once[i] {
        NormalisedAt(once, i);
        FullScale(once[i]);
      }
    }
  }

  // ---- against the rounding of the training pipeline -------------------------------------------

  /** a / d rounded to the nearest integer, a half to the even neighbour. */
  function HalfEven(a: int, d: int): int
    requires d > 0
  {
    Nearer(a / d, a % d, d)
  }

  function Nearer(q: int, r: int, d: int): int {
    if 2 * r < d || (2 * r == d && q % 2 == 0) then q else q + 1
  }

  /** round(s * min(96 / peak, 64)), as the training pipeline computes it. */
  function Trained(s: int, peak: nat): int
    requires peak > 0
  {
    if 96 > 64 * peak then HalfEven(64 * s, 1) else HalfEven(96 * s, peak)
  }

  function TrainedClip(clip: seq<int8>): (out: seq<int8>)
    ensures |out| == |clip|
  {
    var peak := Peak(clip);
    if peak < 1 then clip
    else seq(|clip|, i requires 0 <= i < |clip| => Clip8(Trained(clip[i], peak)))
  }

  /** The exact magnitude lies half-way above an even number. */
  predicate EvenTie(s: int, peak: nat) {
    peak >= 2 && 2 * (96 * Abs(s) % peak) == peak && 96 * Abs(s) / peak % 2 == 0
  }

  lemma HalfEvenNegated(a: int, d: int)
    requires d > 0 && a >= 0
    ensures HalfEven(-a, d) == -HalfEven(a, d)
  {
    var q, r := a / d, a % d;
    if r == 0 {
      assert -q * d == -(q * d);
      NegatedQuotient(a, d, -q, 0);
    } else {
      assert (-q - 1) * d == -(q * d) - d;
      NegatedQuotient(a, d, -q - 1, d - r);
      assert Nearer(-q - 1, d - r, d) == -Nearer(q, r, d);
    }
  }

  lemma NegatedQuotient(a: int, d: int, q: int, r: int)
    requires 0 <= r < d && -a == q * d + r
    ensures HalfEven(-a, d) == Nearer(q, r, d)
  {
    Ring.ModShift(q, r, d);
  }

  lemma ScaledMagnitude(s: nat, peak: nat)
    requires peak >= 2
    ensures var q, r := 96 * s / peak, 96 * s % peak;
            Scale(s, peak) == if 2 * r < peak then q else q + 1
  {
    var a := 96 * s;
    var q, r := a / peak, a % peak;
    var up := if 2 * r < peak then q else q + 1;
    assert a == q * peak + r;
    assert (q + 1) * peak == q * peak + peak;
    Nearest(s, peak, up);
  }

  /** One sample is rounded as in training exactly if it is no such tie. */
  lemma RoundsAsTrained(s: int, peak: nat)
    requires peak > 0
    ensures Scale(s, peak) == Trained(s, peak) <==> !EvenTie(s, peak)
  {
    hide HalfEven;
    if peak >= 2 {
      var a := 96 * Abs(s);
      ScaledMagnitude(Abs(s), peak);
      Odd(Abs(s), peak);
      hide Scale;
      HalfEvenNegated(a, peak);
      assert HalfEven(a, peak) == Nearer(a / peak, a % peak, peak) by { Opened(a, peak); }
    } else {
      Whole(64 * s);
    }
  }

  lemma Opened(a: int, d: int)
    requires d > 0
    ensures HalfEven(a, d) == Nearer(a / d, a % d, d)
  {
  }

  lemma Whole(a: int)
    ensures HalfEven(a, 1) == a
  {
  }

  /** Neither clamp hides it. */
  lemma TieWithinPeak(s: int, peak: nat)
    requires 0 < peak && Abs(s) <= peak && EvenTie(s, peak)
    ensures Clip8(Trained(s, peak)) != Clip8(Scale(s, peak))
  {
    RoundsAsTrained(s, peak);
    InRange(s, peak);
    ScaledMagnitude(Abs(s), peak);
    Odd(Abs(s), peak);
    HalfEvenNegated(96 * Abs(s), peak);
    assert Abs(Trained(s, peak)) <= Abs(Scale(s, peak));
  }

  /** A clip is normalised as in training exactly if none of its samples is such a tie. */
  lemma NormalisedAsTrained(clip: seq<int8>)
    ensures Normalised(clip) == TrainedClip(clip)
       <==> forall i :: 0 <= i < |clip| ==> !EvenTie(clip[i], Peak(clip))
  {
    var peak := Peak(clip);
    if peak > 0 {
      PeakIsMaximum(clip);
      forall i | 0 <= i < |clip|
        ensures Normalised(clip)[i] == TrainedClip(clip)[i] <==> !EvenTie(clip[i], peak)
      {
        RoundsAsTrained(clip[i], peak);
        if EvenTie(clip[i], peak) {
          TieWithinPeak(clip[i], peak);
        }
      }
    }
  }

  /** It happens: a sample of 3 in a clip that peaks at 64 becomes 5 where training has 4. */
  lemma TieOccurs()
    ensures Normalised([3, 64]) == [5, 96] && TrainedClip([3, 64]) == [4, 96]
  {
    var clip: seq<int8> := [3, 64];
    assert clip[..1] == [3] && Peak([3]) == 3;
    assert Peak(clip) == 64;
  }
}
