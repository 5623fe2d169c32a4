/** A buffer written round and round: the value number t of a history is stored
    in slot t % cap.  Three buffers of the firmware work this way: the average
    pooling ring of the streaming engine, the score history of the detector and
    the DMA audio ring. */
module Ring {

  /** The ring holds the last |ring| values of the history, each in its slot. */
  ghost predicate Holds<T>(ring: seq<T>, history: seq<T>)
    requires |ring| > 0
  {
    forall t :: 0 <= t < |history| && |history| <= t + |ring| ==> ring[t % |ring|] == history[t]
  }

  function Latest<T>(history: seq<T>, n: nat): (r: seq<T>)
    ensures |r| == if |history| < n then |history| else n
  {
    if |history| < n then history else history[|history| - n..]
  }

  lemma TakeNext<T>(s: seq<T>, i: nat)
    requires i < |s|
    ensures s[..i + 1] == s[..i] + [s[i]] && s == s[..i + 1] + s[i + 1..]
  {
  }

  /** Two multiples of cap that differ are at least cap apart. */
  lemma Multiples(p: int, q: int, cap: int)
    requires 0 < cap
    ensures p < q ==> p * cap + cap <= q * cap
    ensures q < p ==> q * cap + cap <= p * cap
  {
    if p < q {
      MultiplesApart(p, q, cap);
    } else if q < p {
      MultiplesApart(q, p, cap);
    }
  }

  lemma {:induction false} MultiplesApart(p: int, q: int, cap: int)
    requires 0 < cap && p < q
    ensures p * cap + cap <= q * cap
    decreases q - p
  {
    assert q * cap == (q - 1) * cap + cap;
    if p + 1 < q {
      MultiplesApart(p, q - 1, cap);
    }
  }

  lemma SlotsDiffer(a: int, b: int, cap: int)
    requires 0 < cap && a < b < a + cap
    ensures a % cap != b % cap
  {
    if a % cap == b % cap {
      Multiples(b / cap, a / cap, cap);
    }
  }

  lemma Push<T>(ring: seq<T>, history: seq<T>, x: T)
    requires |ring| > 0 && Holds(ring, history)
    ensures Holds(ring[|history| % |ring| := x], history + [x])
  {
    var cap := |ring|;
    var ring' := ring[|history| % cap := x];
    forall t | 0 <= t < |history + [x]| && |history + [x]| <= t + cap
      ensures ring'[t % cap] == (history + [x])[t]
    {
      if t < |history| {
        SlotsDiffer(t, |history|, cap);
        assert ring[t % cap] == history[t];
      }
    }
  }

  /** The ring that a history leaves behind, starting with x everywhere. */
  function Filled<T>(history: seq<T>, cap: nat, x: T): (ring: seq<T>)
    requires 0 < cap
    ensures |ring| == cap
  {
    if |history| == 0 then seq(cap, _ => x)
    else
      var n := |history| - 1;
      Filled(history[..n], cap, x)[n % cap := history[n]]
  }

  lemma {:induction false} FilledHolds<T>(history: seq<T>, cap: nat, x: T)
    requires 0 < cap
    ensures Holds(Filled(history, cap, x), history)
    decreases |history|
  {
    if |history| > 0 {
      var n := |history| - 1;
      FilledHolds(history[..n], cap, x);
      Push(Filled(history[..n], cap, x), history[..n], history[n]);
      assert history == history[..n] + [history[n]];
    }
  }

  /** The position in the history of the value a slot holds after n pushes. */
  function Owner(n: nat, t: nat, cap: nat): (o: nat)
    requires 0 < cap && t < n
    ensures t <= o < n
  {
    n - 1 - (n - 1 - t) % cap
  }

  /** A slot holds the newest value written to it; value t is still there exactly
      until cap further values have been pushed. */
  lemma SlotOwner<T>(ring: seq<T>, history: seq<T>, t: nat)
    requires |ring| > 0 && Holds(ring, history) && t < |history|
    ensures var o := Owner(|history|, t, |ring|);
            t <= o < |history| && ring[t % |ring|] == history[o]
    ensures Owner(|history|, t, |ring|) == t <==> |history| <= t + |ring|
  {
    var n, cap := |history|, |ring|;
    var q := (n - 1 - t) / cap;
    var o := t + q * cap;
    assert o == Owner(n, t, cap);
    Multiples(0, q, cap);
    assert o == (t / cap + q) * cap + t % cap;
    ModShift(t / cap + q, t % cap, cap);
    assert ring[o % cap] == history[o];
  }

  lemma OwnerStays(n: nat, t: nat, cap: nat)
    requires 0 < cap && t < n
    ensures Owner(n, t, cap) == t <==> n <= t + cap
  {
    if n <= t + cap {
      ModShift(0, n - 1 - t, cap);
    }
  }

  lemma ModShift(q: int, r: int, cap: int)
    requires 0 <= r < cap
    ensures (q * cap + r) % cap == r && (q * cap + r) / cap == q
  {
    Multiples((q * cap + r) / cap, q, cap);
  }

  lemma SumMod(a: nat, b: nat, r: nat)
    requires 0 < r
    ensures (a % r + b) % r == (a + b) % r
  {
    var c := a % r + b;
    assert a + b == (a / r + c / r) * r + c % r;
    ModShift(a / r + c / r, c % r, r);
  }

  lemma DivAtMost(a: nat, b: nat, m: nat)
    requires b > 0 && a <= m * b
    ensures a / b <= m
  {
    Multiples(m, a / b, b);
  }

  /** What a reader of the occupied slots sees: the history itself until the ring
      is full, and from then on the last |ring| values, rotated. */
  lemma Contents<T>(ring: seq<T>, history: seq<T>)
    requires |ring| > 0 && Holds(ring, history)
    ensures |history| < |ring| ==> ring[..|history|] == history
    ensures |history| >= |ring| ==>
              var r := |history| % |ring|;
              var last := Latest(history, |ring|);
              ring == last[|ring| - r..] + last[..|ring| - r]
  {
    var cap, n := |ring|, |history|;
    if n < cap {
      forall t | 0 <= t < n ensures ring[t] == history[t] {
        ModShift(0, t, cap);
        assert ring[t % cap] == history[t];
      }
    } else {
      var r, q := n % cap, n / cap;
      var last := Latest(history, cap);
      var view := last[cap - r..] + last[..cap - r];
      forall s | 0 <= s < cap ensures ring[s] == view[s] {
        var t := if s < r then n - r + s else n - r - cap + s;
        assert n - r == q * cap && n - r - cap == (q - 1) * cap;
        ModShift(if s < r then q else q - 1, s, cap);
        assert ring[t % cap] == history[t];
      }
    }
  }

  function Sum(s: seq<int>): int {
    if |s| == 0 then 0 else Sum(s[..|s| - 1]) + s[|s| - 1]
  }

  lemma {:induction false} SumAppend(a: seq<int>, b: seq<int>)
    ensures Sum(a + b) == Sum(a) + Sum(b)
  {
    if |b| == 0 {
      assert a + b == a;
    } else {
      SumAppend(a, b[..|b| - 1]);
      assert (a + b)[..|a + b| - 1] == a + b[..|b| - 1];
    }
  }

  /** Channel c of every frame. */
  function Column(frames: seq<seq<int>>, c: nat): (col: seq<int>)
    requires forall i :: 0 <= i < |frames| ==> c < |frames[i]|
    ensures |col| == |frames|
  {
    seq(|frames|, i requires 0 <= i < |frames| => frames[i][c])
  }

  lemma RotatedColumn(a: seq<seq<int>>, b: seq<seq<int>>, c: nat, k: nat)
    requires forall i :: 0 <= i < |a| ==> c < |a[i]|
    requires forall i :: 0 <= i < |b| ==> c < |b[i]|
    requires k <= |b| && a == b[k..] + b[..k]
    ensures Column(a, c) == Column(b, c)[k..] + Column(b, c)[..k]
  {
  }

  /** A sum over the occupied slots does not depend on where the ring starts:
      it is the sum over the last min(cap, |history|) values in time order. */
  lemma SlotSum(ring: seq<seq<int>>, history: seq<seq<int>>, c: nat)
    requires |ring| > 0 && Holds(ring, history)
    requires forall i :: 0 <= i < |ring| ==> c < |ring[i]|
    requires forall i :: 0 <= i < |history| ==> c < |history[i]|
    ensures Sum(Column(ring[..|Latest(history, |ring|)|], c))
         == Sum(Column(Latest(history, |ring|), c))
  {
    Contents(ring, history);
    var cap := |ring|;
    var last := Latest(history, cap);
    if |history| < cap {
      assert ring[..|last|] == last;
    } else {
      var k := cap - |history| % cap;
      var col := Column(last, c);
      assert ring[..|last|] == ring;
      RotatedColumn(ring, last, c, k);
      hide Sum, Column;
      assert col == col[..k] + col[k..];
      SumAppend(col[..k], col[k..]);
      SumAppend(col[k..], col[..k]);
    }
  }
}
