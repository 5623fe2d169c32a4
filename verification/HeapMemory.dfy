/** Block headers as bytes: words in memory, and lists of blocks laid out in it. */
module HeapMemory {
  import opened FixedPoint
  import opened HeapSpec

  /** The little-endian word at address a. */
  function Load(m: seq<byte>, a: nat): (v: word)
    requires a + 4 <= |m|
  {
    var b0: int, b1: int, b2: int, b3: int := m[a], m[a + 1], m[a + 2], m[a + 3];
    b0 + 0x100 * b1 + 0x1_0000 * b2 + 0x100_0000 * b3
  }

  function Store(m: seq<byte>, a: nat, v: word): (r: seq<byte>)
    requires a + 4 <= |m|
    ensures |r| == |m|
  {
    m[a := v % 0x100][a + 1 := v / 0x100 % 0x100][a + 2 := v / 0x1_0000 % 0x100][a + 3 := v / 0x100_0000]
  }

  lemma Digits(v: nat)
    ensures v == v % 0x100 + 0x100 * (v / 0x100 % 0x100) + 0x1_0000 * (v / 0x1_0000 % 0x100)
               + 0x100_0000 * (v / 0x100_0000)
  {
    var low, high := v % 0x1_0000, v / 0x1_0000;
    assert v / 0x100 == high * 0x100 + low / 0x100;
    assert v / 0x100_0000 == high / 0x100;
  }

  lemma LoadStored(m: seq<byte>, a: nat, v: word)
    requires a + 4 <= |m|
    ensures Load(Store(m, a, v), a) == v
  {
    Digits(v);
    var r := Store(m, a, v);
    assert r[a] == v % 0x100 && r[a + 1] == v / 0x100 % 0x100;
    assert r[a + 2] == v / 0x1_0000 % 0x100 && r[a + 3] == v / 0x100_0000;
  }

  lemma StoredAt(m: seq<byte>, a: nat, v: word, x: nat)
    requires a + 4 <= |m| && x < |m| && !(a <= x < a + 4)
    ensures Store(m, a, v)[x] == m[x]
  {
  }

  lemma LoadStore(m: seq<byte>, a: nat, v: word)
    requires a + 4 <= |m|
    ensures Load(Store(m, a, v), a) == v
    ensures forall w: nat :: w + 4 <= |m| && (w + 4 <= a || a + 4 <= w) ==> Load(Store(m, a, v), w) == Load(m, w)
    ensures forall x :: 0 <= x < |m| && !(a <= x < a + 4) ==> Store(m, a, v)[x] == m[x]
  {
    hide Store;
    LoadStored(m, a, v);
    forall x | 0 <= x < |m| && !(a <= x < a + 4) ensures Store(m, a, v)[x] == m[x] {
      StoredAt(m, a, v, x);
    }
  }

  ghost predicate HeaderIn(m: seq<byte>, b: Block, next: nat) {
    && b.addr + HEADER <= |m|
    && Load(m, b.addr) == b.size && Load(m, b.addr + 4) == next && Load(m, b.addr + 8) == if b.free then 1 else 0
  }

  function Next(bs: seq<Block>, i: nat): nat
    requires i < |bs|
  {
    if i + 1 < |bs| then bs[i + 1].addr else 0
  }

  /** The headers in memory form the linked list of these blocks. */
  ghost predicate Linked(m: seq<byte>, bs: seq<Block>) {
    forall i :: 0 <= i < |bs| ==> HeaderIn(m, bs[i], Next(bs, i))
  }

  /** A list of blocks that tiles [lo, hi) and is laid out in memory. */
  ghost predicate Laid(m: seq<byte>, bs: seq<Block>, lo: nat, hi: nat) {
    0 < lo && hi <= |m| < WORD && Tiles(bs, lo, hi) && Linked(m, bs)
  }

  /** Memory outside one header is the same. */
  ghost predicate SameOutside(m: seq<byte>, m': seq<byte>, a: nat) {
    && |m'| == |m|
    && (forall w: nat :: w + 4 <= |m| && (w + 4 <= a || a + HEADER <= w) ==> Load(m', w) == Load(m, w))
    && (forall x :: 0 <= x < |m| && !(a <= x < a + HEADER) ==> m'[x] == m[x])
  }

  function StoreHeader(m: seq<byte>, b: Block, next: word): (r: seq<byte>)
    requires b.addr + HEADER <= |m| && b.size < WORD
    ensures |r| == |m|
  {
    Store(Store(Store(m, b.addr, b.size), b.addr + 4, next), b.addr + 8, if b.free then 1 else 0)
  }

  lemma HeaderStored(m: seq<byte>, b: Block, next: word)
    requires b.addr + HEADER <= |m| && b.size < WORD
    ensures HeaderIn(StoreHeader(m, b, next), b, next)
    ensures SameOutside(m, StoreHeader(m, b, next), b.addr)
  {
    hide Load, Store;
    LoadStore(m, b.addr, b.size);
    var m1 := Store(m, b.addr, b.size);
    LoadStore(m1, b.addr + 4, next);
    LoadStore(Store(m1, b.addr + 4, next), b.addr + 8, if b.free then 1 else 0);
  }

  lemma HeaderKept(m: seq<byte>, m': seq<byte>, b: Block, next: nat, a: nat)
    requires HeaderIn(m, b, next) && SameOutside(m, m', a) && (b.addr + HEADER <= a || a + HEADER <= b.addr)
    ensures HeaderIn(m', b, next)
  {
    hide Load;
  }

  lemma HeaderKeptByte(m: seq<byte>, b: Block, next: nat, x: nat, v: byte)
    requires HeaderIn(m, b, next) && x < |m| && !(b.addr <= x < b.addr + HEADER)
    ensures HeaderIn(m[x := v], b, next)
  {
  }

  /** Replacing block i by another with the same address and end keeps every other header. */
  lemma LinkedReplace(m: seq<byte>, m': seq<byte>, bs: seq<Block>, i: nat, b: Block, lo: nat, hi: nat)
    requires Laid(m, bs, lo, hi) && i < |bs| && b.addr == bs[i].addr && b.size == bs[i].size
    requires SameOutside(m, m', b.addr) && HeaderIn(m', b, Next(bs, i))
    ensures Laid(m', bs[i := b], lo, hi)
  {
    hide HeaderIn, SameOutside, Tiles;
    var r := bs[i := b];
    TilesReplace(bs, i, b, lo, hi);
    forall k | 0 <= k < |r| ensures HeaderIn(m', r[k], Next(r, k)) {
      assert Next(r, k) == Next(bs, k);
      if k < i {
        TilesDisjoint(bs, k, i, lo, hi);
        HeaderKept(m, m', bs[k], Next(bs, k), b.addr);
      } else if k > i {
        TilesDisjoint(bs, i, k, lo, hi);
        HeaderKept(m, m', bs[k], Next(bs, k), b.addr);
      }
    }
    SameLength(m, m', b.addr);
  }

  /** The two headers that a split writes. */
  lemma LinkedCut(m: seq<byte>, m1: seq<byte>, m2: seq<byte>, bs: seq<Block>, i: nat, need: nat, lo: nat, hi: nat)
    requires Laid(m, bs, lo, hi) && i < |bs| && need + HEADER <= bs[i].size
    requires var r := Cut(bs, i, need);
             && SameOutside(m, m1, r[i + 1].addr) && HeaderIn(m1, r[i + 1], Next(bs, i))
             && SameOutside(m1, m2, r[i].addr) && HeaderIn(m2, r[i], r[i + 1].addr)
    ensures Laid(m2, Cut(bs, i, need), lo, hi)
  {
    hide HeaderIn, SameOutside, Tiles;
    var r := Cut(bs, i, need);
    CutTiles(bs, i, need, lo, hi);
    CutAt(bs, i, need, i);
    CutAt(bs, i, need, i + 1);
    hide Cut;
    forall k | 0 <= k < |r| ensures HeaderIn(m2, r[k], Next(r, k)) {
      CutHeader(m, m1, m2, bs, i, need, k, lo, hi);
    }
    SameLength(m, m1, r[i + 1].addr);
    SameLength(m1, m2, r[i].addr);
  }

  lemma SameLength(m: seq<byte>, m': seq<byte>, a: nat)
    requires SameOutside(m, m', a)
    ensures |m'| == |m|
  {
  }

  lemma CutHeader(m: seq<byte>, m1: seq<byte>, m2: seq<byte>, bs: seq<Block>, i: nat, need: nat, k: nat,
                  lo: nat, hi: nat)
    requires Laid(m, bs, lo, hi) && i < |bs| && need + HEADER <= bs[i].size && k <= |bs|
    requires var r := Cut(bs, i, need);
             && SameOutside(m, m1, r[i + 1].addr) && HeaderIn(m1, r[i + 1], Next(bs, i))
             && SameOutside(m1, m2, r[i].addr) && HeaderIn(m2, r[i], r[i + 1].addr)
    ensures var r := Cut(bs, i, need); |r| == |bs| + 1 && HeaderIn(m2, r[k], Next(r, k))
  {
    hide HeaderIn, SameOutside, Tiles;
    var r := Cut(bs, i, need);
    CutAt(bs, i, need, i);
    CutAt(bs, i, need, i + 1);
    CutAt(bs, i, need, k);
    if k < |bs| { CutAt(bs, i, need, k + 1); }
    hide Cut;
    if k == i + 1 {
      HeaderKept(m1, m2, r[k], Next(bs, i), r[i].addr);
    } else if k < i {
      TilesDisjoint(bs, k, i, lo, hi);
      HeaderKept(m, m1, bs[k], Next(bs, k), r[i + 1].addr);
      HeaderKept(m1, m2, bs[k], Next(bs, k), r[i].addr);
    } else if k > i + 1 {
      TilesDisjoint(bs, i, k - 1, lo, hi);
      HeaderKept(m, m1, bs[k - 1], Next(bs, k - 1), r[i + 1].addr);
      HeaderKept(m1, m2, bs[k - 1], Next(bs, k - 1), r[i].addr);
    }
  }

  /** Blocks i and i + 1 merged. */
  function Joined(bs: seq<Block>, i: nat): seq<Block>
    requires i + 1 < |bs|
  {
    bs[..i] + [Merge(bs[i], bs[i + 1])] + bs[i + 2..]
  }

  lemma JoinedParts(bs: seq<Block>, i: nat)
    requires i + 1 < |bs|
    ensures |Joined(bs, i)| == |bs| - 1 && Joined(bs, i)[..i] == bs[..i]
    ensures Joined(bs, i)[i..] == [Merge(bs[i], bs[i + 1])] + bs[i + 2..]
  {
  }

  /** The header that a merge writes. */
  lemma LinkedJoin(m: seq<byte>, m': seq<byte>, bs: seq<Block>, i: nat, lo: nat, hi: nat)
    requires Laid(m, bs, lo, hi) && i + 1 < |bs|
    requires SameOutside(m, m', bs[i].addr) && HeaderIn(m', Merge(bs[i], bs[i + 1]), Next(bs, i + 1))
    ensures Laid(m', Joined(bs, i), lo, hi)
  {
    hide HeaderIn, SameOutside, Tiles;
    var r := Joined(bs, i);
    JoinTiles(bs, i, lo, hi);
    SameLength(m, m', bs[i].addr);
    forall k | 0 <= k < |r| ensures HeaderIn(m', r[k], Next(r, k)) {
      JoinedNext(bs, i, k);
      if k < i {
        TilesDisjoint(bs, k, i, lo, hi);
        HeaderKept(m, m', bs[k], Next(bs, k), bs[i].addr);
      } else if k > i {
        TilesDisjoint(bs, i, k + 1, lo, hi);
        HeaderKept(m, m', bs[k + 1], Next(bs, k + 1), bs[i].addr);
      }
    }
  }

  lemma JoinedNext(bs: seq<Block>, i: nat, k: nat)
    requires i + 1 < |bs| && k + 1 < |bs|
    ensures var r := Joined(bs, i);
            |r| == |bs| - 1 && r[k] == (if k < i then bs[k] else if k == i then Merge(bs[i], bs[i + 1]) else bs[k + 1])
            && Next(r, k) == Next(bs, if k < i then k else k + 1)
  {
  }

  lemma JoinTiles(bs: seq<Block>, i: nat, lo: nat, hi: nat)
    requires Tiles(bs, lo, hi) && i + 1 < |bs|
    ensures Tiles(Joined(bs, i), lo, hi)
  {
    var b := Merge(bs[i], bs[i + 1]);
    TilesSplit(bs, i, lo, hi);
    TilesSplit(bs, i + 1, lo, hi);
    TilesDisjoint(bs, i, i + 1, lo, hi);
    assert [b][1..] == [];
    TilesAppend(bs[..i], [b], lo, b.addr, b.End());
    TilesAppend(bs[..i] + [b], bs[i + 2..], lo, b.End(), hi);
  }

  /** The size and next fields of a block whose flag is already in place. */
  lemma SizeNextStored(m: seq<byte>, b: Block, next: word)
    requires b.addr + HEADER <= |m| && b.size < WORD && Load(m, b.addr + 8) == if b.free then 1 else 0
    ensures var m' := Store(Store(m, b.addr, b.size), b.addr + 4, next);
            HeaderIn(m', b, next) && SameOutside(m, m', b.addr)
  {
    hide Load, Store;
    LoadStore(m, b.addr, b.size);
    LoadStore(Store(m, b.addr, b.size), b.addr + 4, next);
  }

  lemma FlagStored(m: seq<byte>, b: Block, next: nat, free: bool)
    requires HeaderIn(m, b, next)
    ensures var m' := Store(m, b.addr + 8, if free then 1 else 0);
            HeaderIn(m', b.(free := free), next) && SameOutside(m, m', b.addr)
  {
    hide Load, Store;
    LoadStore(m, b.addr + 8, if free then 1 else 0);
  }

  lemma OneBlockLaid(m: seq<byte>, b: Block)
    requires HeaderIn(m, b, 0) && 0 < b.addr && b.End() <= |m| < WORD
    ensures Laid(m, [b], b.addr, b.End())
  {
    assert [b][1..] == [];
  }

  // ---- payloads -------------------------------------------------------------------------

  /** Address x belongs to the caller of one of these blocks. */
  ghost predicate Owned(live: seq<Block>, x: nat) {
    exists k :: 0 <= k < |live| && live[k].Payload() <= x < live[k].End()
  }

  ghost predicate OwnsRange(live: seq<Block>, from: nat, n: nat) {
    forall x :: from <= x < from + n ==> Owned(live, x)
  }

  ghost predicate OwnsNone(live: seq<Block>, from: nat, n: nat) {
    forall x :: from <= x < from + n ==> !Owned(live, x)
  }

  lemma RangesDisjoint(live: seq<Block>, a: nat, n: nat, b: nat, m: nat)
    requires OwnsRange(live, a, n) && OwnsNone(live, b, m) && 0 < n <= m
    ensures a + n <= b || b + m <= a
  {
    var x := if a < b then b else a;
    assert a <= x < a + n ==> Owned(live, x);
    assert b <= x < b + m ==> !Owned(live, x);
  }

  /** Every byte that belongs to a caller is unchanged. */
  ghost predicate PayloadsKept(live: seq<Block>, m: seq<byte>, m': seq<byte>) {
    |m| == |m'| && forall x :: 0 <= x < |m| && Owned(live, x) ==> m'[x] == m[x]
  }

  /** Some live block has its payload at p, with at least n bytes. */
  ghost predicate Backs(live: seq<Block>, p: nat, n: nat) {
    exists k :: 0 <= k < |live| && live[k].Payload() == p && n <= live[k].size
  }

  lemma BacksOwns(live: seq<Block>, p: nat, n: nat)
    requires Backs(live, p, n)
    ensures OwnsRange(live, p, n)
  {
    var k :| 0 <= k < |live| && live[k].Payload() == p && n <= live[k].size;
  }

  /** Live blocks are in address order and disjoint. */
  lemma {:induction false} LiveOrdered(bs: seq<Block>, lo: nat, hi: nat)
    requires Tiles(bs, lo, hi)
    ensures forall k :: 0 <= k < |Live(bs)| ==> lo <= Live(bs)[k].addr && Live(bs)[k].End() <= hi
    ensures forall j, k :: 0 <= j < k < |Live(bs)| ==> Live(bs)[j].End() <= Live(bs)[k].addr
    decreases |bs|
  {
    TilesOrdered(bs, lo, hi);
    if |bs| > 0 {
      LiveOrdered(bs[1..], bs[0].End(), hi);
    }
  }

  /** The block found at a pointer is live exactly if the pointer is that of a live payload,
      and then it is the only one there. */
  lemma FindLive(bs: seq<Block>, p: nat, lo: nat, hi: nat)
    requires Tiles(bs, lo, hi)
    ensures var i := Find(bs, p);
            (i < |bs| && !bs[i].free <==> Backs(Live(bs), p, 0))
            && (i < |bs| && !bs[i].free ==> forall n: nat :: Backs(Live(bs), p, n) <==> n <= bs[i].size)
  {
    hide Live;
    var i := Find(bs, p);
    if i < |bs| && !bs[i].free {
      var k := LivePosition(bs, i);
    }
    forall k | 0 <= k < |Live(bs)| && Live(bs)[k].Payload() == p
      ensures i < |bs| && !bs[i].free && Live(bs)[k] == bs[i]
    {
      var j := LiveIndex(bs, k);
      FindUnique(bs, j, p, lo, hi);
    }
  }

  lemma BacksAppend(a: seq<Block>, b: seq<Block>, p: nat, n: nat)
    ensures Backs(a + b, p, n) <==> Backs(a, p, n) || Backs(b, p, n)
  {
    if Backs(a, p, n) {
      var k :| 0 <= k < |a| && a[k].Payload() == p && n <= a[k].size;
      assert (a + b)[k] == a[k];
    } else if Backs(b, p, n) {
      var k :| 0 <= k < |b| && b[k].Payload() == p && n <= b[k].size;
      assert (a + b)[|a| + k] == b[k];
    }
  }

  lemma BacksOne(b: Block, p: nat, n: nat)
    ensures Backs([b], p, n) <==> p == b.Payload() && n <= b.size
  {
    assert [b][0] == b;
  }

  /** An allocation adds its block to the live payloads and changes no other. */
  lemma AllocateBacks(bs: seq<Block>, need: nat, p: nat, n: nat)
    requires FirstFit(bs, need) < |bs|
    ensures var got := Allocate(bs, need)[FirstFit(bs, need)];
            (Backs(Live(Allocate(bs, need)), p, n) <==>
             Backs(Live(bs), p, n) || (p == got.Payload() && n <= got.size))
            && got.Payload() == bs[FirstFit(bs, need)].Payload() && need <= got.size
  {
    hide Live, Backs;
    AllocateLive(bs, need);
    var i := FirstFit(bs, need);
    var a, got, c := Live(bs[..i]), Allocate(bs, need)[i], Live(bs[i + 1..]);
    BacksAppend(a + [got], c, p, n);
    BacksAppend(a, [got], p, n);
    BacksAppend(a, c, p, n);
    BacksOne(got, p, n);
  }

  /** A release removes its block from the live payloads and changes no other. */
  lemma ReleaseBacks(bs: seq<Block>, i: nat, p: nat, n: nat, lo: nat, hi: nat)
    requires Tiles(bs, lo, hi) && i < |bs| && !bs[i].free
    ensures Backs(Live(Release(bs, i)), p, n) <==> Backs(Live(bs), p, n) && p != bs[i].Payload()
  {
    hide Live, Backs, Release;
    ReleaseLive(bs, i);
    var a, b, c := Live(bs[..i]), bs[i], Live(bs[i + 1..]);
    BacksAppend(a + [b], c, p, n);
    BacksAppend(a, [b], p, n);
    BacksAppend(a, c, p, n);
    BacksOne(b, p, n);
    OthersElsewhere(bs, i, n, lo, hi);
  }

  lemma OthersElsewhere(bs: seq<Block>, i: nat, n: nat, lo: nat, hi: nat)
    requires Tiles(bs, lo, hi) && i < |bs|
    ensures !Backs(Live(bs[..i]), bs[i].Payload(), n) && !Backs(Live(bs[i + 1..]), bs[i].Payload(), n)
  {
    hide Live;
    TilesSplit(bs, i, lo, hi);
    LiveOrdered(bs[..i], lo, bs[i].addr);
    LiveOrdered(bs[i + 1..], bs[i].End(), hi);
  }

  lemma {:induction false} LiveIndex(bs: seq<Block>, k: nat) returns (j: nat)
    requires k < |Live(bs)|
    ensures j < |bs| && bs[j] == Live(bs)[k] && !bs[j].free
  {
    if bs[0].free {
      var i := LiveIndex(bs[1..], k);
      return i + 1;
    } else if k == 0 {
      return 0;
    } else {
      var i := LiveIndex(bs[1..], k - 1);
      return i + 1;
    }
  }

  lemma {:induction false} LivePosition(bs: seq<Block>, j: nat) returns (k: nat)
    requires j < |bs| && !bs[j].free
    ensures k < |Live(bs)| && Live(bs)[k] == bs[j]
  {
    if j == 0 {
      return 0;
    }
    var i := LivePosition(bs[1..], j - 1);
    return if bs[0].free then i else i + 1;
  }

  /** Headers and free blocks are never inside payloads. */
  lemma OwnedOutside(bs: seq<Block>, i: nat, x: nat, lo: nat, hi: nat)
    requires Tiles(bs, lo, hi) && i < |bs| && Owned(Live(bs), x)
    ensures x < hi && !(bs[i].addr <= x < bs[i].Payload())
    ensures bs[i].free ==> !(bs[i].addr <= x < bs[i].End())
  {
    var n :| 0 <= n < |Live(bs)| && Live(bs)[n].Payload() <= x < Live(bs)[n].End();
    var k := LiveIndex(bs, n);
    TilesOrdered(bs, lo, hi);
    if k < i {
      TilesDisjoint(bs, k, i, lo, hi);
    } else if i < k {
      TilesDisjoint(bs, i, k, lo, hi);
    }
  }

  /** A caller that writes inside its block leaves every header as it was. */
  lemma OwnedWriteKeepsHeaders(m: seq<byte>, bs: seq<Block>, x: nat, v: byte, lo: nat, hi: nat)
    requires Laid(m, bs, lo, hi) && Owned(Live(bs), x) && x < |m|
    ensures Laid(m[x := v], bs, lo, hi)
  {
    hide HeaderIn, Owned, Tiles;
    forall k | 0 <= k < |bs| ensures HeaderIn(m[x := v], bs[k], Next(bs, k)) {
      OwnedOutside(bs, k, x, lo, hi);
      HeaderKeptByte(m, bs[k], Next(bs, k), x, v);
    }
  }

  /** Writing a header keeps every payload. */
  lemma HeaderWriteKeepsPayloads(m: seq<byte>, m': seq<byte>, bs: seq<Block>, i: nat, lo: nat, hi: nat)
    requires Tiles(bs, lo, hi) && i < |bs| && SameOutside(m, m', bs[i].addr)
    ensures PayloadsKept(Live(bs), m, m')
  {
    hide Owned, Tiles, Load;
    forall x | 0 <= x < |m| && Owned(Live(bs), x) ensures m'[x] == m[x] {
      OwnedOutside(bs, i, x, lo, hi);
    }
  }

  lemma KeptTransitive(live: seq<Block>, m0: seq<byte>, m1: seq<byte>, m2: seq<byte>)
    requires PayloadsKept(live, m0, m1) && PayloadsKept(live, m1, m2)
    ensures PayloadsKept(live, m0, m2)
  {
  }

  lemma SameKept(live: seq<Block>, m: seq<byte>)
    ensures PayloadsKept(live, m, m)
  {
  }

  /** What the five stores of a split do. */
  lemma CutStored(m: seq<byte>, m1: seq<byte>, m2: seq<byte>, bs: seq<Block>, i: nat, need: nat, lo: nat, hi: nat)
    requires Laid(m, bs, lo, hi) && i < |bs| && need + HEADER <= bs[i].size && bs[i].End() < WORD
    requires bs[i].End() <= |m| && Load(m, bs[i].addr + 4) == Next(bs, i)
    requires m1 == StoreHeader(m, Block(bs[i].addr + HEADER + need, bs[i].size - need - HEADER, true), Next(bs, i))
    requires m2 == Store(Store(m1, bs[i].addr, need), bs[i].addr + 4, bs[i].addr + HEADER + need)
    ensures Laid(m2, Cut(bs, i, need), lo, hi) && |Cut(bs, i, need)| == |bs| + 1
    ensures bs[i].free ==> PayloadsKept(Live(bs), m, m2)
  {
    hide Load, Store, Tiles, Live, PayloadsKept;
    var b := bs[i];
    var r := Cut(bs, i, need);
    CutAt(bs, i, need, i);
    CutAt(bs, i, need, i + 1);
    hide Cut;
    HeaderStored(m, r[i + 1], Next(bs, i));
    assert HeaderIn(m, b, Next(bs, i));
    assert Load(m1, b.addr + 8) == Load(m, b.addr + 8);
    SizeNextStored(m1, r[i], r[i + 1].addr);
    LinkedCut(m, m1, m2, bs, i, need, lo, hi);
    if b.free {
      CutKeepsPayloads(m, m1, m2, bs, i, r[i + 1].addr, lo, hi);
    }
  }

  lemma CutKeepsPayloads(m: seq<byte>, m1: seq<byte>, m2: seq<byte>, bs: seq<Block>, i: nat, a: nat, lo: nat, hi: nat)
    requires Tiles(bs, lo, hi) && i < |bs| && bs[i].free && bs[i].Payload() <= a && a + HEADER <= bs[i].End()
    requires SameOutside(m, m1, a) && SameOutside(m1, m2, bs[i].addr)
    ensures PayloadsKept(Live(bs), m, m2)
  {
    hide Owned, Tiles, Load;
    forall x | 0 <= x < |m| && Owned(Live(bs), x) ensures m2[x] == m[x] {
      OwnedOutside(bs, i, x, lo, hi);
    }
  }

  lemma NoBlockAtNull(bs: seq<Block>, lo: nat, hi: nat)
    requires 0 < lo && Tiles(bs, lo, hi)
    ensures forall k :: 0 <= k < |bs| ==> bs[k].addr > 0
  {
    TilesOrdered(bs, lo, hi);
  }

  lemma FirstIsLow(bs: seq<Block>, lo: nat, hi: nat)
    requires |bs| > 0 && Tiles(bs, lo, hi)
    ensures bs[0].addr == lo
  {
  }

  /** The next pointer is NULL exactly at the last block. */
  lemma NextExists(m: seq<byte>, bs: seq<Block>, i: nat, lo: nat, hi: nat)
    requires Laid(m, bs, lo, hi) && i < |bs|
    ensures Next(bs, i) != 0 <==> i + 1 < |bs|
    ensures bs[i].End() <= |m|
  {
    TilesOrdered(bs, lo, hi);
  }

  lemma LastBlock(m: seq<byte>, bs: seq<Block>, i: nat, lo: nat, hi: nat)
    requires Laid(m, bs, lo, hi) && i < |bs| && Next(bs, i) == 0
    ensures bs[..i] + Coalesce(bs[i..]) == bs
  {
    NextExists(m, bs, i, lo, hi);
  }

  // ---- steps of the operations ---------------------------------------------------------

  /** What the two stores of a merge do. */
  lemma JoinStored(m: seq<byte>, bs: seq<Block>, i: nat, lo: nat, hi: nat)
    requires Laid(m, bs, lo, hi) && i + 1 < |bs| && bs[i].free && bs[i + 1].free && Merge(bs[i], bs[i + 1]).size < WORD
    requires Next(bs, i + 1) < WORD
    ensures var m' := Store(Store(m, bs[i].addr, Merge(bs[i], bs[i + 1]).size), bs[i].addr + 4, Next(bs, i + 1));
            && Laid(m', Joined(bs, i), lo, hi) && PayloadsKept(Live(bs), m, m')
            && Live(Joined(bs, i)) == Live(bs)
  {
    hide Load, Store, Tiles, PayloadsKept;
    var b := Merge(bs[i], bs[i + 1]);
    assert HeaderIn(m, bs[i], Next(bs, i));
    SizeNextStored(m, b, Next(bs, i + 1));
    var m' := Store(Store(m, bs[i].addr, b.size), bs[i].addr + 4, Next(bs, i + 1));
    LinkedJoin(m, m', bs, i, lo, hi);
    HeaderWriteKeepsPayloads(m, m', bs, i, lo, hi);
    LiveJoin(bs, i);
  }

  lemma LiveJoin(bs: seq<Block>, i: nat)
    requires i + 1 < |bs| && bs[i].free && bs[i + 1].free
    ensures Live(Joined(bs, i)) == Live(bs)
  {
    var b := Merge(bs[i], bs[i + 1]);
    hide Live;
    assert bs == bs[..i] + [bs[i], bs[i + 1]] + bs[i + 2..];
    LiveAround(bs[..i], [bs[i], bs[i + 1]], bs[i + 2..]);
    assert Joined(bs, i) == bs[..i] + [b] + bs[i + 2..];
    LiveAround(bs[..i], [b], bs[i + 2..]);
  }

  /** Free blocks in the middle do not show among the live ones. */
  lemma LiveAround(before: seq<Block>, free: seq<Block>, after: seq<Block>)
    requires forall k :: 0 <= k < |free| ==> free[k].free
    ensures Live(before + free + after) == Live(before) + Live(after)
  {
    hide Live;
    LiveAppend(before + free, after);
    LiveAppend(before, free);
    NoneLive(free);
  }

  lemma {:induction false} NoneLive(free: seq<Block>)
    requires forall k :: 0 <= k < |free| ==> free[k].free
    ensures Live(free) == []
    decreases |free|
  {
    if |free| > 0 {
      NoneLive(free[1..]);
    }
  }

  /** What setting or clearing a block's flag does. */
  lemma FlagLaid(m: seq<byte>, bs: seq<Block>, i: nat, free: bool, lo: nat, hi: nat)
    requires Laid(m, bs, lo, hi) && i < |bs|
    requires bs[i].addr + HEADER <= |m|
    ensures var m' := Store(m, bs[i].addr + 8, if free then 1 else 0);
            Laid(m', bs[i := bs[i].(free := free)], lo, hi) && PayloadsKept(Live(bs), m, m')
  {
    hide Load, Store, Tiles, PayloadsKept, Live;
    assert HeaderIn(m, bs[i], Next(bs, i));
    var m' := Store(m, bs[i].addr + 8, if free then 1 else 0);
    FlagStored(m, bs[i], Next(bs, i), free);
    LinkedReplace(m, m', bs, i, bs[i].(free := free), lo, hi);
    HeaderWriteKeepsPayloads(m, m', bs, i, lo, hi);
  }

  lemma CutLive(bs: seq<Block>, i: nat, need: nat)
    requires FirstFit(bs, need) == i < |bs|
    ensures var r := if bs[i].size - need <= HEADER + 8 then bs else Cut(bs, i, need);
            Live(r) == Live(bs)
  {
    if bs[i].size - need > HEADER + 8 {
      var b := bs[i];
      var s := [Block(b.addr, need, b.free), Block(b.addr + HEADER + need, b.size - need - HEADER, true)];
      LiveAt(bs, i);
      LiveAppend(bs[..i] + s, bs[i + 1..]);
      LiveAppend(bs[..i], s);
      assert Live(s) == [] by { assert s[1..] == [s[1]] && Live([s[1]]) == []; }
    }
  }

  /** The blocks in use before the heap was set up are those in use after it. */
  lemma CurrentLive(live0: seq<Block>, bs: seq<Block>, m0: seq<byte>, m1: seq<byte>, m2: seq<byte>)
    requires PayloadsKept(live0, m0, m1) && PayloadsKept(Live(bs), m1, m2) && (live0 == [] || live0 == Live(bs))
    ensures PayloadsKept(live0, m0, m2)
  {
  }

  lemma FreedKept(bs: seq<Block>, i: nat, m: seq<byte>, m1: seq<byte>)
    requires i < |bs| && PayloadsKept(Live(bs), m, m1)
    ensures PayloadsKept(Live(bs[i := bs[i].(free := true)]), m, m1)
  {
    var r := bs[i := bs[i].(free := true)];
    forall x | 0 <= x < |m| && Owned(Live(r), x) ensures m1[x] == m[x] {
      var n :| 0 <= n < |Live(r)| && Live(r)[n].Payload() <= x < Live(r)[n].End();
      var k := LiveIndex(r, n);
      var n' := LivePosition(bs, k);
      assert Owned(Live(bs), x);
    }
  }

  lemma NotOwned(live: seq<Block>, from: nat, n: nat)
    ensures live == [] ==> OwnsNone(live, from, n)
  {
  }

  lemma NothingOwned(bs: seq<Block>, x: nat)
    requires Owned(Live(bs), x)
    ensures |bs| > 0
  {
  }

  /** The payload that an allocation returns belonged to nobody before and belongs to its
      caller now. */
  lemma FreshPayload(bs: seq<Block>, need: nat, lo: nat, hi: nat)
    requires Inv(bs, lo, hi) && FirstFit(bs, need) < |bs|
    ensures var ptr := bs[FirstFit(bs, need)].Payload();
            ptr + need <= hi && OwnsRange(Live(Allocate(bs, need)), ptr, need) && OwnsNone(Live(bs), ptr, need)
  {
    var i := FirstFit(bs, need);
    TilesOrdered(bs, lo, hi);
    AllocateLive(bs, need);
    var n := |Live(bs[..i])|;
    assert Live(Allocate(bs, need))[n] == Allocate(bs, need)[i];
    forall x | bs[i].Payload() <= x < bs[i].Payload() + need ensures !Owned(Live(bs), x) {
      if Owned(Live(bs), x) {
        OwnedOutside(bs, i, x, lo, hi);
      }
    }
  }

  /** A live block still has its place after an allocation. */
  lemma FindAfterAllocate(bs: seq<Block>, need: nat, ptr: nat, lo: nat, hi: nat)
    requires Inv(bs, lo, hi) && Find(bs, ptr) < |bs| && !bs[Find(bs, ptr)].free && FirstFit(bs, need) < |bs|
    ensures var r := Allocate(bs, need); Find(r, ptr) < |r| && r[Find(r, ptr)] == bs[Find(bs, ptr)]
  {
    var j, i, r := Find(bs, ptr), FirstFit(bs, need), Allocate(bs, need);
    AllocateKeeps(bs, need, lo, hi);
    var s := Split(bs[i], need);
    var k := if j < i then j else j - 1 + |s|;
    assert r[k] == bs[j];
    FindUnique(r, k, ptr, lo, hi);
  }

  lemma FindUnique(bs: seq<Block>, k: nat, ptr: nat, lo: nat, hi: nat)
    requires Tiles(bs, lo, hi) && k < |bs| && bs[k].Payload() == ptr
    ensures Find(bs, ptr) == k
  {
    FindFirst(bs, k, ptr);
    if Find(bs, ptr) < k {
      TilesDisjoint(bs, Find(bs, ptr), k, lo, hi);
    }
  }

  lemma {:induction false} FindFirst(bs: seq<Block>, k: nat, ptr: nat)
    requires k < |bs| && bs[k].Payload() == ptr
    ensures Find(bs, ptr) <= k
  {
    if k > 0 && bs[0].Payload() != ptr {
      FindFirst(bs[1..], k - 1, ptr);
    }
  }

  lemma LiveOwnsPayload(bs: seq<Block>, i: nat)
    requires i < |bs| && !bs[i].free
    ensures OwnsRange(Live(bs), bs[i].Payload(), bs[i].size)
  {
    var k := LivePosition(bs, i);
  }

  /** Whoever owned a byte still owns it after another block is released. */
  lemma ReleaseOwned(bs: seq<Block>, i: nat, x: nat)
    requires i < |bs| && !bs[i].free && Owned(Live(bs), x) && !(bs[i].Payload() <= x < bs[i].End())
    ensures Owned(Live(Release(bs, i)), x)
  {
    hide Release, Live;
    ReleaseLive(bs, i);
    var a, c := Live(bs[..i]), Live(bs[i + 1..]);
    var n :| 0 <= n < |Live(bs)| && Live(bs)[n].Payload() <= x < Live(bs)[n].End();
    if n < |a| {
      assert (a + c)[n] == Live(bs)[n];
    } else {
      assert (a + c)[n - 1] == Live(bs)[n];
    }
  }

  /** An allocation does not move the other live blocks. */
  lemma AllocateOwned(bs: seq<Block>, need: nat, x: nat)
    requires FirstFit(bs, need) < |bs| && Owned(Live(bs), x)
    ensures Owned(Live(Allocate(bs, need)), x)
  {
    hide Live;
    AllocateLive(bs, need);
    var i := FirstFit(bs, need);
    var a, c := Live(bs[..i]), Live(bs[i + 1..]);
    var n :| 0 <= n < |Live(bs)| && Live(bs)[n].Payload() <= x < Live(bs)[n].End();
    var got := Allocate(bs, need)[i];
    if n < |a| {
      assert (a + [got] + c)[n] == Live(bs)[n];
    } else {
      assert (a + [got] + c)[n + 1] == Live(bs)[n];
    }
  }

  lemma OwnsLess(live: seq<Block>, p: nat, n: nat, m: nat)
    requires OwnsRange(live, p, n) && m <= n
    ensures OwnsRange(live, p, m)
  {
  }

  /** The pointer of an allocation is live afterwards and was not before. */
  lemma FreshPointer(was: seq<Block>, bs: seq<Block>, need: nat, lo: nat, hi: nat)
    requires Inv(bs, lo, hi) && FirstFit(bs, need) < |bs| && (was == bs || was == [])
    ensures var r, p := Allocate(bs, need), bs[FirstFit(bs, need)].Payload();
            && Find(r, p) < |r| && !r[Find(r, p)].free && r[Find(r, p)].size >= need
            && !(Find(was, p) < |was| && !was[Find(was, p)].free)
  {
    var i := FirstFit(bs, need);
    AllocateKeeps(bs, need, lo, hi);
    AllocateLive(bs, need);
    FindUnique(Allocate(bs, need), i, bs[i].Payload(), lo, hi);
    FindUnique(bs, i, bs[i].Payload(), lo, hi);
  }

  /** After an allocation and the release of another live pointer the new pointer is live. */
  lemma MovedPointer(bs: seq<Block>, need: nat, ptr: nat, lo: nat, hi: nat)
    requires Inv(bs, lo, hi) && FirstFit(bs, need) < |bs|
    requires Find(bs, ptr) < |bs| && !bs[Find(bs, ptr)].free
    ensures var r, p := ReleaseAt(Allocate(bs, need), ptr), bs[FirstFit(bs, need)].Payload();
            && p != ptr && Find(r, p) < |r| && !r[Find(r, p)].free && r[Find(r, p)].size >= need
            && Backs(Live(r), p, need)
  {
    hide Live, Backs, Release, Split;
    var mid, p := Allocate(bs, need), bs[FirstFit(bs, need)].Payload();
    FindUnique(bs, FirstFit(bs, need), p, lo, hi);
    AllocateKeeps(bs, need, lo, hi);
    AllocateLive(bs, need);
    AllocateBacks(bs, need, p, need);
    FindAfterAllocate(bs, need, ptr, lo, hi);
    var j := Find(mid, ptr);
    ReleaseBacks(mid, j, p, need, lo, hi);
    ReleaseKeeps(mid, j, lo, hi);
    var r := Release(mid, j);
    FindLive(r, p, lo, hi);
    BacksAny(Live(r), p, need);
  }

  lemma BacksAny(live: seq<Block>, p: nat, n: nat)
    requires Backs(live, p, n)
    ensures Backs(live, p, 0)
  {
  }
}
