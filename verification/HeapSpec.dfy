/** The allocator on its list of blocks, in address order. */
module HeapSpec {
  import opened FixedPoint
  import Ring

  const HEADER: nat := 12      // size, next and free, four bytes each

  datatype Block = Block(addr: nat, size: nat, free: bool) {
    function Payload(): nat { addr + HEADER }
    function End(): nat { addr + HEADER + size }
  }

  /** The blocks cover [lo, hi) exactly, in address order. */
  predicate Tiles(bs: seq<Block>, lo: nat, hi: nat) {
    if |bs| == 0 then lo == hi else bs[0].addr == lo && Tiles(bs[1..], bs[0].End(), hi)
  }

  predicate NoFreeNeighbours(bs: seq<Block>) {
    forall i :: 0 <= i < |bs| - 1 ==> !(bs[i].free && bs[i + 1].free)
  }

  ghost predicate Inv(bs: seq<Block>, lo: nat, hi: nat) {
    |bs| > 0 && Tiles(bs, lo, hi) && NoFreeNeighbours(bs)
  }

  // ---- tilings ---------------------------------------------------------------------

  lemma {:induction false} TilesAppend(a: seq<Block>, b: seq<Block>, lo: nat, mid: nat, hi: nat)
    requires Tiles(a, lo, mid) && Tiles(b, mid, hi)
    ensures Tiles(a + b, lo, hi)
    decreases |a|
  {
    if |a| == 0 {
      assert a + b == b;
    } else {
      assert (a + b)[0] == a[0] && (a + b)[1..] == a[1..] + b;
      TilesAppend(a[1..], b, a[0].End(), mid, hi);
    }
  }

  lemma {:induction false} TilesSplit(bs: seq<Block>, i: nat, lo: nat, hi: nat)
    requires Tiles(bs, lo, hi) && i <= |bs|
    ensures var mid := if i < |bs| then bs[i].addr else hi;
            lo <= mid <= hi && Tiles(bs[..i], lo, mid) && Tiles(bs[i..], mid, hi)
    ensures i < |bs| ==> bs[i].End() <= hi && Tiles(bs[i + 1..], bs[i].End(), hi)
    decreases i
  {
    TilesOrdered(bs, lo, hi);
    if i == 0 {
      assert bs[..0] == [] && bs[0..] == bs;
    } else {
      TilesSplit(bs[1..], i - 1, bs[0].End(), hi);
      assert bs[..i][1..] == bs[1..][..i - 1] && bs[i..] == bs[1..][i - 1..];
      if i < |bs| {
        assert bs[i + 1..] == bs[1..][i..];
      }
    }
  }

  lemma {:induction false} TilesOrdered(bs: seq<Block>, lo: nat, hi: nat)
    requires Tiles(bs, lo, hi)
    ensures lo <= hi && forall k :: 0 <= k < |bs| ==> lo <= bs[k].addr && bs[k].End() <= hi
    decreases |bs|
  {
    if |bs| > 0 {
      TilesOrdered(bs[1..], bs[0].End(), hi);
      forall k | 0 <= k < |bs| ensures lo <= bs[k].addr && bs[k].End() <= hi {
        if k > 0 {
          assert bs[k] == bs[1..][k - 1];
        }
      }
    }
  }

  /** A block of a tiling ends where the next one begins; so distinct blocks are disjoint. */
  lemma TilesDisjoint(bs: seq<Block>, i: nat, j: nat, lo: nat, hi: nat)
    requires Tiles(bs, lo, hi) && i < j < |bs|
    ensures bs[i].End() <= bs[j].addr && (j == i + 1 ==> bs[i].End() == bs[j].addr)
    ensures lo <= bs[i].addr && bs[j].End() <= hi
  {
    TilesSplit(bs, i, lo, hi);
    TilesOrdered(bs, lo, hi);
    TilesOrdered(bs[i + 1..], bs[i].End(), hi);
    assert bs[i + 1..][j - i - 1] == bs[j];
  }

  // ---- the operations -------------------------------------------------------------------

  /** A request rounded up to a multiple of 8 in 32-bit arithmetic. */
  function RoundUp(size: word): word { (size + 7) % WORD / 8 * 8 }

  /** The rounded request covers the request exactly when the rounding does not wrap. */
  lemma RoundUpCovers(size: word)
    ensures RoundUp(size) >= size <==> size <= WORD - 8
    ensures size <= WORD - 8 ==> RoundUp(size) < size + 8 && RoundUp(size) % 8 == 0
    ensures size > WORD - 8 ==> RoundUp(size) == 0
  {
  }

  function FirstFit(bs: seq<Block>, need: nat): (i: nat)
    ensures i <= |bs|
    ensures i < |bs| ==> bs[i].free && bs[i].size >= need
    ensures forall k :: 0 <= k < i ==> !(bs[k].free && bs[k].size >= need)
  {
    if |bs| == 0 || (bs[0].free && bs[0].size >= need) then 0 else
      var i := FirstFit(bs[1..], need);
      assert forall k :: 0 < k < 1 + i ==> bs[k] == bs[1..][k - 1];
      1 + i
  }

  /** Block i cut after `need` payload bytes. */
  function Cut(bs: seq<Block>, i: nat, need: nat): seq<Block>
    requires i < |bs| && need + HEADER <= bs[i].size
  {
    var b := bs[i];
    bs[..i] + [Block(b.addr, need, b.free), Block(b.addr + HEADER + need, b.size - need - HEADER, true)] + bs[i + 1..]
  }

  lemma CutAt(bs: seq<Block>, i: nat, need: nat, k: nat)
    requires i < |bs| && need + HEADER <= bs[i].size && k < |bs| + 1
    ensures |Cut(bs, i, need)| == |bs| + 1
    ensures k < i ==> Cut(bs, i, need)[k] == bs[k]
    ensures k == i ==> Cut(bs, i, need)[k] == Block(bs[i].addr, need, bs[i].free)
    ensures k == i + 1 ==> Cut(bs, i, need)[k] == Block(bs[i].addr + HEADER + need, bs[i].size - need - HEADER, true)
    ensures k > i + 1 ==> Cut(bs, i, need)[k] == bs[k - 1]
  {
  }

  lemma CutTiles(bs: seq<Block>, i: nat, need: nat, lo: nat, hi: nat)
    requires Tiles(bs, lo, hi) && i < |bs| && need + HEADER <= bs[i].size
    ensures Tiles(Cut(bs, i, need), lo, hi)
  {
    var b := bs[i];
    var s := [Block(b.addr, need, b.free), Block(b.addr + HEADER + need, b.size - need - HEADER, true)];
    TilesSplit(bs, i, lo, hi);
    assert Tiles(s, b.addr, b.End()) by {
      assert s[1..][1..] == [];
    }
    TilesAppend(bs[..i], s, lo, b.addr, b.End());
    TilesAppend(bs[..i] + s, bs[i + 1..], lo, b.End(), hi);
  }

  /** The block that serves a request, and the free rest if it is worth a header. */
  function Split(b: Block, need: nat): (r: seq<Block>)
    requires need <= b.size
    ensures |r| > 0
  {
    if b.size - need <= HEADER + 8 then [b.(free := false)]
    else [Block(b.addr, need, false), Block(b.addr + HEADER + need, b.size - need - HEADER, true)]
  }

  function Allocate(bs: seq<Block>, need: nat): seq<Block> {
    var i := FirstFit(bs, need);
    if i == |bs| then bs else bs[..i] + Split(bs[i], need) + bs[i + 1..]
  }

  function Merge(a: Block, b: Block): Block { Block(a.addr, a.size + HEADER + b.size, a.free) }

  function Coalesce(bs: seq<Block>): (r: seq<Block>)
    ensures |r| <= |bs| && (|bs| > 0 ==> |r| > 0)
    decreases |bs|
  {
    if |bs| < 2 then bs
    else if bs[0].free && bs[1].free && bs[0].End() == bs[1].addr then
      Coalesce([Merge(bs[0], bs[1])] + bs[2..])
    else [bs[0]] + Coalesce(bs[1..])
  }

  function Release(bs: seq<Block>, i: nat): seq<Block>
    requires i < |bs|
  {
    Coalesce(bs[i := bs[i].(free := true)])
  }

  /** The allocated blocks, in address order. */
  function Live(bs: seq<Block>): (r: seq<Block>) {
    if |bs| == 0 then [] else (if bs[0].free then [] else [bs[0]]) + Live(bs[1..])
  }

  // ---- what the operations keep ---------------------------------------------------------

  lemma {:induction false} LiveAppend(a: seq<Block>, b: seq<Block>)
    ensures Live(a + b) == Live(a) + Live(b)
    decreases |a|
  {
    if |a| == 0 {
      assert a + b == b;
    } else {
      assert (a + b)[0] == a[0] && (a + b)[1..] == a[1..] + b;
      LiveAppend(a[1..], b);
    }
  }

  lemma LiveAt(bs: seq<Block>, i: nat)
    requires i < |bs|
    ensures Live(bs) == Live(bs[..i]) + (if bs[i].free then [] else [bs[i]]) + Live(bs[i + 1..])
  {
    hide Live;
    Ring.TakeNext(bs, i);
    LiveAppend(bs[..i + 1], bs[i + 1..]);
    LiveAppend(bs[..i], [bs[i]]);
    LiveOne(bs[i]);
  }

  lemma LiveOne(b: Block)
    ensures Live([b]) == if b.free then [] else [b]
  {
  }

  lemma AllocateKeeps(bs: seq<Block>, need: nat, lo: nat, hi: nat)
    requires Inv(bs, lo, hi)
    ensures Inv(Allocate(bs, need), lo, hi)
  {
    var i := FirstFit(bs, need);
    if i < |bs| {
      var b, s, r := bs[i], Split(bs[i], need), Allocate(bs, need);
      TilesSplit(bs, i, lo, hi);
      assert Tiles(s, b.addr, b.End()) by {
        assert s[1..] == [] || s[1..][1..] == [];
      }
      TilesAppend(bs[..i], s, lo, b.addr, b.End());
      TilesAppend(bs[..i] + s, bs[i + 1..], lo, b.End(), hi);
      forall k | 0 <= k < |r| - 1 ensures !(r[k].free && r[k + 1].free) {
        if k >= i + |s| {
          assert r[k] == bs[k - |s| + 1] && r[k + 1] == bs[k - |s| + 2];
        } else if k + 1 < i {
          assert r[k] == bs[k] && r[k + 1] == bs[k + 1];
        } else if k == i + |s| - 1 {
          assert r[k + 1] == bs[i + 1];
        }
      }
    }
  }

  /** An allocation adds one live block, at least as large as the rounded request, carved
      out of a free one; the other live blocks stay where they are. */
  lemma AllocateLive(bs: seq<Block>, need: nat)
    requires FirstFit(bs, need) < |bs|
    ensures var i := FirstFit(bs, need);
            var got := Allocate(bs, need)[i];
            && got.addr == bs[i].addr && need <= got.size <= bs[i].size && !got.free
            && Live(Allocate(bs, need)) == Live(bs[..i]) + [got] + Live(bs[i + 1..])
            && Live(bs) == Live(bs[..i]) + Live(bs[i + 1..])
  {
    hide Live, FirstFit;
    var i := FirstFit(bs, need);
    var s := Split(bs[i], need);
    LiveAt(bs, i);
    LiveAppend(bs[..i] + s, bs[i + 1..]);
    LiveAppend(bs[..i], s);
    LiveSplit(bs[i], need);
  }

  lemma LiveSplit(b: Block, need: nat)
    requires need <= b.size
    ensures Live(Split(b, need)) == [Split(b, need)[0]]
  {
    var s := Split(b, need);
    if |s| == 2 {
      assert s[1..] == [s[1]] && Live([s[1]]) == [];
    }
  }

  lemma {:induction false} CoalesceTiles(bs: seq<Block>, lo: nat, hi: nat)
    requires Tiles(bs, lo, hi)
    ensures Tiles(Coalesce(bs), lo, hi) && NoFreeNeighbours(Coalesce(bs))
    ensures |bs| > 0 ==> Coalesce(bs)[0].free == bs[0].free
    decreases |bs|
  {
    if |bs| >= 2 {
      assert bs[1..][0] == bs[1] && bs[1..][1..] == bs[2..];
      if bs[0].free && bs[1].free {
        var merged := [Merge(bs[0], bs[1])] + bs[2..];
        assert merged[1..] == bs[2..];
        CoalesceTiles(merged, lo, hi);
      } else {
        CoalesceTiles(bs[1..], bs[0].End(), hi);
        var r := Coalesce(bs[1..]);
        assert ([bs[0]] + r)[1..] == r;
      }
    }
  }

  lemma {:induction false} CoalesceLive(bs: seq<Block>)
    ensures Live(Coalesce(bs)) == Live(bs)
    decreases |bs|
  {
    if |bs| >= 2 {
      assert bs[1..][0] == bs[1] && bs[1..][1..] == bs[2..];
      if bs[0].free && bs[1].free && bs[0].End() == bs[1].addr {
        var merged := [Merge(bs[0], bs[1])] + bs[2..];
        assert merged[1..] == bs[2..];
        CoalesceLive(merged);
      } else {
        CoalesceLive(bs[1..]);
        var r := Coalesce(bs[1..]);
        assert ([bs[0]] + r)[1..] == r;
      }
    }
  }

  lemma {:induction false} TilesReplace(bs: seq<Block>, i: nat, b: Block, lo: nat, hi: nat)
    requires Tiles(bs, lo, hi) && i < |bs| && b.addr == bs[i].addr && b.size == bs[i].size
    ensures Tiles(bs[i := b], lo, hi)
    decreases i
  {
    if i == 0 {
      assert bs[0 := b][1..] == bs[1..];
    } else {
      TilesReplace(bs[1..], i - 1, b, bs[0].End(), hi);
      assert bs[i := b][1..] == bs[1..][i - 1 := b];
    }
  }

  lemma ReleaseKeeps(bs: seq<Block>, i: nat, lo: nat, hi: nat)
    requires Inv(bs, lo, hi) && i < |bs|
    ensures Inv(Release(bs, i), lo, hi)
  {
    TilesReplace(bs, i, bs[i].(free := true), lo, hi);
    CoalesceTiles(bs[i := bs[i].(free := true)], lo, hi);
  }

  /** A release removes one live block and leaves the others where they are. */
  lemma ReleaseLive(bs: seq<Block>, i: nat)
    requires i < |bs| && !bs[i].free
    ensures Live(bs) == Live(bs[..i]) + [bs[i]] + Live(bs[i + 1..])
    ensures Live(Release(bs, i)) == Live(bs[..i]) + Live(bs[i + 1..])
  {
    hide Live, Coalesce;
    CoalesceLive(bs[i := bs[i].(free := true)]);
    LiveAt(bs, i);
    LiveFreed(bs, i);
  }

  lemma LiveFreed(bs: seq<Block>, i: nat)
    requires i < |bs|
    ensures Live(bs[i := bs[i].(free := true)]) == Live(bs[..i]) + Live(bs[i + 1..])
  {
    hide Live;
    var r := bs[i := bs[i].(free := true)];
    LiveAt(r, i);
    assert r[..i] == bs[..i] && r[i + 1..] == bs[i + 1..];
    var a, c := Live(bs[..i]), Live(bs[i + 1..]);
    assert a + [] + c == a + c;
  }

  /** When nothing is live the heap is the one initial free block again, whatever the
      order in which the blocks were freed. */
  lemma AllFreeIsInitial(bs: seq<Block>, lo: nat, hi: nat)
    requires Inv(bs, lo, hi) && Live(bs) == []
    ensures hi - lo >= HEADER && bs == [Block(lo, hi - lo - HEADER, true)]
  {
    NothingLive(bs);
    assert |bs[1..]| == 0 && Tiles(bs[1..], bs[0].End(), hi);
  }

  lemma {:induction false} NothingLive(bs: seq<Block>)
    requires Live(bs) == []
    ensures forall k :: 0 <= k < |bs| ==> bs[k].free
    decreases |bs|
  {
    if |bs| > 0 {
      NothingLive(bs[1..]);
      forall k | 0 <= k < |bs| ensures bs[k].free {
        if k > 0 { assert bs[k] == bs[1..][k - 1]; }
      }
    }
  }

  // ---- steps of the list walks ---------------------------------------------------------

  lemma CoalesceMerge(bs: seq<Block>, i: nat)
    requires i + 1 < |bs| && bs[i].free && bs[i + 1].free && bs[i].End() == bs[i + 1].addr
    ensures bs[..i] + Coalesce(bs[i..]) == bs[..i] + Coalesce([Merge(bs[i], bs[i + 1])] + bs[i + 2..])
  {
    assert bs[i..][0] == bs[i] && bs[i..][1] == bs[i + 1] && bs[i..][2..] == bs[i + 2..];
  }

  lemma CoalesceSkip(bs: seq<Block>, i: nat)
    requires i + 1 < |bs| && !(bs[i].free && bs[i + 1].free && bs[i].End() == bs[i + 1].addr)
    ensures bs[..i] + Coalesce(bs[i..]) == bs[..i + 1] + Coalesce(bs[i + 1..])
  {
    assert bs[i..][0] == bs[i] && bs[i..][1] == bs[i + 1] && bs[i..][1..] == bs[i + 1..];
    assert bs[..i] + [bs[i]] == bs[..i + 1];
  }

  /** The walk of malloc: everything before position i has been passed over. */
  lemma FirstFitAt(bs: seq<Block>, need: nat, i: nat)
    requires i <= |bs| && forall k :: 0 <= k < i ==> !(bs[k].free && bs[k].size >= need)
    requires i < |bs| ==> bs[i].free && bs[i].size >= need
    ensures FirstFit(bs, need) == i
  {
  }

  /** A split followed by clearing the flag is the allocation. */
  lemma CutAllocates(bs: seq<Block>, i: nat, need: nat)
    requires i < |bs| && FirstFit(bs, need) == i
    ensures var r := if bs[i].size - need <= HEADER + 8 then bs else Cut(bs, i, need);
            i < |r| && r[i].addr == bs[i].addr && r[i := r[i].(free := false)] == Allocate(bs, need)
  {
    hide FirstFit, Split, Cut, Allocate;
    if bs[i].size - need <= HEADER + 8 {
      WholeAllocated(bs, i, need);
    } else {
      CutAllocated(bs, i, need);
    }
  }

  lemma WholeAllocated(bs: seq<Block>, i: nat, need: nat)
    requires i < |bs| && FirstFit(bs, need) == i && bs[i].size - need <= HEADER + 8
    ensures bs[i := bs[i].(free := false)] == Allocate(bs, need)
  {
    hide FirstFit;
    Ring.TakeNext(bs, i);
  }

  lemma CutAllocated(bs: seq<Block>, i: nat, need: nat)
    requires i < |bs| && FirstFit(bs, need) == i && bs[i].size - need > HEADER + 8
    ensures var r := Cut(bs, i, need);
            i < |r| && r[i].addr == bs[i].addr && r[i := r[i].(free := false)] == Allocate(bs, need)
  {
    hide FirstFit;
    var b := bs[i];
    var x, y := Block(b.addr, need, b.free), Block(b.addr, need, false);
    var rest := Block(b.addr + HEADER + need, b.size - need - HEADER, true);
    assert Split(b, need) == [y, rest] && Cut(bs, i, need) == bs[..i] + [x, rest] + bs[i + 1..];
    FirstOfTwo(bs[..i], x, y, rest, bs[i + 1..]);
  }

  lemma FirstOfTwo(before: seq<Block>, x: Block, y: Block, next: Block, after: seq<Block>)
    ensures (before + [x, next] + after)[|before|] == x
    ensures (before + [x, next] + after)[|before| := y] == before + [y, next] + after
  {
  }

  /** Releasing a pointer. */
  function ReleaseAt(bs: seq<Block>, ptr: nat): seq<Block> {
    if Find(bs, ptr) < |bs| then Release(bs, Find(bs, ptr)) else bs
  }

  /** The block whose payload starts at ptr. */
  function Find(bs: seq<Block>, ptr: nat): (i: nat)
    ensures i <= |bs| && (i < |bs| ==> bs[i].Payload() == ptr)
  {
    if |bs| == 0 || bs[0].Payload() == ptr then 0 else 1 + Find(bs[1..], ptr)
  }

  // ---- runs ---------------------------------------------------------------------------

  /** A call as far as the list of blocks is concerned; realloc is an allocation followed by
      a release. */
  datatype Op = Take(need: nat) | Give(ptr: nat)

  function RunOps(bs: seq<Block>, ops: seq<Op>): seq<Block>
    decreases |ops|
  {
    if |ops| == 0 then bs
    else RunOps(match ops[0] case Take(need) => Allocate(bs, need) case Give(ptr) => ReleaseAt(bs, ptr), ops[1..])
  }

  /** Whatever the sequence of calls, the blocks tile the heap, no two free blocks are
      neighbours, and if everything has been freed, in any order, only the initial free
      block is left. */
  lemma {:induction false} RunKeeps(bs: seq<Block>, ops: seq<Op>, lo: nat, hi: nat)
    requires Inv(bs, lo, hi)
    ensures Inv(RunOps(bs, ops), lo, hi)
    ensures Live(RunOps(bs, ops)) == [] ==> hi - lo >= HEADER && RunOps(bs, ops) == [Block(lo, hi - lo - HEADER, true)]
    decreases |ops|
  {
    if |ops| == 0 {
      if Live(bs) == [] {
        AllFreeIsInitial(bs, lo, hi);
      }
    } else {
      match ops[0]
      case Take(need) =>
        AllocateKeeps(bs, need, lo, hi);
        RunKeeps(Allocate(bs, need), ops[1..], lo, hi);
      case Give(ptr) =>
        if Find(bs, ptr) < |bs| {
          ReleaseKeeps(bs, Find(bs, ptr), lo, hi);
        }
        RunKeeps(ReleaseAt(bs, ptr), ops[1..], lo, hi);
    }
  }

  /** What is granted: exactly the rounded request if more than 20 bytes would be left over,
      12 of them for the header of the free block that they become; otherwise all of the
      block. */
  lemma GrantedBlock(bs: seq<Block>, need: nat)
    requires FirstFit(bs, need) < |bs|
    ensures var i, r := FirstFit(bs, need), Allocate(bs, need);
            && i < |r| && r[i].addr == bs[i].addr && !r[i].free
            && (if bs[i].size > need + 20 then
                  && |r| == |bs| + 1 && r[i].size == need
                  && r[i + 1] == Block(bs[i].addr + 12 + need, bs[i].size - need - 12, true)
                else |r| == |bs| && r[i].size == bs[i].size)
            && r[..i] == bs[..i] && r[|r| - (|bs| - i - 1)..] == bs[i + 1..]
  {
    hide FirstFit;
  }

  lemma AllocateNone(bs: seq<Block>, need: nat)
    requires FirstFit(bs, need) == |bs|
    ensures Allocate(bs, need) == bs
  {
  }
}
