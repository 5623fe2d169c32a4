/** The allocator in memory: block headers and payloads share one byte array. */
module Heap {
  import opened FixedPoint
  import opened HeapSpec
  import opened HeapMemory

  const GUARD: nat := 256

  /** a * b by repeated addition, refused when it does not fit 32 bits. */
  method SafeSizeMul(a: word, b: word) returns (ok: bool, out: word)
    ensures ok <==> a * b < WORD
    ensures ok ==> out == a * b
  {
    var acc: word := 0;
    if a == 0 || b == 0 {
      return true, 0;
    }
    var n: word := b;
    while n > 0
      invariant 0 <= n <= b && acc == (b - n) * a
    {
      n := n - 1;
      if acc > WORD - 1 - a {
        MulMonotone(a, b - n, b);
        return false, acc;
      }
      assert (b - n) * a == (b - n - 1) * a + a;
      acc := acc + a;
    }
    return true, acc;
  }

  lemma MulMonotone(a: nat, x: nat, y: nat)
    requires x <= y
    ensures x * a <= y * a
  {
    assert (y - x) * a >= 0;
    assert y * a == x * a + (y - x) * a;
  }

  lemma PositiveProduct(a: nat, b: nat)
    ensures a * b >= 0 && (a * b == 0 <==> a == 0 || b == 0)
  {
    if a > 0 && b > 0 {
      MulMonotone(b, 1, a);
    }
  }

  class Allocator {
    const mem: array<byte>    // the address space of the board, address 0 being NULL
    const ebss: word          // linker symbols: end of static data, top of the stack
    const stackTop: word
    var freeList: word
    var heapLo: word
    var heapHi: word
    ghost var blocks: seq<Block>

    ghost predicate Board() {
      0 < ebss && ebss + 32 < WORD && stackTop <= mem.Length < WORD
    }

    function Lo(): nat { (ebss + 7) / 8 * 8 }

    function Hi(): nat { (if stackTop > GUARD then stackTop - GUARD else stackTop) / 8 * 8 }

    ghost predicate Valid()
      reads this, mem
    {
      && Board()
      && (freeList == 0 ==> blocks == [])
      && (freeList != 0 ==> Started() && NoFreeNeighbours(blocks))
    }

    ghost predicate Started()
      reads this, mem
    {
      freeList == heapLo && |blocks| > 0 && Laid(mem[..], blocks, heapLo, heapHi)
    }

    /** The blocks once the heap is set up: nothing if there is no room for a header. */
    ghost function Current(): seq<Block>
      reads this
    {
      if freeList != 0 then blocks else Untouched()
    }

    ghost function Untouched(): seq<Block> {
      if Hi() <= Lo() + HEADER then [] else [Block(Lo(), Hi() - Lo() - HEADER, true)]
    }

    lemma Settled()
      requires Valid()
      ensures Current() == if blocks != [] then blocks else Untouched()
    {
    }

    // ---- memory access ------------------------------------------------------------------

    method GetWord(a: nat) returns (v: word)
      requires a + 4 <= mem.Length
      ensures v == Load(mem[..], a)
    {
      var b0: int, b1: int, b2: int, b3: int := mem[a], mem[a + 1], mem[a + 2], mem[a + 3];
      v := b0 + 0x100 * b1 + 0x1_0000 * b2 + 0x100_0000 * b3;
    }

    method SetWord(a: nat, v: word)
      requires a + 4 <= mem.Length
      modifies mem
      ensures mem[..] == Store(old(mem[..]), a, v)
    {
      mem[a] := v % 0x100;
      mem[a + 1] := v / 0x100 % 0x100;
      mem[a + 2] := v / 0x1_0000 % 0x100;
      mem[a + 3] := v / 0x100_0000;
    }

    // ---- the list operations ------------------------------------------------------------

    method InitHeapOnce()
      requires Valid()
      modifies this`freeList, this`heapLo, this`heapHi, this`blocks, mem
      ensures Valid() && blocks == old(Current()) && (freeList == 0 <==> blocks == [])
      ensures PayloadsKept(Live(old(blocks)), old(mem[..]), mem[..])
      ensures Live(old(blocks)) == [] || Live(old(blocks)) == Live(blocks)
      ensures old(freeList) != 0 ==> mem[..] == old(mem[..]) && heapLo == old(heapLo) && heapHi == old(heapHi)
    {
      hide Laid;
      if freeList != 0 {
        return;
      }
      heapLo := (ebss + 7) % WORD / 8 * 8;
      heapHi := stackTop;
      if heapHi > GUARD {
        heapHi := heapHi - GUARD;
      }
      heapHi := heapHi / 8 * 8;
      if heapHi <= heapLo + HEADER {
        freeList := 0;
        return;
      }
      freeList := heapLo;
      InstallFirst();
    }

    /** The one free block that covers the heap. */
    method InstallFirst()
      requires 0 < heapLo && heapLo + HEADER < heapHi <= mem.Length < WORD && freeList == heapLo
      modifies this`blocks, mem
      ensures Started() && blocks == [Block(heapLo, heapHi - heapLo - HEADER, true)]
    {
      hide Load, Store;
      var b := Block(heapLo, heapHi - heapLo - HEADER, true);
      SetWord(b.addr, b.size);
      SetWord(b.addr + 4, 0);
      SetWord(b.addr + 8, 1);
      HeaderStored(old(mem[..]), b, 0);
      OneBlockLaid(mem[..], b);
      blocks := [b];
    }

    /** Cuts the rest off a block that is large enough, unless the rest is too small to
        be a block. */
    method SplitBlock(blk: nat, need: nat, ghost i: nat)
      requires Started() && i < |blocks| && blk == blocks[i].addr && need <= blocks[i].size
      modifies mem, this`blocks
      ensures Started()
      ensures blocks == if old(blocks)[i].size - need <= HEADER + 8 then old(blocks) else Cut(old(blocks), i, need)
      ensures old(blocks)[i].free ==> PayloadsKept(Live(old(blocks)), old(mem[..]), mem[..])
    {
      hide Load, Store, Live, PayloadsKept, Cut, SameOutside, Tiles;
      ghost var bs, m := blocks, mem[..];
      assert HeaderIn(m, bs[i], Next(bs, i));
      TilesOrdered(bs, heapLo, heapHi);
      var size := GetWord(blk);
      var remain := size - need;
      if remain <= HEADER + 8 {
        SameKept(Live(bs), m);
        return;
      }
      var next := GetWord(blk + 4);
      var newBlk := blk + HEADER + need;
      SetWord(newBlk, remain - HEADER);
      SetWord(newBlk + 4, next);
      SetWord(newBlk + 8, 1);
      ghost var m1 := mem[..];
      SetWord(blk, need);
      SetWord(blk + 4, newBlk);
      blocks := Cut(bs, i, need);
      CutStored(m, m1, mem[..], bs, i, need, heapLo, heapHi);
    }

    /** Merges every run of adjacent free blocks. */
    method CoalesceAll()
      requires Started()
      modifies mem, this`blocks
      ensures Started() && blocks == Coalesce(old(blocks)) && Live(blocks) == Live(old(blocks))
      ensures PayloadsKept(Live(old(blocks)), old(mem[..]), mem[..])
    {
      hide Load, Store, Live, PayloadsKept, Tiles, HeaderIn;
      var blk: nat := freeList;
      ghost var i := 0;
      ghost var goal, live, m0 := Coalesce(blocks), Live(blocks), mem[..];
      SameKept(live, m0);
      FirstIsLow(blocks, heapLo, heapHi);
      assert blocks[..0] + Coalesce(blocks[0..]) == goal by { assert blocks[0..] == blocks; }
      var next := NextOf(blk, i);
      while next != 0
        invariant Started() && i < |blocks| && blk == blocks[i].addr && next == Next(blocks, i)
        invariant goal == blocks[..i] + Coalesce(blocks[i..])
        invariant Live(blocks) == live && PayloadsKept(live, m0, mem[..])
        decreases |blocks| - i
      {
        NextExists(mem[..], blocks, i, heapLo, heapHi);
        TilesDisjoint(blocks, i, i + 1, heapLo, heapHi);
        var size, isFree, nextFree := FieldsOf(blk, next, i);
        if isFree && nextFree && blk + HEADER + size == next {
          ghost var bs, m := blocks, mem[..];
          CoalesceMerge(bs, i);
          JoinNext(blk, next, size, i);
          JoinedParts(bs, i);
          KeptTransitive(live, m0, m, mem[..]);
        } else {
          CoalesceSkip(blocks, i);
          blk := next;
          i := i + 1;
        }
        next := NextOf(blk, i);
      }
      LastBlock(mem[..], blocks, i, heapLo, heapHi);
    }

    /** A free block swallows the free block after it. */
    method JoinNext(blk: nat, next: nat, size: nat, ghost i: nat)
      requires Started() && i + 1 < |blocks| && blk == blocks[i].addr && next == blocks[i + 1].addr
      requires size == blocks[i].size && blocks[i].free && blocks[i + 1].free
      modifies mem, this`blocks
      ensures Started() && blocks == Joined(old(blocks), i) && Live(blocks) == Live(old(blocks))
      ensures PayloadsKept(Live(old(blocks)), old(mem[..]), mem[..])
    {
      hide Load, Store, Live, PayloadsKept, Tiles, HeaderIn;
      TilesDisjoint(blocks, i, i + 1, heapLo, heapHi);
      var nextSize, nextNext := SizeAndNext(next, i + 1);
      JoinStored(mem[..], blocks, i, heapLo, heapHi);
      SetWord(blk, size + HEADER + nextSize);
      SetWord(blk + 4, nextNext);
      blocks := Joined(blocks, i);
    }

    method NextOf(blk: nat, ghost i: nat) returns (next: nat)
      requires Started() && i < |blocks| && blk == blocks[i].addr
      ensures next == Next(blocks, i)
    {
      assert HeaderIn(mem[..], blocks[i], Next(blocks, i));
      next := GetWord(blk + 4);
    }

    method SizeAndNext(blk: nat, ghost i: nat) returns (size: word, next: word)
      requires Started() && i < |blocks| && blk == blocks[i].addr
      ensures size == blocks[i].size && next == Next(blocks, i)
    {
      assert HeaderIn(mem[..], blocks[i], Next(blocks, i));
      size := GetWord(blk);
      next := GetWord(blk + 4);
    }

    method FieldsOf(blk: nat, next: nat, ghost i: nat) returns (size: nat, isFree: bool, nextFree: bool)
      requires Started() && i + 1 < |blocks| && blk == blocks[i].addr && next == blocks[i + 1].addr
      ensures size == blocks[i].size && isFree == blocks[i].free && nextFree == blocks[i + 1].free
    {
      assert HeaderIn(mem[..], blocks[i], Next(blocks, i)) && HeaderIn(mem[..], blocks[i + 1], Next(blocks, i + 1));
      size := GetWord(blk);
      var flag := GetWord(blk + 8);
      var nextFlag := GetWord(next + 8);
      isFree, nextFree := flag != 0, nextFlag != 0;
    }

    // ---- malloc, free, calloc, realloc ----------------------------------------------------

    /** A live pointer: one that malloc returned and that was not freed since. */
    ghost predicate IsLive(ptr: nat)
      reads this
    {
      var i := Find(blocks, ptr);
      i < |blocks| && !blocks[i].free
    }

    /** First fit.  The result is NULL exactly when no free block has the rounded size. */
    method Malloc(size: word) returns (ptr: nat)
      requires Valid()
      modifies this`freeList, this`heapLo, this`heapHi, this`blocks, mem
      ensures Valid()
      ensures size == 0 ==> ptr == 0 && blocks == old(blocks) && mem[..] == old(mem[..])
      ensures size > 0 ==>
                var bs := old(Current());
                var i := FirstFit(bs, RoundUp(size));
                && blocks == Allocate(bs, RoundUp(size))
                && (ptr == 0 <==> i == |bs|)
                && (ptr != 0 ==> i < |blocks| && ptr == blocks[i].Payload() == bs[i].Payload() && !blocks[i].free)
      ensures ptr != 0 ==> ptr + RoundUp(size) <= mem.Length
                           && OwnsRange(Live(blocks), ptr, RoundUp(size))
                           && OwnsNone(Live(old(blocks)), ptr, RoundUp(size))
      ensures ptr != 0 ==> IsLive(ptr) && BlockSize(ptr) >= RoundUp(size) && !old(IsLive(ptr))
      ensures PayloadsKept(Live(old(blocks)), old(mem[..]), mem[..])
      ensures old(freeList) != 0 ==> heapLo == old(heapLo) && heapHi == old(heapHi)
    {
      hide Load, Store, Live, PayloadsKept, Tiles, HeaderIn, Split, Cut, OwnsRange, OwnsNone, Find;
      ghost var live0, m0 := Live(blocks), mem[..];
      SameKept(live0, m0);
      if size == 0 {
        return 0;
      }
      InitHeapOnce();
      if freeList == 0 {
        return 0;
      }
      ghost var m1, lo, hi := mem[..], heapLo, heapHi;
      var need := RoundUp(size);
      var blk: nat := freeList;
      ghost var bs, i := blocks, 0;
      FirstIsLow(bs, heapLo, heapHi);
      NoBlockAtNull(bs, heapLo, heapHi);
      while blk != 0
        invariant Started() && blocks == bs && mem[..] == m1 && heapLo == lo && heapHi == hi && i <= |bs|
        invariant if i < |bs| then blk == bs[i].addr else blk == 0
        invariant forall k :: 0 <= k < i ==> !(bs[k].free && bs[k].size >= need)
        decreases |bs| - i
      {
        var blkSize, next := SizeAndNext(blk, i);
        var isFree := IsFree(blk, i);
        if isFree && blkSize >= need {
          FirstFitAt(bs, need, i);
          Take(blk, need, i);
          AllocateKeeps(bs, need, heapLo, heapHi);
          CurrentLive(live0, bs, m0, m1, mem[..]);
          NotOwned(live0, blk + HEADER, need);
          FreshPayload(bs, need, lo, hi);
          FreshPointer(old(blocks), bs, need, lo, hi);
          return blk + HEADER;
        }
        NextExists(mem[..], blocks, i, heapLo, heapHi);
        blk := next;
        i := i + 1;
      }
      FirstFitAt(bs, need, i);
      return 0;
    }

    method IsFree(blk: nat, ghost i: nat) returns (free: bool)
      requires Started() && i < |blocks| && blk == blocks[i].addr
      ensures free == blocks[i].free
    {
      assert HeaderIn(mem[..], blocks[i], Next(blocks, i));
      var flag := GetWord(blk + 8);
      free := flag != 0;
    }

    /** The chosen block is split and marked as taken. */
    method Take(blk: nat, need: nat, ghost i: nat)
      requires Started() && i < |blocks| && blk == blocks[i].addr && FirstFit(blocks, need) == i
      modifies mem, this`blocks
      ensures Started() && blocks == Allocate(old(blocks), need) && |blocks| > i
      ensures blocks[i].addr == old(blocks)[i].addr && !blocks[i].free
      ensures PayloadsKept(Live(old(blocks)), old(mem[..]), mem[..])
    {
      hide Load, Store, Live, PayloadsKept, Tiles, HeaderIn, Allocate;
      ghost var bs, m := blocks, mem[..];
      SplitBlock(blk, need, i);
      CutAllocates(bs, i, need);
      ghost var m1, cut := mem[..], blocks;
      CutLive(bs, i, need);
      SetFlag(blk, false, i);
      KeptTransitive(Live(bs), m, m1, mem[..]);
    }

    method SetFlag(blk: nat, free: bool, ghost i: nat)
      requires Started() && i < |blocks| && blk == blocks[i].addr
      modifies mem, this`blocks
      ensures Started() && blocks == old(blocks)[i := old(blocks)[i].(free := free)]
      ensures PayloadsKept(Live(old(blocks)), old(mem[..]), mem[..])
    {
      hide Load, Store, Live, PayloadsKept, Tiles, HeaderIn;
      ghost var m := mem[..];
      NextExists(m, blocks, i, heapLo, heapHi);
      FlagLaid(m, blocks, i, free, heapLo, heapHi);
      SetWord(blk + 8, if free then 1 else 0);
      blocks := blocks[i := blocks[i].(free := free)];
    }

    /** Releases a live pointer; NULL is ignored. */
    method Free(ptr: nat)
      requires Valid() && (ptr == 0 || IsLive(ptr))
      modifies this`blocks, mem
      ensures Valid()
      ensures ptr == 0 ==> blocks == old(blocks) && mem[..] == old(mem[..])
      ensures ptr != 0 ==> blocks == ReleaseAt(old(blocks), ptr)
      ensures PayloadsKept(Live(blocks), old(mem[..]), mem[..])
    {
      hide Load, Store, Live, PayloadsKept, Tiles, HeaderIn, Coalesce;
      SameKept(Live(blocks), mem[..]);
      if ptr == 0 {
        return;
      }
      ghost var bs, i, m := blocks, Find(blocks, ptr), mem[..];
      var blk := ptr - HEADER;
      SetFlag(blk, true, i);
      ghost var m1, freed := mem[..], blocks;
      CoalesceAll();
      ReleaseKeeps(bs, i, heapLo, heapHi);
      FreedKept(bs, i, m, m1);
      KeptTransitive(Live(freed), m, m1, mem[..]);
    }

    /** Zeroes bytes that belong to the caller. */
    method ZeroFill(ptr: nat, n: nat)
      requires Valid() && ptr + n <= mem.Length && OwnsRange(Live(blocks), ptr, n)
      modifies mem
      ensures Valid()
      ensures forall x :: ptr <= x < ptr + n ==> mem[x] == 0
      ensures forall x :: 0 <= x < mem.Length && !(ptr <= x < ptr + n) ==> mem[x] == old(mem[x])
    {
      hide Owned, Live, Laid;
      for i := 0 to n
        invariant Valid()
        invariant forall x :: ptr <= x < ptr + i ==> mem[x] == 0
        invariant forall x :: 0 <= x < mem.Length && !(ptr <= x < ptr + i) ==> mem[x] == old(mem[x])
      {
        assert Owned(Live(blocks), ptr + i);
        StoreOwned(ptr + i, 0);
      }
    }

    /** Copies bytes into a payload that they do not overlap. */
    method CopyInto(dst: nat, src: nat, n: nat)
      requires Valid() && (n == 0 || dst + n <= src || src + n <= dst)
      requires src + n <= mem.Length && dst + n <= mem.Length && OwnsRange(Live(blocks), dst, n)
      modifies mem
      ensures Valid() && mem[dst..dst + n] == old(mem[src..src + n])
      ensures forall x :: 0 <= x < mem.Length && !(dst <= x < dst + n) ==> mem[x] == old(mem[x])
    {
      hide Owned, Live, Laid;
      for i := 0 to n
        invariant Valid() && mem[dst..dst + i] == old(mem[src..src + i])
        invariant forall x :: 0 <= x < mem.Length && !(dst <= x < dst + i) ==> mem[x] == old(mem[x])
      {
        assert Owned(Live(blocks), dst + i);
        StoreOwned(dst + i, mem[src + i]);
      }
    }

    /** The caller of a live block writes into it: no header is harmed. */
    method StoreOwned(x: nat, v: byte)
      requires Valid() && x < mem.Length && Owned(Live(blocks), x)
      modifies mem
      ensures Valid() && mem[x] == v && forall y :: 0 <= y < mem.Length && y != x ==> mem[y] == old(mem[y])
    {
      hide Load, Live, Tiles, HeaderIn, Owned;
      NothingOwned(blocks, x);
      OwnedWriteKeepsHeaders(mem[..], blocks, x, v, heapLo, heapHi);
      mem[x] := v;
      assert mem[..] == old(mem[..])[x := v];
    }

    /** An allocation filled with zeros, or NULL when the product or the block does not fit. */
    method Calloc(nmemb: word, size: word) returns (ptr: nat)
      requires Valid() && (nmemb * size >= WORD || nmemb * size <= WORD - 8)
      modifies this`freeList, this`heapLo, this`heapHi, this`blocks, mem
      ensures Valid()
      ensures nmemb == 0 || size == 0 || nmemb * size >= WORD ==>
                ptr == 0 && blocks == old(blocks) && mem[..] == old(mem[..])
      ensures nmemb > 0 && size > 0 && nmemb * size < WORD ==>
                var bs, need := old(Current()), RoundUp(nmemb * size);
                && blocks == Allocate(bs, need) && (ptr == 0 <==> FirstFit(bs, need) == |bs|)
                && (ptr != 0 ==> ptr == bs[FirstFit(bs, need)].Payload() && ptr + need <= mem.Length
                                 && BlockSize(ptr) >= need && OwnsRange(Live(blocks), ptr, need))
      ensures ptr != 0 ==> IsLive(ptr) && !old(IsLive(ptr)) && ptr + nmemb * size <= mem.Length
                           && OwnsRange(Live(blocks), ptr, nmemb * size)
                           && forall x :: ptr <= x < ptr + nmemb * size ==> mem[x] == 0
      ensures PayloadsKept(Live(old(blocks)), old(mem[..]), mem[..])
    {
      hide Load, Store, Live, Laid, Allocate, FirstFit, Owned, RoundUp;
      if nmemb == 0 || size == 0 {
        ptr := Malloc(0);
        return;
      }
      var ok, total := SafeSizeMul(nmemb, size);
      if !ok {
        return 0;
      }
      ptr := Malloc(total);
      RoundUpCovers(total);
      if ptr != 0 {
        ZeroFill(ptr, total);
      }
    }

    /** The old bytes are copied to the new block and the old block is freed. */
    method Move(ptr: nat, newp: nat, n: nat)
      requires Valid() && IsLive(ptr) && n == blocks[Find(blocks, ptr)].size && ptr + n <= mem.Length
      requires newp + n <= mem.Length && OwnsRange(Live(blocks), newp, n)
               && (n == 0 || newp + n <= ptr || ptr + n <= newp)
      modifies this`blocks, mem
      ensures Valid() && blocks == ReleaseAt(old(blocks), ptr)
      ensures mem[newp..newp + n] == old(mem[ptr..ptr + n])
      ensures forall x :: 0 <= x < mem.Length && Owned(Live(old(blocks)), x) && !(ptr <= x < ptr + n)
                && !(newp <= x < newp + n)
                ==> mem[x] == old(mem[x])
    {
      hide Load, Store, Live, Linked, Owned, Release;
      ghost var bs := blocks;
      CopyInto(newp, ptr, n);
      Free(ptr);
      forall x | 0 <= x < mem.Length && Owned(Live(bs), x) && !(ptr <= x < ptr + n)
        ensures Owned(Live(blocks), x)
      {
        ReleaseOwned(bs, Find(bs, ptr), x);
      }
    }

    /** The bytes of all live blocks but the n at ptr are as before. */
    twostate predicate OthersKept(ptr: nat, n: nat, new live: seq<Block>)
      reads mem
    {
      forall x :: 0 <= x < mem.Length && Owned(live, x) && !(ptr <= x < ptr + n) ==> mem[x] == old(mem[x])
    }

    /** What becomes of a realloc: the block is kept, or a new one is needed. */
    ghost predicate Keeps(ptr: nat, size: nat)
      reads this
    {
      ptr != 0 && BlockSize(ptr) >= size
    }

    /** Keeps the block when it is large enough; otherwise moves the bytes to a new one and
        frees the old one, unless there is no room, when nothing is freed. */
    method Realloc(ptr: nat, size: word) returns (newp: nat)
      requires Valid() && (ptr == 0 || IsLive(ptr)) && size <= WORD - 8
      modifies this`freeList, this`heapLo, this`heapHi, this`blocks, mem
      ensures Valid()
      ensures newp == 0 <==>
              size == 0 || (!old(Keeps(ptr, size)) && FirstFit(old(Current()), RoundUp(size)) == |old(Current())|)
      ensures blocks == if size == 0 then (if ptr == 0 then old(blocks) else ReleaseAt(old(blocks), ptr))
                        else if old(Keeps(ptr, size)) then old(blocks)
                        else if ptr == 0 || newp == 0 then Allocate(old(Current()), RoundUp(size))
                        else ReleaseAt(Allocate(old(blocks), RoundUp(size)), ptr)
      ensures newp != 0 ==> IsLive(newp) && BlockSize(newp) >= size && newp + size <= mem.Length
                            && OwnsRange(Live(blocks), newp, size) && (newp == ptr <==> old(Keeps(ptr, size)))
                            && (newp != ptr ==> !old(IsLive(newp)) && BlockSize(newp) >= RoundUp(size))
      ensures size > 0 && old(Keeps(ptr, size)) ==> mem[..] == old(mem[..])
      ensures newp != 0 && !old(Keeps(ptr, size)) ==>
                newp == old(Current())[FirstFit(old(Current()), RoundUp(size))].Payload()
      ensures newp != 0 && ptr != 0 ==>
                var n := if old(BlockSize(ptr)) < size then old(BlockSize(ptr)) else size;
                ptr + n <= mem.Length && mem[..][newp..newp + n] == old(mem[..])[ptr..ptr + n]
      ensures OthersKept(ptr, old(if ptr == 0 then 0 else BlockSize(ptr)), Live(old(blocks)))
      ensures ptr == 0 || (newp == 0 && size > 0) ==> PayloadsKept(Live(old(blocks)), old(mem[..]), mem[..])
    {
      hide Load, Store, Live, Linked, Split, FirstFit, Owned, Release, Find, Allocate, RoundUp, OwnsRange;
      if ptr == 0 {
        newp := Malloc(size);
        RoundUpCovers(size);
        if newp != 0 {
          OwnsLess(Live(blocks), newp, RoundUp(size), size);
        }
        return;
      }
      if size == 0 {
        FreedAnd(ptr);
        return 0;
      }
      newp := KeepOrMove(ptr, size);
    }

    /** The case of a live block and a size above 0. */
    method KeepOrMove(ptr: nat, size: word) returns (newp: nat)
      requires Valid() && IsLive(ptr) && 0 < size <= WORD - 8
      modifies this`freeList, this`heapLo, this`heapHi, this`blocks, mem
      ensures Valid() && RoundUp(size) >= size
      ensures var bs, k, need := old(blocks), old(BlockSize(ptr)), RoundUp(size);
              if k >= size then newp == ptr && blocks == bs && mem[..] == old(mem[..])
              else if FirstFit(bs, need) == |bs| then
                newp == 0 && blocks == bs == Allocate(bs, need) && PayloadsKept(Live(bs), old(mem[..]), mem[..])
              else newp == bs[FirstFit(bs, need)].Payload() && newp != ptr && !old(IsLive(newp))
                   && blocks == ReleaseAt(Allocate(bs, need), ptr) && BlockSize(newp) >= need
                   && newp + k <= mem.Length && ptr + k <= mem.Length
                   && mem[..][newp..newp + k] == old(mem[..])[ptr..ptr + k]
      ensures newp != 0 ==> IsLive(newp) && newp + size <= mem.Length && OwnsRange(Live(blocks), newp, size)
      ensures newp != 0 ==> ptr + (if old(BlockSize(ptr)) < size then old(BlockSize(ptr)) else size) <= mem.Length
      ensures OthersKept(ptr, old(BlockSize(ptr)), Live(old(blocks)))
    {
      hide Load, Store, Live, Linked, Split, FirstFit, Owned, Release, Find, Allocate, RoundUp, OwnsRange;
      ghost var bs, m := blocks, mem[..];
      RoundUpCovers(size);
      var blkSize := SizeOf(ptr - HEADER, Find(blocks, ptr));
      if blkSize >= size {
        LiveOwnsPayload(bs, Find(bs, ptr));
        TilesOrdered(bs, heapLo, heapHi);
        OwnsLess(Live(blocks), ptr, blkSize, size);
        return ptr;
      }
      newp := Malloc(size);
      if newp == 0 {
        AllocateNone(bs, RoundUp(size));
        return;
      }
      Relocate(ptr, newp, blkSize, bs, RoundUp(size), m);
      OwnsLess(Live(blocks), newp, RoundUp(size), size);
    }

    /** A release, seen from the bytes: everybody else's are kept. */
    method FreedAnd(ptr: nat)
      requires Valid() && IsLive(ptr)
      modifies this`blocks, mem
      ensures Valid() && blocks == ReleaseAt(old(blocks), ptr)
      ensures OthersKept(ptr, old(BlockSize(ptr)), Live(old(blocks)))
    {
      hide Load, Store, Live, Linked, Owned, Release;
      ghost var bs := blocks;
      Free(ptr);
      forall x | 0 <= x < mem.Length && Owned(Live(bs), x) && !(ptr <= x < ptr + old(BlockSize(ptr)))
        ensures Owned(Live(blocks), x)
      {
        ReleaseOwned(bs, Find(bs, ptr), x);
      }
    }

    ghost function BlockSize(ptr: nat): nat
      reads this
    {
      if Find(blocks, ptr) < |blocks| then blocks[Find(blocks, ptr)].size else 0
    }

    method Relocate(ptr: nat, newp: nat, n: nat, ghost bs: seq<Block>, ghost need: nat, ghost m: seq<byte>)
      requires Valid() && freeList != 0 && Inv(bs, heapLo, heapHi) && n <= need
      requires Find(bs, ptr) < |bs| && !bs[Find(bs, ptr)].free && n == bs[Find(bs, ptr)].size
      requires FirstFit(bs, need) < |bs| && blocks == Allocate(bs, need)
      requires newp + need <= mem.Length && OwnsRange(Live(blocks), newp, need) && OwnsNone(Live(bs), newp, need)
      requires newp == bs[FirstFit(bs, need)].Payload()
      requires PayloadsKept(Live(bs), m, mem[..])
      modifies this`blocks, mem
      ensures Valid() && blocks == ReleaseAt(Allocate(bs, need), ptr)
      ensures newp != ptr && IsLive(newp) && BlockSize(newp) >= need && OwnsRange(Live(blocks), newp, need)
      ensures |m| == mem.Length && newp + n <= |m| && ptr + n <= |m| && mem[..][newp..newp + n] == m[ptr..ptr + n]
      ensures forall x :: 0 <= x < mem.Length && Owned(Live(bs), x) && !(ptr <= x < ptr + n) ==> mem[x] == m[x]
    {
      hide Load, Store, Live, Linked, Split, FirstFit, Owned, Release, Find, Allocate, OwnsRange;
      FindAfterAllocate(bs, need, ptr, heapLo, heapHi);
      LiveOwnsPayload(bs, Find(bs, ptr));
      TilesOrdered(bs, heapLo, heapHi);
      if n > 0 {
        RangesDisjoint(Live(bs), ptr, n, newp, need);
      }
      assert mem[ptr..ptr + n] == m[ptr..ptr + n];
      ghost var m1 := mem[..];
      MovedPointer(bs, need, ptr, heapLo, heapHi);
      OwnsLess(Live(blocks), newp, need, n);
      Move(ptr, newp, n);
      BacksOwns(Live(blocks), newp, need);
      forall x | 0 <= x < mem.Length && Owned(Live(bs), x) && !(ptr <= x < ptr + n)
        ensures mem[x] == m[x]
      {
        AllocateOwned(bs, need, x);
        assert m1[x] == m[x];
      }
    }

    method SizeOf(blk: nat, ghost i: nat) returns (size: nat)
      requires Started() && i < |blocks| && blk == blocks[i].addr
      ensures size == blocks[i].size
    {
      var next;
      size, next := SizeAndNext(blk, i);
    }
  }
}
