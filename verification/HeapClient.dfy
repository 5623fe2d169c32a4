/** A program on top of the allocator: what it may rely on over any sequence of malloc, free,
    calloc, realloc and its own writes, stated without the block list. */
module HeapClient {
  import opened FixedPoint
  import opened HeapSpec
  import opened HeapMemory
  import Heap

  /** What the program holds: the bytes it knows to be behind every live pointer. */
  type Held = map<nat, seq<byte>>

  datatype Call =
    | Malloc(size: word)
    | Free(ptr: nat)
    | Calloc(nmemb: word, size: word)
    | Realloc(ptr: nat, size: word)
    | Write(ptr: nat, at: nat, value: byte)

  /** The calls the program may make: on NULL or live pointers, inside what it holds, and
      of sizes that the rounding does not wrap. */
  predicate Legal(held: Held, c: Call) {
    match c
    case Malloc(size) => size <= WORD - 8
    case Free(ptr) => ptr == 0 || ptr in held
    case Calloc(nmemb, size) => nmemb * size >= WORD || nmemb * size <= WORD - 8
    case Realloc(ptr, size) => (ptr == 0 || ptr in held) && size <= WORD - 8
    case Write(ptr, at, value) => ptr in held && at < |held[ptr]|
  }

  /** p and its n bytes are new: no pointer held is the same or has bytes in common. */
  predicate Fresh(held: Held, p: nat, n: nat) {
    p != 0 && p !in held && forall q :: q in held ==> q + |held[q]| <= p || p + n <= q
  }

  /** The bytes gained by an allocation; everything else the program holds stays the same. */
  predicate Gains(held: Held, p: nat, bytes: seq<byte>, held': Held) {
    Fresh(held, p, |bytes|) && held' == held[p := bytes]
  }

  /** What each call promises: NULL changes nothing that is held. */
  ghost predicate Promised(held: Held, c: Call, result: nat, held': Held) {
    match c
    case Malloc(size) =>
      if result == 0 then held' == held
      else exists bytes: seq<byte> :: |bytes| == size > 0 && Gains(held, result, bytes, held')
    case Free(ptr) => held' == held - {ptr}
    case Calloc(nmemb, size) =>
      if result == 0 then held' == held
      else 0 < nmemb * size < WORD && Gains(held, result, Nil(nmemb * size), held')
    case Realloc(ptr, size) =>
      if size == 0 then result == 0 && held' == held - {ptr}
      else if result == 0 then held' == held
      else exists bytes: seq<byte> ::
        |bytes| == size && Gains(held - {ptr}, result, bytes, held')
        && (ptr in held ==> Common(held[ptr], bytes))
    case Write(ptr, at, value) =>
      ptr in held && at < |held[ptr]| && held' == held[ptr := Put(held[ptr], at, value)]
  }

  function Put(bytes: seq<byte>, at: nat, value: byte): (r: seq<byte>)
    requires at < |bytes|
    ensures |r| == |bytes|
  {
    bytes[at := value]
  }

  function Nil(n: nat): (zeros: seq<byte>)
    ensures |zeros| == n
  {
    seq(n, _ => 0)
  }

  /** The two agree as far as both reach. */
  predicate Common(a: seq<byte>, b: seq<byte>) {
    forall i :: 0 <= i < |a| && i < |b| ==> a[i] == b[i]
  }

  // ---- what each call answers ----------------------------------------------------------------

  /** First fit: the pointer granted, or NULL, and the blocks there are then. */
  function Grant(bs: seq<Block>, size: word): (nat, seq<Block>) {
    var i := FirstFit(bs, RoundUp(size));
    if size == 0 || i == |bs| then (0, bs) else (bs[i].Payload(), Allocate(bs, RoundUp(size)))
  }

  /** The result of a call, and the blocks it leaves, as a function of the blocks alone. */
  function Answer(bs: seq<Block>, c: Call): (nat, seq<Block>) {
    match c
    case Malloc(size) => Grant(bs, size)
    case Free(ptr) => (0, if ptr == 0 then bs else ReleaseAt(bs, ptr))
    case Calloc(nmemb, size) => if 0 <= nmemb * size < WORD then Grant(bs, nmemb * size) else (0, bs)
    case Realloc(ptr, size) =>
      if ptr == 0 then Grant(bs, size)
      else if size == 0 then (0, ReleaseAt(bs, ptr))
      else if Find(bs, ptr) < |bs| && bs[Find(bs, ptr)].size >= size then (ptr, bs)
      else
        var (newp, r) := Grant(bs, size);
        (newp, if newp == 0 then r else ReleaseAt(r, ptr))
    case Write(ptr, at, value) => (0, bs)
  }

  datatype Outcome = Outcome(results: seq<nat>, blocks: seq<Block>)

  /** The first n calls of a program, each answered from the blocks the last one left. */
  function Outcomes(program: Program, n: nat, bs: seq<Block>): Outcome {
    if n == 0 then Outcome([], bs)
    else
      var before := Outcomes(program, n - 1, bs);
      var (result, after) := Answer(before.blocks, program(before.results));
      Outcome(before.results + [result], after)
  }

  lemma Granted(bs: seq<Block>, size: word, p: nat, r: seq<Block>)
    requires size > 0 && r == Allocate(bs, RoundUp(size))
    requires p == 0 <==> FirstFit(bs, RoundUp(size)) == |bs|
    requires p != 0 ==> p == bs[FirstFit(bs, RoundUp(size))].Payload()
    ensures Grant(bs, size) == (p, r) && (r == [] <==> bs == [])
  {
    hide Split;
    if p == 0 {
      AllocateNone(bs, RoundUp(size));
    }
  }

  lemma ReallocAnswered(bs: seq<Block>, ptr: nat, size: word, p: nat, r: seq<Block>)
    requires size > 0 && (ptr != 0 ==> Find(bs, ptr) < |bs|)
    requires if ptr != 0 && bs[Find(bs, ptr)].size >= size then p == ptr && r == bs
             else
               && (p == 0 <==> FirstFit(bs, RoundUp(size)) == |bs|)
               && (p != 0 ==> p == bs[FirstFit(bs, RoundUp(size))].Payload())
               && r == if ptr == 0 || p == 0 then Allocate(bs, RoundUp(size))
                       else ReleaseAt(Allocate(bs, RoundUp(size)), ptr)
    ensures Answer(bs, Realloc(ptr, size)) == (p, r) && (r == [] <==> bs == [])
  {
    hide Allocate, FirstFit, RoundUp, Find, Release, Grant;
    if !(ptr != 0 && bs[Find(bs, ptr)].size >= size) {
      Granted(bs, size, p, Allocate(bs, RoundUp(size)));
      StillBlocks(Allocate(bs, RoundUp(size)), ptr);
    }
  }

  lemma StillBlocks(bs: seq<Block>, ptr: nat)
    ensures ReleaseAt(bs, ptr) == [] <==> bs == []
  {
  }

  lemma NothingGranted(bs: seq<Block>)
    ensures Grant(bs, 0) == (0, bs)
  {
  }

  /** The requests that get no pointer: of size 0, of a product that overflows, or when no
      free block is large enough and the old one is not either. */
  predicate Refused(bs: seq<Block>, c: Call) {
    match c
    case Malloc(size) => size == 0 || NoFit(bs, size)
    case Calloc(nmemb, size) =>
      nmemb == 0 || size == 0 || nmemb * size >= WORD || NoFit(bs, nmemb * size)
    case Realloc(ptr, size) =>
      size == 0 || (NoFit(bs, size) && !(ptr != 0 && Find(bs, ptr) < |bs| && bs[Find(bs, ptr)].size >= size))
    case _ => true
  }

  predicate NoFit(bs: seq<Block>, size: int) {
    0 <= size < WORD ==> FirstFit(bs, RoundUp(size)) == |bs|
  }

  lemma NullExactly(bs: seq<Block>, c: Call)
    ensures Answer(bs, c).0 == 0 <==> Refused(bs, c)
  {
    if c.Calloc? {
      Heap.PositiveProduct(c.nmemb, c.size);
    }
  }

  /** A program chooses each call from the results so far. */
  type Program = seq<nat> -> Call

  /** The program can get these results and then hold these bytes. */
  ghost predicate Run(program: Program, results: seq<nat>, held: Held)
    decreases |results|
  {
    if |results| == 0 then held == map[]
    else
      var n := |results| - 1;
      exists before: Held ::
        Run(program, results[..n], before) && Promised(before, program(results[..n]), results[n], held)
  }

  /** It never passes anything but NULL or a pointer it holds. */
  ghost predicate WellBehaved(program: Program) {
    forall results: seq<nat>, held: Held :: Run(program, results, held) ==> Legal(held, program(results))
  }

  /** The program's picture of memory is right: every pointer held has a live block with
      its bytes, and every live block is held. */
  ghost predicate Holds(held: Held, live: seq<Block>, m: seq<byte>) {
    && (forall p :: p in held ==> HoldsAt(p, held[p], live, m))
    && (forall p: nat :: Backs(live, p, 0) ==> p in held)
  }

  ghost predicate HoldsAt(p: nat, bytes: seq<byte>, live: seq<Block>, m: seq<byte>) {
    Backs(live, p, |bytes|) && p + |bytes| <= |m| && m[p..p + |bytes|] == bytes
  }

  ghost predicate InOrder(live: seq<Block>) {
    forall j, k :: 0 <= j < k < |live| ==> live[j].End() <= live[k].addr
  }

  lemma BacksApart(live: seq<Block>, p: nat, n: nat, q: nat, m: nat)
    requires InOrder(live) && Backs(live, p, n) && Backs(live, q, m) && p != q
    ensures p + n <= q || q + m <= p
  {
    var j :| 0 <= j < |live| && live[j].Payload() == p && n <= live[j].size;
    var k :| 0 <= k < |live| && live[k].Payload() == q && m <= live[k].size;
    if j < k {
      assert live[j].End() <= live[k].addr;
    } else if k < j {
      assert live[k].End() <= live[j].addr;
    }
  }

  /** Bytes of live blocks other than the n at ptr are as before. */
  ghost predicate KeptBut(live: seq<Block>, ptr: nat, n: nat, m: seq<byte>, m': seq<byte>) {
    |m| == |m'| && forall x :: 0 <= x < |m| && Owned(live, x) && !(ptr <= x < ptr + n) ==> m'[x] == m[x]
  }

  lemma StillThere(p: nat, bytes: seq<byte>, live: seq<Block>, ptr: nat, n: nat, m: seq<byte>, m': seq<byte>)
    requires Backs(live, p, |bytes|) && p + |bytes| <= |m| && m[p..p + |bytes|] == bytes
    requires KeptBut(live, ptr, n, m, m') && (p + |bytes| <= ptr || ptr + n <= p)
    ensures m'[p..p + |bytes|] == bytes
  {
    BacksOwns(live, p, |bytes|);
    forall i | 0 <= i < |bytes| ensures m'[p + i] == bytes[i] {
      assert Owned(live, p + i);
      assert m[p..p + |bytes|][i] == m[p + i];
    }
  }

  /** Nothing has been allocated or freed, and no live byte has changed. */
  lemma HoldsStill(held: Held, live: seq<Block>, m: seq<byte>, m': seq<byte>)
    requires Holds(held, live, m) && PayloadsKept(live, m, m')
    ensures Holds(held, live, m')
  {
    forall p | p in held ensures HoldsAt(p, held[p], live, m') {
      assert HoldsAt(p, held[p], live, m);
      StillThere(p, held[p], live, p + |held[p]|, 0, m, m');
    }
  }

  lemma NullNotHeld(held: Held, bs: seq<Block>, m: seq<byte>)
    requires Holds(held, Live(bs), m)
    ensures 0 !in held
  {
    forall p | p in held ensures p > 0 {
      assert HoldsAt(p, held[p], Live(bs), m);
    }
  }

  /** A pointer that is not live is not held. */
  lemma NotHeld(held: Held, bs: seq<Block>, m: seq<byte>, p: nat, lo: nat, hi: nat)
    requires Tiles(bs, lo, hi) && Holds(held, Live(bs), m) && !(Find(bs, p) < |bs| && !bs[Find(bs, p)].free)
    ensures p !in held
  {
    forall q | q in held ensures q != p {
      HeldFound(held, bs, m, q, lo, hi);
    }
  }

  lemma HeldFound(held: Held, bs: seq<Block>, m: seq<byte>, p: nat, lo: nat, hi: nat)
    requires Tiles(bs, lo, hi) && Holds(held, Live(bs), m) && p in held
    ensures Find(bs, p) < |bs| && !bs[Find(bs, p)].free && |held[p]| <= bs[Find(bs, p)].size
  {
    assert HoldsAt(p, held[p], Live(bs), m);
    BacksAny(Live(bs), p, |held[p]|);
    FindLive(bs, p, lo, hi);
  }

  lemma HeldInList(held: Held, bs: seq<Block>, m: seq<byte>, p: nat)
    requires Holds(held, Live(bs), m) && p in held
    ensures bs != []
  {
    assert HoldsAt(p, held[p], Live(bs), m);
  }

  lemma ListInOrder(bs: seq<Block>, lo: nat, hi: nat)
    requires Tiles(bs, lo, hi)
    ensures InOrder(Live(bs))
  {
    LiveOrdered(bs, lo, hi);
  }

  /** After an allocation that succeeded. */
  lemma Allocated(held: Held, bs: seq<Block>, need: nat, n: nat, m: seq<byte>, m': seq<byte>, lo: nat, hi: nat)
    requires Inv(bs, lo, hi) && FirstFit(bs, need) < |bs| && 0 < n <= need
    requires Holds(held, Live(bs), m) && PayloadsKept(Live(bs), m, m')
    requires bs[FirstFit(bs, need)].Payload() + n <= |m'|
    ensures var ptr := bs[FirstFit(bs, need)].Payload();
            Fresh(held, ptr, n) && Holds(held[ptr := m'[ptr..ptr + n]], Live(Allocate(bs, need)), m')
  {
    hide Live, Split, Backs;
    var ptr, r := bs[FirstFit(bs, need)].Payload(), Allocate(bs, need);
    var bytes := m'[ptr..ptr + n];
    AllocateKeeps(bs, need, lo, hi);
    AllocateLive(bs, need);
    FreshPointer(bs, bs, need, lo, hi);
    NotHeld(held, bs, m, ptr, lo, hi);
    ListInOrder(r, lo, hi);
    AllocateBacks(bs, need, ptr, n);
    forall p | p in held
      ensures HoldsAt(p, held[p], Live(r), m') && (p + |held[p]| <= ptr || ptr + n <= p)
    {
      assert HoldsAt(p, held[p], Live(bs), m);
      AllocateBacks(bs, need, p, |held[p]|);
      BacksApart(Live(r), p, |held[p]|, ptr, n);
      StillThere(p, held[p], Live(bs), ptr + n + p + |held[p]|, 0, m, m');
    }
    forall p: nat | Backs(Live(r), p, 0) ensures p in held[ptr := bytes] {
      AllocateBacks(bs, need, p, 0);
    }
  }

  /** After a release; the bytes of the remaining live blocks are kept. */
  lemma Released(held: Held, bs: seq<Block>, ptr: nat, m: seq<byte>, m': seq<byte>, lo: nat, hi: nat)
    requires Tiles(bs, lo, hi) && Find(bs, ptr) < |bs| && !bs[Find(bs, ptr)].free
    requires Holds(held, Live(bs), m) && PayloadsKept(Live(ReleaseAt(bs, ptr)), m, m')
    ensures Holds(held - {ptr}, Live(ReleaseAt(bs, ptr)), m')
  {
    hide Live, Release, Backs;
    var r, i := ReleaseAt(bs, ptr), Find(bs, ptr);
    forall p | p in held && p != ptr ensures HoldsAt(p, held[p], Live(r), m') {
      assert HoldsAt(p, held[p], Live(bs), m);
      ReleaseBacks(bs, i, p, |held[p]|, lo, hi);
      StillThere(p, held[p], Live(r), p + |held[p]|, 0, m, m');
    }
    forall p: nat | Backs(Live(r), p, 0) ensures p in held - {ptr} {
      ReleaseBacks(bs, i, p, 0, lo, hi);
    }
  }

  /** After a realloc that kept its block: the program now knows the first n bytes there. */
  lemma Resized(held: Held, bs: seq<Block>, ptr: nat, n: nat, m: seq<byte>, lo: nat, hi: nat)
    requires Tiles(bs, lo, hi) && Find(bs, ptr) < |bs| && !bs[Find(bs, ptr)].free && n <= bs[Find(bs, ptr)].size
    requires Holds(held, Live(bs), m) && ptr in held && ptr + n <= |m|
    ensures Fresh(held - {ptr}, ptr, n) && Holds(held[ptr := m[ptr..ptr + n]], Live(bs), m)
    ensures Common(held[ptr], m[ptr..ptr + n])
  {
    hide Live, Backs;
    FindLive(bs, ptr, lo, hi);
    ListInOrder(bs, lo, hi);
    NullNotHeld(held, bs, m);
    assert HoldsAt(ptr, held[ptr], Live(bs), m);
    forall p | p in held && p != ptr
      ensures HoldsAt(p, held[p], Live(bs), m) && (p + |held[p]| <= ptr || ptr + n <= p)
    {
      BacksApart(Live(bs), p, |held[p]|, ptr, n);
    }
    forall i | 0 <= i < |held[ptr]| && i < n ensures held[ptr][i] == m[ptr..ptr + n][i] {
      assert m[ptr..ptr + |held[ptr]|][i] == m[ptr + i];
    }
  }

  /** After a realloc that moved its block. */
  lemma MovedTo(held: Held, bs: seq<Block>, need: nat, ptr: nat, n: nat, m: seq<byte>, m': seq<byte>, lo: nat, hi: nat)
    requires Inv(bs, lo, hi) && FirstFit(bs, need) < |bs| && 0 < n <= need
    requires Find(bs, ptr) < |bs| && !bs[Find(bs, ptr)].free && ptr in held && bs[Find(bs, ptr)].size < n
    requires Holds(held, Live(bs), m) && KeptBut(Live(bs), ptr, bs[Find(bs, ptr)].size, m, m')
    requires var newp, k := bs[FirstFit(bs, need)].Payload(), bs[Find(bs, ptr)].size;
             newp + n <= |m'| && ptr + k <= |m| && m'[newp..newp + k] == m[ptr..ptr + k]
    ensures var newp := bs[FirstFit(bs, need)].Payload();
            && Fresh(held - {ptr}, newp, n) && Common(held[ptr], m'[newp..newp + n])
            && Holds((held - {ptr})[newp := m'[newp..newp + n]], Live(ReleaseAt(Allocate(bs, need), ptr)), m')
  {
    hide Live, Split, Release, Backs, Holds, Common, Allocate;
    var newp := bs[FirstFit(bs, need)].Payload();
    MovedHeld(held, bs, need, ptr, newp, m'[newp..newp + n], m, m', lo, hi);
    HeldBefore(held, bs, ptr, m, lo, hi);
    CommonMoved(held[ptr], ptr, newp, bs[Find(bs, ptr)].size, n, m, m');
  }

  lemma MovedHeld(held: Held, bs: seq<Block>, need: nat, ptr: nat, newp: nat, bytes: seq<byte>,
                  m: seq<byte>, m': seq<byte>, lo: nat, hi: nat)
    requires Inv(bs, lo, hi) && FirstFit(bs, need) < |bs| && 0 < |bytes| <= need
    requires Find(bs, ptr) < |bs| && !bs[Find(bs, ptr)].free
    requires Holds(held, Live(bs), m) && KeptBut(Live(bs), ptr, bs[Find(bs, ptr)].size, m, m')
    requires newp == bs[FirstFit(bs, need)].Payload() && newp + |bytes| <= |m'| && m'[newp..newp + |bytes|] == bytes
    ensures Fresh(held - {ptr}, newp, |bytes|)
    ensures Holds((held - {ptr})[newp := bytes], Live(ReleaseAt(Allocate(bs, need), ptr)), m')
  {
    hide Live, Split, Release, Backs, Holds, HoldsAt;
    var r := ReleaseAt(Allocate(bs, need), ptr);
    FreshPointer(bs, bs, need, lo, hi);
    NotHeld(held, bs, m, newp, lo, hi);
    forall p | p in held && p != ptr
      ensures HoldsAt(p, held[p], Live(r), m') && (p + |held[p]| <= newp || newp + |bytes| <= p)
    {
      OtherMoved(held, bs, need, ptr, |bytes|, m, m', p, lo, hi);
    }
    MovedPointer(bs, need, ptr, lo, hi);
    BacksFewer(Live(r), newp, need, |bytes|);
    HoldsBytes(newp, Live(r), m', |bytes|);
    forall p: nat | Backs(Live(r), p, 0) ensures p == newp || (p in held && p != ptr) {
      LiveAfterMove(held, bs, need, ptr, m, p, lo, hi);
    }
    HoldsMoved(held, ptr, newp, bytes, Live(r), m');
  }

  lemma HoldsMoved(held: Held, ptr: nat, newp: nat, bytes: seq<byte>, live: seq<Block>, m: seq<byte>)
    requires HoldsAt(newp, bytes, live, m)
    requires forall p :: p in held && p != ptr ==> HoldsAt(p, held[p], live, m)
    requires forall p: nat :: Backs(live, p, 0) ==> p == newp || (p in held && p != ptr)
    ensures Holds((held - {ptr})[newp := bytes], live, m)
  {
    hide HoldsAt, Backs;
  }

  lemma HeldBefore(held: Held, bs: seq<Block>, ptr: nat, m: seq<byte>, lo: nat, hi: nat)
    requires Inv(bs, lo, hi) && Holds(held, Live(bs), m) && ptr in held
    requires Find(bs, ptr) < |bs| && !bs[Find(bs, ptr)].free
    ensures |held[ptr]| <= bs[Find(bs, ptr)].size && ptr + |held[ptr]| <= |m| && m[ptr..ptr + |held[ptr]|] == held[ptr]
  {
    assert HoldsAt(ptr, held[ptr], Live(bs), m);
    FindLive(bs, ptr, lo, hi);
  }

  lemma HoldsBytes(p: nat, live: seq<Block>, m: seq<byte>, n: nat)
    requires Backs(live, p, n) && p + n <= |m|
    ensures HoldsAt(p, m[p..p + n], live, m)
  {
  }

  /** What the program holds elsewhere stays, and lies apart from the new block. */
  lemma OtherMoved(held: Held, bs: seq<Block>, need: nat, ptr: nat, n: nat, m: seq<byte>, m': seq<byte>,
                   p: nat, lo: nat, hi: nat)
    requires Inv(bs, lo, hi) && FirstFit(bs, need) < |bs| && n <= need
    requires Find(bs, ptr) < |bs| && !bs[Find(bs, ptr)].free && p in held && p != ptr
    requires Holds(held, Live(bs), m) && KeptBut(Live(bs), ptr, bs[Find(bs, ptr)].size, m, m')
    requires bs[FirstFit(bs, need)].Payload() !in held
    ensures HoldsAt(p, held[p], Live(ReleaseAt(Allocate(bs, need), ptr)), m')
    ensures var newp := bs[FirstFit(bs, need)].Payload(); p + |held[p]| <= newp || newp + n <= p
  {
    hide Live, Split, Release, Backs;
    var newp, mid, r := bs[FirstFit(bs, need)].Payload(), Allocate(bs, need), ReleaseAt(Allocate(bs, need), ptr);
    var k := bs[Find(bs, ptr)].size;
    assert HoldsAt(p, held[p], Live(bs), m);
    AllocateKeeps(bs, need, lo, hi);
    FindAfterAllocate(bs, need, ptr, lo, hi);
    MovedPointer(bs, need, ptr, lo, hi);
    ReleaseKeeps(mid, Find(mid, ptr), lo, hi);
    AllocateBacks(bs, need, p, |held[p]|);
    ReleaseBacks(mid, Find(mid, ptr), p, |held[p]|, lo, hi);
    ListInOrder(r, lo, hi);
    BacksFewer(Live(r), newp, need, n);
    BacksApart(Live(r), p, |held[p]|, newp, n);
    FindLive(bs, ptr, lo, hi);
    ListInOrder(bs, lo, hi);
    BacksApart(Live(bs), p, |held[p]|, ptr, k);
    StillThere(p, held[p], Live(bs), ptr, k, m, m');
  }

  lemma LiveAfterMove(held: Held, bs: seq<Block>, need: nat, ptr: nat, m: seq<byte>, p: nat, lo: nat, hi: nat)
    requires Inv(bs, lo, hi) && FirstFit(bs, need) < |bs| && Find(bs, ptr) < |bs| && !bs[Find(bs, ptr)].free
    requires Holds(held, Live(bs), m) && Backs(Live(ReleaseAt(Allocate(bs, need), ptr)), p, 0)
    ensures p == bs[FirstFit(bs, need)].Payload() || (p in held && p != ptr)
  {
    hide Live, Split, Release, Backs;
    var mid := Allocate(bs, need);
    AllocateKeeps(bs, need, lo, hi);
    FindAfterAllocate(bs, need, ptr, lo, hi);
    ReleaseBacks(mid, Find(mid, ptr), p, 0, lo, hi);
    AllocateBacks(bs, need, p, 0);
  }

  lemma CommonMoved(a: seq<byte>, ptr: nat, newp: nat, k: nat, n: nat, m: seq<byte>, m': seq<byte>)
    requires |a| <= k && ptr + k <= |m| && m[ptr..ptr + |a|] == a
    requires k <= n && newp + n <= |m'| && m'[newp..newp + k] == m[ptr..ptr + k]
    ensures Common(a, m'[newp..newp + n])
  {
    forall i | 0 <= i < |a| ensures a[i] == m'[newp..newp + n][i] {
      assert m[ptr..ptr + |a|][i] == m[ptr..ptr + k][i] == m'[newp..newp + k][i];
    }
  }

  /** After a release by realloc: the bytes of all other live blocks are kept. */
  lemma ReleasedOthers(held: Held, bs: seq<Block>, ptr: nat, m: seq<byte>, m': seq<byte>, lo: nat, hi: nat)
    requires Tiles(bs, lo, hi) && Find(bs, ptr) < |bs| && !bs[Find(bs, ptr)].free
    requires Holds(held, Live(bs), m) && KeptBut(Live(bs), ptr, bs[Find(bs, ptr)].size, m, m')
    ensures Holds(held - {ptr}, Live(ReleaseAt(bs, ptr)), m')
  {
    hide Live, Release, Backs;
    var r, i := ReleaseAt(bs, ptr), Find(bs, ptr);
    ListInOrder(bs, lo, hi);
    FindLive(bs, ptr, lo, hi);
    forall p | p in held && p != ptr ensures HoldsAt(p, held[p], Live(r), m') {
      assert HoldsAt(p, held[p], Live(bs), m);
      ReleaseBacks(bs, i, p, |held[p]|, lo, hi);
      BacksApart(Live(bs), p, |held[p]|, ptr, bs[i].size);
      StillThere(p, held[p], Live(bs), ptr, bs[i].size, m, m');
    }
    forall p: nat | Backs(Live(r), p, 0) ensures p in held - {ptr} {
      ReleaseBacks(bs, i, p, 0, lo, hi);
    }
  }

  lemma BacksFewer(live: seq<Block>, p: nat, n: nat, m: nat)
    requires Backs(live, p, n) && m <= n
    ensures Backs(live, p, m)
  {
  }

  /** After a write into a live block. */
  lemma Written(held: Held, bs: seq<Block>, ptr: nat, at: nat, value: byte, m: seq<byte>, lo: nat, hi: nat)
    requires Tiles(bs, lo, hi) && Holds(held, Live(bs), m) && ptr in held && at < |held[ptr]|
    ensures ptr + at < |m| && Owned(Live(bs), ptr + at)
    ensures Holds(held[ptr := Put(held[ptr], at, value)], Live(bs), m[ptr + at := value])
  {
    hide Live, Backs;
    ListInOrder(bs, lo, hi);
    var x, m' := ptr + at, m[ptr + at := value];
    assert HoldsAt(ptr, held[ptr], Live(bs), m);
    BacksOwns(Live(bs), ptr, |held[ptr]|);
    assert m'[ptr..ptr + |held[ptr]|] == m[ptr..ptr + |held[ptr]|][at := value];
    forall p | p in held && p != ptr ensures HoldsAt(p, held[p], Live(bs), m') {
      assert HoldsAt(p, held[p], Live(bs), m);
      BacksApart(Live(bs), p, |held[p]|, ptr, |held[ptr]|);
      assert m'[p..p + |held[p]|] == m[p..p + |held[p]|];
    }
  }

  lemma MallocPromised(held: Held, size: word, p: nat, bytes: seq<byte>)
    requires |bytes| == size > 0 && Fresh(held, p, size)
    ensures Promised(held, Malloc(size), p, held[p := bytes])
  {
    assert Gains(held, p, bytes, held[p := bytes]);
  }

  lemma CallocPromised(held: Held, nmemb: word, size: word, p: nat, bytes: seq<byte>)
    requires 0 < nmemb * size < WORD && Fresh(held, p, nmemb * size) && bytes == Nil(nmemb * size)
    ensures Promised(held, Calloc(nmemb, size), p, held[p := bytes])
  {
    assert Gains(held, p, bytes, held[p := bytes]);
  }

  lemma CallocFailed(held: Held, nmemb: word, size: word)
    ensures Promised(held, Calloc(nmemb, size), 0, held)
  {
  }

  lemma ReallocPromised(held: Held, ptr: nat, size: word, p: nat, bytes: seq<byte>)
    requires |bytes| == size > 0 && Fresh(held - {ptr}, p, size) && (ptr in held ==> Common(held[ptr], bytes))
    ensures Promised(held, Realloc(ptr, size), p, (held - {ptr})[p := bytes])
  {
    assert Gains(held - {ptr}, p, bytes, (held - {ptr})[p := bytes]);
  }

  /** A NULL from realloc: after a release, or when there is no room. */
  lemma ReallocNull(held: Held, ptr: nat, size: word) returns (held': Held)
    ensures Promised(held, Realloc(ptr, size), 0, held')
    ensures held' == if size == 0 then held - {ptr} else held
    ensures ptr !in held ==> held' == held
  {
    held' := if size == 0 then held - {ptr} else held;
    assert ptr !in held ==> held - {ptr} == held;
  }

  /** A pointer from realloc: the old block, a first one, or a new one for the old bytes. */
  lemma ReallocHolds(held: Held, bs: seq<Block>, ptr: nat, size: word, p: nat, bs': seq<Block>,
                     m: seq<byte>, m': seq<byte>, lo: nat, hi: nat) returns (held': Held)
    requires Inv(bs, lo, hi) && Holds(held, Live(bs), m) && 0 < size <= WORD - 8 && p + size <= |m'|
    requires ptr == 0 || (ptr in held && Find(bs, ptr) < |bs| && !bs[Find(bs, ptr)].free)
    requires if ptr != 0 && bs[Find(bs, ptr)].size >= size then p == ptr && bs' == bs && m' == m
             else FirstFit(bs, RoundUp(size)) < |bs| && p == bs[FirstFit(bs, RoundUp(size))].Payload()
    requires ptr == 0 ==> bs' == Allocate(bs, RoundUp(size)) && PayloadsKept(Live(bs), m, m')
    requires ptr != 0 && bs[Find(bs, ptr)].size < size ==>
               var k := bs[Find(bs, ptr)].size;
               bs' == ReleaseAt(Allocate(bs, RoundUp(size)), ptr) && KeptBut(Live(bs), ptr, k, m, m')
               && ptr + k <= |m| && m'[p..p + k] == m[ptr..ptr + k]
    ensures Holds(held', Live(bs'), m') && Promised(held, Realloc(ptr, size), p, held')
  {
    hide Live, Allocate, FirstFit, Holds, HoldsAt, PayloadsKept, RoundUp, Fresh, Promised, Release,
         Common, KeptBut, Find;
    var bytes := m'[p..p + size];
    RoundUpCovers(size);
    NullNotHeld(held, bs, m);
    if ptr == 0 {
      Allocated(held, bs, RoundUp(size), size, m, m', lo, hi);
      assert held - {0} == held;
    } else if bs[Find(bs, ptr)].size >= size {
      Resized(held, bs, ptr, size, m, lo, hi);
      assert (held - {ptr})[ptr := bytes] == held[ptr := bytes];
    } else {
      MovedTo(held, bs, RoundUp(size), ptr, size, m, m', lo, hi);
    }
    ReallocPromised(held, ptr, size, p, bytes);
    var others: Held := held - {ptr};
    held' := others[p := bytes];
  }

  /** When nothing is held the heap is back in its initial state. */
  lemma NothingHeld(bs: seq<Block>, m: seq<byte>, lo: nat, hi: nat)
    requires Inv(bs, lo, hi) && Holds(map[], Live(bs), m)
    ensures hi - lo >= HEADER && bs == [Block(lo, hi - lo - HEADER, true)]
  {
    if |Live(bs)| > 0 {
      LiveIsHeld(map[], Live(bs), m, 0);
    }
    AllFreeIsInitial(bs, lo, hi);
  }

  lemma LiveIsHeld(held: Held, live: seq<Block>, m: seq<byte>, k: nat)
    requires Holds(held, live, m) && k < |live|
    ensures live[k].Payload() in held
  {
    assert Backs(live, live[k].Payload(), 0);
  }

  lemma MallocFailed(held: Held, size: word)
    ensures Promised(held, Malloc(size), 0, held)
  {
  }

  class Client {
    const heap: Heap.Allocator
    ghost var held: Held

    ghost predicate Valid()
      reads this, heap, heap.mem
    {
      heap.Valid() && Holds(held, Live(heap.blocks), heap.mem[..])
    }

    constructor (heap: Heap.Allocator)
      requires heap.Valid() && Live(heap.blocks) == []
      ensures Valid() && held == map[] && this.heap == heap
    {
      this.heap := heap;
      held := map[];
    }

    /** The blocks there are, or will be at the first allocation. */
    lemma CurrentTiles() returns (lo: nat, hi: nat)
      requires heap.Valid()
      ensures Live(heap.Current()) == Live(heap.blocks)
      ensures heap.Current() == [] || Inv(heap.Current(), lo, hi)
      ensures heap.freeList != 0 ==> lo == heap.heapLo && hi == heap.heapHi && heap.Current() == heap.blocks
    {
      if heap.freeList != 0 {
        lo, hi := heap.heapLo, heap.heapHi;
      } else {
        lo, hi := heap.Lo(), heap.Hi();
        if heap.Current() != [] {
          assert heap.Current()[1..] == [];
          assert Tiles(heap.Current(), lo, hi);
        }
      }
    }

    method PerformMalloc(size: word) returns (result: nat)
      requires Valid() && size <= WORD - 8
      modifies this`held, heap, heap.mem
      ensures Valid() && Promised(old(held), Malloc(size), result, held)
      ensures (result, heap.Current()) == Answer(old(heap.Current()), Malloc(size))
    {
      hide Live, Allocate, FirstFit, Holds, HoldsAt, PayloadsKept, OwnsRange, OwnsNone, RoundUp, Fresh, Gains, Promised;
      hide Grant, Heap.Allocator.Untouched, Heap.Allocator.Valid, Heap.Allocator.Current,
           Heap.Allocator.IsLive, Heap.Allocator.BlockSize;
      ghost var m, bs := heap.mem[..], heap.Current();
      ghost var lo, hi := CurrentTiles();
      heap.Settled();
      result := heap.Malloc(size);
      heap.Settled();
      RoundUpCovers(size);
      if size > 0 {
        Granted(bs, size, result, heap.blocks);
      } else {
        NothingGranted(bs);
      }
      if result != 0 {
        ghost var bytes := heap.mem[..][result..result + size];
        Allocated(held, bs, RoundUp(size), size, m, heap.mem[..], lo, hi);
        MallocPromised(held, size, result, bytes);
        held := held[result := bytes];
      } else {
        HoldsStill(held, Live(bs), m, heap.mem[..]);
        MallocFailed(held, size);
        if size > 0 {
          AllocateNone(bs, RoundUp(size));
        }
      }
    }

    method PerformFree(ptr: nat)
      requires Valid() && (ptr == 0 || ptr in held)
      modifies this`held, heap, heap.mem
      ensures Valid() && Promised(old(held), Free(ptr), 0, held)
      ensures (0, heap.Current()) == Answer(old(heap.Current()), Free(ptr))
    {
      hide Live, HoldsAt, PayloadsKept, Find, Holds, ReleaseAt;
      ghost var m, bs := heap.mem[..], heap.blocks;
      NullNotHeld(held, bs, m);
      if ptr != 0 {
        HeldIsLive(ptr);
      }
      heap.Free(ptr);
      if ptr != 0 {
        Released(held, bs, ptr, m, heap.mem[..], heap.heapLo, heap.heapHi);
      }
      assert ptr == 0 ==> held - {ptr} == held;
      held := held - {ptr};
    }

    method PerformCalloc(nmemb: word, size: word) returns (result: nat)
      requires Valid() && (nmemb * size >= WORD || nmemb * size <= WORD - 8)
      modifies this`held, heap, heap.mem
      ensures Valid() && Promised(old(held), Calloc(nmemb, size), result, held)
      ensures (result, heap.Current()) == Answer(old(heap.Current()), Calloc(nmemb, size))
    {
      hide Live, Allocate, FirstFit, Holds, HoldsAt, PayloadsKept, OwnsRange, OwnsNone, RoundUp, Fresh, Gains, Promised;
      hide Grant, Heap.Allocator.Untouched, Heap.Allocator.Valid, Heap.Allocator.Current,
           Heap.Allocator.IsLive, Heap.Allocator.BlockSize;
      ghost var m, bs, n := heap.mem[..], heap.Current(), nmemb * size;
      ghost var lo, hi := CurrentTiles();
      Heap.PositiveProduct(nmemb, size);
      heap.Settled();
      result := heap.Calloc(nmemb, size);
      heap.Settled();
      if 0 < n < WORD {
        Granted(bs, n, result, heap.blocks);
      } else {
        NothingGranted(bs);
      }
      if result != 0 {
        RoundUpCovers(n);
        ghost var bytes := heap.mem[..][result..result + n];
        assert bytes == Nil(n);
        Allocated(held, bs, RoundUp(n), n, m, heap.mem[..], lo, hi);
        CallocPromised(held, nmemb, size, result, bytes);
        held := held[result := bytes];
      } else {
        HoldsStill(held, Live(bs), m, heap.mem[..]);
        CallocFailed(held, nmemb, size);
        if 0 < n < WORD {
          AllocateNone(bs, RoundUp(n));
        }
      }
    }

    method PerformRealloc(ptr: nat, size: word) returns (result: nat)
      requires Valid() && (ptr == 0 || ptr in held) && size <= WORD - 8
      modifies this`held, heap, heap.mem
      ensures Valid() && Promised(old(held), Realloc(ptr, size), result, held)
      ensures (result, heap.Current()) == Answer(old(heap.Current()), Realloc(ptr, size))
    {
      hide Holds, Promised, Answer, Heap.Allocator.Valid, Heap.Allocator.Current;
      if size == 0 {
        PerformResizeToNothing(ptr);
        result := 0;
      } else {
        result := PerformResize(ptr, size);
      }
    }

    method PerformResizeToNothing(ptr: nat)
      requires Valid() && (ptr == 0 || ptr in held)
      modifies this`held, heap, heap.mem
      ensures Valid() && Promised(old(held), Realloc(ptr, 0), 0, held)
      ensures (0, heap.Current()) == Answer(old(heap.Current()), Realloc(ptr, 0))
    {
      hide Live, Holds, HoldsAt, PayloadsKept, Promised, Find, ReleaseAt, Grant;
      hide Owned, Heap.Allocator.Valid, Heap.Allocator.Current, Heap.Allocator.Untouched;
      ghost var m, bs := heap.mem[..], heap.Current();
      ghost var lo, hi := CurrentTiles();
      NullNotHeld(held, heap.blocks, m);
      if ptr != 0 {
        HeldIsLive(ptr);
        StillBlocks(bs, ptr);
      }
      heap.Settled();
      var result := heap.Realloc(ptr, 0);
      heap.Settled();
      NothingGranted(bs);
      if ptr != 0 {
        ReleasedOthers(held, bs, ptr, m, heap.mem[..], lo, hi);
      } else {
        HoldsStill(held, Live(bs), m, heap.mem[..]);
      }
      held := ReallocNull(held, ptr, 0);
    }

    method PerformResize(ptr: nat, size: word) returns (result: nat)
      requires Valid() && (ptr == 0 || ptr in held) && 0 < size <= WORD - 8
      modifies this`held, heap, heap.mem
      ensures Valid() && Promised(old(held), Realloc(ptr, size), result, held)
      ensures (result, heap.Current()) == Answer(old(heap.Current()), Realloc(ptr, size))
    {
      hide Live, Allocate, FirstFit, Holds, HoldsAt, PayloadsKept, OwnsRange, OwnsNone, RoundUp, Promised;
      hide Find, ReleaseAt, Owned, Answer, Heap.Allocator.Valid, Heap.Allocator.Current, Heap.Allocator.Untouched;
      ghost var m, bs := heap.mem[..], heap.Current();
      ghost var lo, hi := CurrentTiles();
      NullNotHeld(held, heap.blocks, m);
      if ptr != 0 {
        HeldIsLive(ptr);
      }
      heap.Settled();
      result := heap.Realloc(ptr, size);
      heap.Settled();
      ghost var bs', m' := heap.blocks, heap.mem[..];
      ReallocAnswered(bs, ptr, size, result, bs');
      if result == 0 {
        HoldsStill(held, Live(bs), m, m');
        AllocateNone(bs, RoundUp(size));
        held := ReallocNull(held, ptr, size);
      } else {
        held := ReallocHolds(held, bs, ptr, size, result, bs', m, m', lo, hi);
      }
    }

    method PerformWrite(ptr: nat, at: nat, value: byte)
      requires Valid() && ptr in held && at < |held[ptr]|
      modifies this`held, heap.mem
      ensures Valid() && Promised(old(held), Write(ptr, at, value), 0, held)
      ensures (0, heap.Current()) == Answer(old(heap.Current()), Write(ptr, at, value))
    {
      hide Live, Holds, HoldsAt, Owned;
      HeldIsLive(ptr);
      Written(held, heap.blocks, ptr, at, value, heap.mem[..], heap.heapLo, heap.heapHi);
      ghost var m := heap.mem[..];
      heap.StoreOwned(ptr + at, value);
      assert heap.mem[..] == m[ptr + at := value];
      held := held[ptr := Put(held[ptr], at, value)];
    }

    /** One call of the program: its promise, and the answer that first fit gives. */
    method Perform(c: Call) returns (result: nat)
      requires Valid() && Legal(held, c)
      modifies this`held, heap, heap.mem
      ensures Valid() && Promised(old(held), c, result, held)
      ensures (result, heap.Current()) == Answer(old(heap.Current()), c)
    {
      hide Holds, Promised, Answer, Heap.Allocator.Valid, Heap.Allocator.Current;
      match c {
        case Malloc(size) =>
          result := PerformMalloc(size);
        case Free(ptr) =>
          PerformFree(ptr);
          result := 0;
        case Calloc(nmemb, size) =>
          result := PerformCalloc(nmemb, size);
        case Realloc(ptr, size) =>
          result := PerformRealloc(ptr, size);
        case Write(ptr, at, value) =>
          PerformWrite(ptr, at, value);
          result := 0;
      }
    }

    /** Any number of calls of any program that passes only NULL and live pointers.  Its
        results and the blocks at the end are the answers of first fit, one call after the
        other.  What it holds is what the promises of its calls add up to, it is what memory
        holds, and if the program has freed everything the heap is in its initial state. */
    method RunProgram(program: Program, n: nat) returns (results: seq<nat>)
      requires Valid() && held == map[] && WellBehaved(program)
      modifies this`held, heap, heap.mem
      ensures Valid() && |results| == n && Run(program, results, held)
      ensures Outcome(results, heap.Current()) == Outcomes(program, n, old(heap.Current()))
      ensures forall p :: p in held ==> heap.IsLive(p) && p + |held[p]| <= heap.mem.Length
                                        && heap.mem[p..p + |held[p]|] == held[p]
      ensures held == map[] && heap.freeList != 0 ==>
                heap.heapLo + HEADER <= heap.heapHi
                && heap.blocks == [Block(heap.heapLo, heap.heapHi - heap.heapLo - HEADER, true)]
    {
      hide Holds, Run, Promised, Legal, Answer, Heap.Allocator.Current;
      results := [];
      NoResults(program);
      for i := 0 to n
        invariant Valid() && |results| == i && Run(program, results, held)
        invariant Outcome(results, heap.Current()) == Outcomes(program, i, old(heap.Current()))
      {
        ghost var before := held;
        assert Legal(held, program(results));
        var result := Perform(program(results));
        RunNext(program, results, before, result, held);
        results := results + [result];
      }
      forall p | p in held
        ensures heap.IsLive(p) && p + |held[p]| <= heap.mem.Length && heap.mem[p..p + |held[p]|] == held[p]
      {
        HeldIsLive(p);
      }
      if held == map[] && heap.freeList != 0 {
        NothingHeld(heap.blocks, heap.mem[..], heap.heapLo, heap.heapHi);
      }
    }

    /** What is held can be freed and reallocated. */
    lemma HeldIsLive(ptr: nat)
      requires Valid() && ptr in held
      ensures heap.freeList != 0 && heap.IsLive(ptr) && |held[ptr]| <= heap.BlockSize(ptr)
      ensures ptr + |held[ptr]| <= heap.mem.Length && heap.mem[ptr..ptr + |held[ptr]|] == held[ptr]
    {
      assert HoldsAt(ptr, held[ptr], Live(heap.blocks), heap.mem[..]);
      HeldInList(held, heap.blocks, heap.mem[..], ptr);
      HeldFound(held, heap.blocks, heap.mem[..], ptr, heap.heapLo, heap.heapHi);
    }
  }

  lemma NoResults(program: Program)
    ensures Run(program, [], map[])
  {
  }

  lemma RunNext(program: Program, results: seq<nat>, before: Held, result: nat, held: Held)
    requires Run(program, results, before) && Promised(before, program(results), result, held)
    ensures Run(program, results + [result], held)
  {
    assert (results + [result])[..|results|] == results;
  }
}
