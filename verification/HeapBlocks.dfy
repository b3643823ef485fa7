/**
  The block list of the kernel heap (heap.c), as a value.

  A heap is the sequence of its blocks in address order.  kmalloc and kfree are
  functions on that sequence; HeapMemory proves that the code on raw memory
  computes these functions.
*/
module HeapBlocks {
  import opened Basics

  const HEAP_START: nat := 0x0100_0000
  const HEAP_SIZE: nat := 4 * 1024 * 1024
  const HEAP_END: nat := HEAP_START + HEAP_SIZE
  const HEADER: nat := 12 // sizeof(header_t) on i686
  const SPLIT_MIN: nat := 16
  const MAX_REQUEST: nat := 0xFFFF_FFFC

  datatype Block = Block(addr: nat, size: nat, free: bool) {
    function Payload(): nat { addr + HEADER }
    function End(): nat { addr + HEADER + size }
  }

  const INITIAL: seq<Block> := [Block(HEAP_START, HEAP_SIZE - HEADER, true)]

  // ---------------------------------------------------------------- invariant

  /** The blocks follow each other without gap or overlap from lo to hi. */
  ghost predicate Tiles(bs: seq<Block>, lo: nat, hi: nat) {
    && |bs| > 0
    && bs[0].addr == lo
    && bs[|bs| - 1].End() == hi
    && (forall i, j | 0 <= i < j == i + 1 < |bs| :: bs[i].End() == bs[j].addr)
  }

  ghost predicate Aligned(bs: seq<Block>) {
    forall i | 0 <= i < |bs| :: bs[i].size % 4 == 0
  }

  ghost predicate Coalesced(bs: seq<Block>) {
    forall i, j | 0 <= i < j == i + 1 < |bs| :: !(bs[i].free && bs[j].free)
  }

  /** A chain that tiles the heap region, without two adjacent free blocks. */
  ghost predicate Wf(bs: seq<Block>) {
    Tiles(bs, HEAP_START, HEAP_END) && Coalesced(bs)
  }

  /** The blocks handed out and not yet freed, with their addresses and sizes. */
  ghost function Live(bs: seq<Block>): set<Block> {
    set b | b in bs && !b.free
  }

  // --------------------------------------------------------------- operations

  /** heap.c:31-32, with the 32-bit wrap-around of the addition. */
  function Round4(n: nat): nat
  {
    if n % 4 != 0 then (n + (4 - n % 4)) % UINT32 else n
  }

  /** Index of the first free block holding r bytes, or |bs|. */
  function FirstFit(bs: seq<Block>, r: nat): (i: nat)
    ensures i <= |bs|
    ensures i < |bs| ==> bs[i].free && bs[i].size >= r
    ensures forall j | 0 <= j < i :: !(bs[j].free && bs[j].size >= r)
  {
    if bs == [] then 0
    else if bs[0].free && bs[0].size >= r then 0
    else 1 + FirstFit(bs[1..], r)
  }

  /** heap.c:40-49: take block i, splitting off the rest when it is worth it. */
  function Carve(bs: seq<Block>, i: nat, r: nat): seq<Block>
    requires i < |bs| && bs[i].size >= r
  {
    var b := bs[i];
    if b.size >= r + HEADER + SPLIT_MIN then
      bs[..i] + [Block(b.addr, r, false), Block(b.addr + HEADER + r, b.size - r - HEADER, true)] + bs[i + 1..]
    else
      bs[i := b.(free := false)]
  }

  /** kmalloc: the new block list and the returned pointer (0 is null). */
  function Malloc(bs: seq<Block>, n: nat): (seq<Block>, nat) {
    if n == 0 then (bs, 0)
    else
      var i := FirstFit(bs, Round4(n));
      if i == |bs| then (bs, 0) else (Carve(bs, i, Round4(n)), bs[i].Payload())
  }

  function Merge(a: Block, b: Block): Block {
    Block(a.addr, a.size + HEADER + b.size, a.free)
  }

  /** heap.c:71-79: one pass that merges every free block with its free successors. */
  function Coalesce(bs: seq<Block>): seq<Block>
    decreases |bs|
  {
    if |bs| < 2 then bs
    else if bs[0].free && bs[1].free then Coalesce([Merge(bs[0], bs[1])] + bs[2..])
    else [bs[0]] + Coalesce(bs[1..])
  }

  /** p was returned by kmalloc and not freed since. */
  ghost predicate IsLive(bs: seq<Block>, p: nat) {
    exists b :: b in bs && !b.free && b.Payload() == p
  }

  ghost function IndexOf(bs: seq<Block>, p: nat): (i: nat)
    requires IsLive(bs, p)
    ensures i < |bs| && !bs[i].free && bs[i].Payload() == p
  {
    var i :| 0 <= i < |bs| && !bs[i].free && bs[i].Payload() == p;
    i
  }

  /** kfree: only null or a live pointer may be passed. */
  ghost function Free(bs: seq<Block>, p: nat): seq<Block>
    requires p == 0 || IsLive(bs, p)
  {
    if p == 0 then bs
    else
      var i := IndexOf(bs, p);
      Coalesce(bs[i := bs[i].(free := true)])
  }

  // ------------------------------------------------------- geometry of blocks

  lemma {:induction false} Ordered(bs: seq<Block>, lo: nat, hi: nat, i: nat, j: nat)
    requires Tiles(bs, lo, hi) && i < j < |bs|
    ensures bs[i].End() <= bs[j].addr
    decreases j - i
  {
    if i + 1 < j {
      Ordered(bs, lo, hi, i + 1, j);
    }
  }

  lemma {:induction false} InRegion(bs: seq<Block>, lo: nat, hi: nat, i: nat)
    requires Tiles(bs, lo, hi) && i < |bs|
    ensures lo <= bs[i].addr && bs[i].End() <= hi
  {
    if i > 0 {
      Ordered(bs, lo, hi, 0, i);
    }
    if i < |bs| - 1 {
      Ordered(bs, lo, hi, i, |bs| - 1);
    }
  }

  lemma {:induction false} AddressAligned(bs: seq<Block>, lo: nat, hi: nat, i: nat)
    requires Tiles(bs, lo, hi) && Aligned(bs) && i < |bs| && lo % 4 == 0
    ensures bs[i].addr % 4 == 0
  {
    if i > 0 {
      AddressAligned(bs, lo, hi, i - 1);
    }
  }

  /** Every address of the region lies in some block. */
  lemma {:induction false} Locate(bs: seq<Block>, lo: nat, hi: nat, a: nat) returns (i: nat)
    requires Tiles(bs, lo, hi) && lo <= a < hi
    ensures i < |bs| && bs[i].addr <= a < bs[i].End()
  {
    i := 0;
    while a >= bs[i].End()
      invariant i < |bs| && bs[i].addr <= a
      decreases |bs| - i
    {
      i := i + 1;
    }
  }

  lemma SameAddrSameBlock(bs: seq<Block>, lo: nat, hi: nat, i: nat, j: nat)
    requires Tiles(bs, lo, hi) && i < |bs| && j < |bs| && bs[i].addr == bs[j].addr
    ensures i == j
  {
    if i < j {
      Ordered(bs, lo, hi, i, j);
    } else if j < i {
      Ordered(bs, lo, hi, j, i);
    }
  }

  /** Live payloads are pairwise disjoint and inside the region. */
  lemma LivePayloadsDisjoint(bs: seq<Block>, a: Block, b: Block)
    requires Wf(bs) && a in Live(bs) && b in Live(bs) && a != b
    ensures a.End() <= b.addr || b.End() <= a.addr
    ensures HEAP_START < a.Payload() <= a.End() <= HEAP_END
  {
    var i :| 0 <= i < |bs| && bs[i] == a;
    var j :| 0 <= j < |bs| && bs[j] == b;
    InRegion(bs, HEAP_START, HEAP_END, i);
    if i < j {
      Ordered(bs, HEAP_START, HEAP_END, i, j);
    } else {
      Ordered(bs, HEAP_START, HEAP_END, j, i);
    }
  }

  // --------------------------------------------------------------- coalescing

  lemma {:induction false} CoalesceTiles(bs: seq<Block>, lo: nat, hi: nat)
    requires Tiles(bs, lo, hi)
    ensures Tiles(Coalesce(bs), lo, hi)
    ensures Coalesced(Coalesce(bs))
    ensures Coalesce(bs)[0].free == bs[0].free
    decreases |bs|
  {
    if |bs| >= 2 {
      if bs[0].free && bs[1].free {
        CoalesceTiles([Merge(bs[0], bs[1])] + bs[2..], lo, hi);
      } else {
        CoalesceTiles(bs[1..], bs[0].End(), hi);
      }
    }
  }

  lemma {:induction false} CoalesceAligned(bs: seq<Block>)
    requires Aligned(bs)
    ensures Aligned(Coalesce(bs))
    decreases |bs|
  {
    if |bs| >= 2 {
      if bs[0].free && bs[1].free {
        CoalesceAligned([Merge(bs[0], bs[1])] + bs[2..]);
      } else {
        CoalesceAligned(bs[1..]);
      }
    }
  }

  lemma {:induction false} CoalesceLive(bs: seq<Block>)
    ensures Live(Coalesce(bs)) == Live(bs)
    decreases |bs|
  {
    if |bs| >= 2 {
      if bs[0].free && bs[1].free {
        var merged := [Merge(bs[0], bs[1])] + bs[2..];
        CoalesceLive(merged);
        assert bs == [bs[0], bs[1]] + bs[2..];
        assert Live(merged) == Live(bs);
      } else {
        CoalesceLive(bs[1..]);
        assert bs == [bs[0]] + bs[1..];
        forall b ensures b in Live(Coalesce(bs)) <==> b in Live(bs) {
          assert b in Coalesce(bs) <==> b == bs[0] || b in Coalesce(bs[1..]);
          assert b in Live(Coalesce(bs[1..])) <==> b in Live(bs[1..]);
        }
      }
    }
  }

  lemma {:induction false} CoalesceFixpoint(bs: seq<Block>)
    requires Coalesced(bs)
    ensures Coalesce(bs) == bs
  {
    if |bs| >= 2 {
      assert forall i | 0 <= i < |bs[1..]| - 1 :: bs[1..][i] == bs[i + 1];
      CoalesceFixpoint(bs[1..]);
    }
  }

  /** Splitting a free block in two is undone by the coalescing pass. */
  lemma {:induction false} CoalesceUnsplits(pre: seq<Block>, a: Block, b: Block, post: seq<Block>)
    requires a.free && b.free
    requires Coalesced(pre + [Merge(a, b)] + post)
    ensures Coalesce(pre + [a, b] + post) == pre + [Merge(a, b)] + post
    decreases |pre|
  {
    var whole := pre + [Merge(a, b)] + post;
    var split := pre + [a, b] + post;
    if pre == [] {
      assert split[2..] == post;
      assert [Merge(a, b)] + split[2..] == whole;
      CoalesceFixpoint(whole);
    } else {
      assert split[1..] == pre[1..] + [a, b] + post;
      assert whole[1..] == pre[1..] + [Merge(a, b)] + post;
      assert forall i | 0 <= i < |whole[1..]| - 1 :: whole[1..][i] == whole[i + 1];
      CoalesceUnsplits(pre[1..], a, b, post);
      assert !(split[0].free && split[1].free) by {
        assert !(whole[0].free && whole[1].free);
      }
    }
  }

  // ------------------------------------------------------------ the operations

  lemma CarveWf(bs: seq<Block>, i: nat, r: nat)
    requires Wf(bs) && i < |bs| && bs[i].free && bs[i].size >= r
    ensures Wf(Carve(bs, i, r))
  {
  }

  lemma CarveLive(bs: seq<Block>, i: nat, r: nat)
    requires Wf(bs) && i < |bs| && bs[i].free && bs[i].size >= r
    ensures var taken := Carve(bs, i, r)[i];
            && taken.addr == bs[i].addr && !taken.free
            && r <= taken.size < r + HEADER + SPLIT_MIN
            && taken !in Live(bs)
            && Live(Carve(bs, i, r)) == Live(bs) + {taken}
  {
    var cs := Carve(bs, i, r);
    var taken := cs[i];
    if taken in Live(bs) {
      var j :| 0 <= j < |bs| && bs[j] == taken;
      SameAddrSameBlock(bs, HEAP_START, HEAP_END, i, j);
    }
    assert bs == bs[..i] + [bs[i]] + bs[i + 1..];
    if bs[i].size < r + HEADER + SPLIT_MIN {
      assert cs == bs[..i] + [taken] + bs[i + 1..];
    }
    forall b ensures b in Live(cs) <==> b in Live(bs) + {taken} {
      assert b in bs <==> b in bs[..i] || b == bs[i] || b in bs[i + 1..];
    }
  }

  lemma RoundMultiple(n: nat)
    requires n < UINT32
    ensures Round4(n) % 4 == 0
    ensures n <= MAX_REQUEST ==> n <= Round4(n) < n + 4
    ensures n > MAX_REQUEST ==> Round4(n) == 0
  {
  }

  /** A successful kmalloc adds exactly one live block and changes nothing on failure. */
  lemma MallocCorrect(bs: seq<Block>, n: nat) returns (taken: Block)
    requires Wf(bs) && n < UINT32
    ensures var (cs, p) := Malloc(bs, n);
            && Wf(cs)
            && (n == 0 ==> p == 0) && (p == 0 ==> cs == bs)
            && (p != 0 ==>
                  && taken.Payload() == p && !taken.free && taken !in Live(bs)
                  && Round4(n) <= taken.size < Round4(n) + HEADER + SPLIT_MIN
                  && Live(cs) == Live(bs) + {taken})
  {
    taken := Block(0, 0, true);
    var r := Round4(n);
    var i := FirstFit(bs, r);
    if n != 0 && i < |bs| {
      CarveWf(bs, i, r);
      CarveLive(bs, i, r);
      taken := Carve(bs, i, r)[i];
    }
  }

  lemma CarveAligned(bs: seq<Block>, i: nat, r: nat)
    requires Aligned(bs) && i < |bs| && bs[i].size >= r && r % 4 == 0
    ensures Aligned(Carve(bs, i, r))
  {
  }

  lemma SmallestMultipleBelow(r: nat, size: nat)
    requires r % 4 == 0 && size % 4 == 0 && size < r + HEADER + SPLIT_MIN
    ensures size <= r + 24
  {
  }

  /** Sizes stay multiples of 4, so a grant exceeds the rounded request by at most 24 bytes. */
  lemma MallocAligned(bs: seq<Block>, n: nat) returns (taken: Block)
    requires Wf(bs) && Aligned(bs) && n < UINT32
    ensures Aligned(Malloc(bs, n).0)
    ensures Malloc(bs, n).1 != 0 ==>
              && taken.Payload() == Malloc(bs, n).1 && taken in Live(Malloc(bs, n).0)
              && taken.Payload() % 4 == 0
              && Round4(n) <= taken.size <= Round4(n) + 24
  {
    RoundMultiple(n);
    var r := Round4(n);
    var i := FirstFit(bs, r);
    taken := Block(0, 0, true);
    if n != 0 && i < |bs| {
      CarveLive(bs, i, r);
      CarveAligned(bs, i, r);
      AddressAligned(bs, HEAP_START, HEAP_END, i);
      taken := Carve(bs, i, r)[i];
      SmallestMultipleBelow(r, taken.size);
    }
  }

  /** kfree removes exactly the freed block from the live ones. */
  lemma FreeCorrect(bs: seq<Block>, p: nat)
    requires Wf(bs) && (p == 0 || IsLive(bs, p))
    ensures Wf(Free(bs, p))
    ensures Live(Free(bs, p)) == (set b | b in Live(bs) && b.Payload() != p)
  {
    if p != 0 {
      var i := IndexOf(bs, p);
      var marked := bs[i := bs[i].(free := true)];
      assert Tiles(marked, HEAP_START, HEAP_END);
      CoalesceTiles(marked, HEAP_START, HEAP_END);
      CoalesceLive(marked);
      forall b ensures b in Live(marked) <==> b in Live(bs) && b.Payload() != p {
        if b in Live(bs) && b.Payload() != p {
          var j :| 0 <= j < |bs| && bs[j] == b;
          assert marked[j] == b;
        }
        if b in Live(marked) {
          var j :| 0 <= j < |marked| && marked[j] == b;
          assert bs[j] == b;
          if b.Payload() == p {
            SameAddrSameBlock(bs, HEAP_START, HEAP_END, i, j);
          }
        }
      }
    } else {
      forall b | b in Live(bs) ensures b.Payload() != 0 {}
    }
  }

  // -------------------------------------------------------------- round trips

  lemma CarveUndone(bs: seq<Block>, i: nat, r: nat)
    requires Coalesced(bs) && i < |bs| && bs[i].free && bs[i].size >= r
    ensures var cs := Carve(bs, i, r);
            Coalesce(cs[i := cs[i].(free := true)]) == bs
  {
    var cs := Carve(bs, i, r);
    var marked := cs[i := cs[i].(free := true)];
    if bs[i].size >= r + HEADER + SPLIT_MIN {
      var a, b := marked[i], cs[i + 1];
      assert marked == bs[..i] + [a, b] + bs[i + 1..];
      assert Merge(a, b) == bs[i];
      assert bs == bs[..i] + [Merge(a, b)] + bs[i + 1..];
      CoalesceUnsplits(bs[..i], a, b, bs[i + 1..]);
    } else {
      assert marked == bs;
      CoalesceFixpoint(bs);
    }
  }

  /** kmalloc then kfree of its result gives back exactly the block list it started from. */
  lemma FreeUndoesMalloc(bs: seq<Block>, n: nat)
    requires Wf(bs) && n < UINT32
    ensures var (cs, p) := Malloc(bs, n);
            (p == 0 || IsLive(cs, p)) && Free(cs, p) == bs
  {
    var (cs, p) := Malloc(bs, n);
    if p != 0 {
      var r := Round4(n);
      var i := FirstFit(bs, r);
      CarveWf(bs, i, r);
      CarveUndone(bs, i, r);
      assert cs[i] in cs && !cs[i].free && cs[i].Payload() == p;
      SameAddrSameBlock(cs, HEAP_START, HEAP_END, i, IndexOf(cs, p));
    }
  }

  lemma TwoBlocksHaveLive(bs: seq<Block>)
    requires Coalesced(bs) && |bs| > 1
    ensures Live(bs) != {}
  {
    var k := if bs[0].free then 1 else 0;
    assert bs[k] in Live(bs);
  }

  /** A well-formed heap without live blocks is the heap init_heap left. */
  lemma NoLiveIsInitial(bs: seq<Block>)
    requires Wf(bs) && Live(bs) == {}
    ensures bs == INITIAL
  {
    if |bs| > 1 {
      TwoBlocksHaveLive(bs);
    }
    var first := bs[0];
    assert first.free || first in Live(bs);
  }

  // ----------------------------------------------------- when kmalloc succeeds

  /** len bytes from a lie in the region and touch no live block, header included. */
  ghost predicate FreeStretch(bs: seq<Block>, a: nat, len: nat) {
    && HEAP_START <= a && a + len <= HEAP_END
    && forall b | b in Live(bs) :: b.End() <= a || a + len <= b.addr
  }

  lemma StretchInFreeBlock(bs: seq<Block>, a: nat, len: nat) returns (i: nat)
    requires Wf(bs) && FreeStretch(bs, a, len) && len > 0
    ensures i < |bs| && bs[i].free && bs[i].addr <= a && a + len <= bs[i].End()
  {
    i := Locate(bs, HEAP_START, HEAP_END, a);
    assert bs[i] in bs;
    assert i + 1 < |bs| && !bs[i + 1].free ==> bs[i + 1] in Live(bs);
    assert i + 1 < |bs| ==> !(bs[i].free && bs[i + 1].free);
  }

  lemma FreeBlockIsStretch(bs: seq<Block>, i: nat, len: nat)
    requires Wf(bs) && i < |bs| && bs[i].free && len <= HEADER + bs[i].size
    ensures FreeStretch(bs, bs[i].addr, len)
  {
    InRegion(bs, HEAP_START, HEAP_END, i);
    forall b | b in Live(bs) ensures b.End() <= bs[i].addr || bs[i].addr + len <= b.addr {
      var j :| 0 <= j < |bs| && bs[j] == b;
      if i < j {
        Ordered(bs, HEAP_START, HEAP_END, i, j);
      } else {
        Ordered(bs, HEAP_START, HEAP_END, j, i);
      }
    }
  }

  /**
    kmalloc fails exactly when no contiguous stretch outside the live blocks can
    hold the rounded request and its header; otherwise the header goes to the
    lowest such stretch.
  */
  lemma MallocFindsLowestStretch(bs: seq<Block>, n: nat)
    requires Wf(bs) && 0 < n < UINT32
    ensures var p := Malloc(bs, n).1;
            var len := HEADER + Round4(n);
            && (p == 0 <==> forall a :: !FreeStretch(bs, a, len))
            && (p != 0 ==> p >= HEADER && FreeStretch(bs, p - HEADER, len)
                           && forall a | FreeStretch(bs, a, len) :: p - HEADER <= a)
  {
    var r := Round4(n);
    var k := FirstFit(bs, r);
    var len := HEADER + r;
    forall a | FreeStretch(bs, a, len) ensures k < |bs| && bs[k].addr <= a {
      var i := StretchInFreeBlock(bs, a, len);
      assert k <= i;
      if k < i {
        Ordered(bs, HEAP_START, HEAP_END, k, i);
      }
    }
    if k < |bs| {
      FreeBlockIsStretch(bs, k, HEADER + r);
    }
  }

  /**
    A granted block holds the requested number of bytes exactly when the request
    is at most MAX_REQUEST: above it the rounding wraps to 0.
  */
  lemma GrantHoldsRequest(bs: seq<Block>, n: nat) returns (taken: Block)
    requires Wf(bs) && n < UINT32 && Malloc(bs, n).1 != 0
    ensures taken.Payload() == Malloc(bs, n).1 && taken in Live(Malloc(bs, n).0)
    ensures n <= taken.size <==> n <= MAX_REQUEST
  {
    taken := MallocCorrect(bs, n);
    RoundMultiple(n);
    assert taken in Live(Malloc(bs, n).0);
  }

  /** A request of 0xFFFFFFFD bytes succeeds on the empty heap and gets no payload at all. */
  lemma WrappedRequestGetsNothing()
    ensures Wf(INITIAL)
    ensures Malloc(INITIAL, 0xFFFF_FFFD).1 == HEAP_START + HEADER
    ensures Malloc(INITIAL, 0xFFFF_FFFD).0[0] == Block(HEAP_START, 0, false)
  {
  }

  // --------------------------------------------------------------- accounting

  function Span(bs: seq<Block>, free: bool): nat {
    if bs == [] then 0
    else Span(bs[..|bs| - 1], free)
         + if bs[|bs| - 1].free == free then bs[|bs| - 1].size + HEADER else 0
  }

  lemma {:induction false} SpansFill(bs: seq<Block>, lo: nat, hi: nat)
    requires Tiles(bs, lo, hi)
    ensures Span(bs, true) + Span(bs, false) == hi - lo
  {
    var front := bs[..|bs| - 1];
    if front != [] {
      SpansFill(front, lo, bs[|bs| - 1].addr);
    }
  }

  // --------------------------------------------------------------------- runs

  datatype Op = Alloc(n: nat) | Release(p: nat)

  ghost predicate Legal(bs: seq<Block>, op: Op) {
    match op
    case Alloc(n) => n < UINT32
    case Release(p) => p == 0 || IsLive(bs, p)
  }

  ghost function Apply(bs: seq<Block>, op: Op): seq<Block>
    requires Legal(bs, op)
  {
    match op
    case Alloc(n) => Malloc(bs, n).0
    case Release(p) => Free(bs, p)
  }

  /** Every call of the run frees only null or pointers that are live at that point. */
  ghost predicate LegalRun(bs: seq<Block>, ops: seq<Op>)
    decreases |ops|
  {
    ops == [] || (Legal(bs, ops[0]) && LegalRun(Apply(bs, ops[0]), ops[1..]))
  }

  ghost function Run(bs: seq<Block>, ops: seq<Op>): seq<Block>
    requires LegalRun(bs, ops)
    decreases |ops|
  {
    if ops == [] then bs else Run(Apply(bs, ops[0]), ops[1..])
  }

  lemma ApplyWf(bs: seq<Block>, op: Op)
    requires Wf(bs) && Legal(bs, op)
    ensures Wf(Apply(bs, op))
  {
    match op
    case Alloc(n) => var _ := MallocCorrect(bs, n);
    case Release(p) => FreeCorrect(bs, p);
  }

  lemma ApplyAligned(bs: seq<Block>, op: Op)
    requires Wf(bs) && Aligned(bs) && Legal(bs, op)
    ensures Aligned(Apply(bs, op))
  {
    match op
    case Alloc(n) => var _ := MallocAligned(bs, n);
    case Release(p) =>
      if p != 0 {
        var i := IndexOf(bs, p);
        CoalesceAligned(bs[i := bs[i].(free := true)]);
      }
  }

  lemma ApplyKeepsLive(bs: seq<Block>, op: Op, b: Block)
    requires Wf(bs) && Legal(bs, op) && b in Live(bs) && op != Release(b.Payload())
    ensures b in Live(Apply(bs, op))
  {
    match op
    case Alloc(n) => var _ := MallocCorrect(bs, n);
    case Release(p) => FreeCorrect(bs, p);
  }

  /** Over every legal run the blocks keep tiling the region with aligned sizes and no two adjacent free blocks. */
  lemma {:induction false} RunWf(bs: seq<Block>, ops: seq<Op>)
    requires Wf(bs) && Aligned(bs) && LegalRun(bs, ops)
    ensures Wf(Run(bs, ops)) && Aligned(Run(bs, ops))
    decreases |ops|
  {
    if ops != [] {
      ApplyWf(bs, ops[0]);
      ApplyAligned(bs, ops[0]);
      RunWf(Apply(bs, ops[0]), ops[1..]);
    }
  }

  /** Over every legal run a live block keeps its address and size until it is freed. */
  lemma {:induction false} RunKeepsLive(bs: seq<Block>, ops: seq<Op>, b: Block)
    requires Wf(bs) && LegalRun(bs, ops) && b in Live(bs) && Release(b.Payload()) !in ops
    ensures b in Live(Run(bs, ops))
    decreases |ops|
  {
    if ops != [] {
      ApplyWf(bs, ops[0]);
      ApplyKeepsLive(bs, ops[0], b);
      RunKeepsLive(Apply(bs, ops[0]), ops[1..], b);
    }
  }

  /** Any legal run from init_heap that ends without live blocks ends in the initial block list. */
  lemma RunBackToInitial(ops: seq<Op>)
    requires LegalRun(INITIAL, ops) && Live(Run(INITIAL, ops)) == {}
    ensures Run(INITIAL, ops) == INITIAL
  {
    RunWf(INITIAL, ops);
    NoLiveIsInitial(Run(INITIAL, ops));
  }

  function Releases(order: seq<nat>): seq<Op> {
    if order == [] then [] else [Release(order[0])] + Releases(order[1..])
  }

  ghost predicate Enumerates(order: seq<nat>, bs: seq<Block>) {
    && (forall b | b in Live(bs) :: b.Payload() in order)
    && (forall p | p in order :: IsLive(bs, p))
    && (forall i, j | 0 <= i < j < |order| :: order[i] != order[j])
  }

  lemma EnumeratesRest(bs: seq<Block>, order: seq<nat>)
    requires Wf(bs) && Enumerates(order, bs) && order != []
    ensures IsLive(bs, order[0]) && Enumerates(order[1..], Free(bs, order[0]))
  {
    var p := order[0];
    assert IsLive(bs, p);
    FreeCorrect(bs, p);
    var cs := Free(bs, p);
    forall q | q in order[1..] ensures IsLive(cs, q) {
      assert q in order && IsLive(bs, q);
      var b := bs[IndexOf(bs, q)];
      assert b in Live(bs);
      assert b in Live(cs);
    }
    forall b | b in Live(cs) ensures b.Payload() in order[1..] {
      assert b in Live(bs) && b.Payload() in order;
    }
  }

  /** Freeing all live blocks, in whatever order, restores the single initial block. */
  lemma {:induction false} FreeingAllRestores(bs: seq<Block>, order: seq<nat>)
    requires Wf(bs) && Enumerates(order, bs)
    ensures LegalRun(bs, Releases(order))
    ensures Run(bs, Releases(order)) == INITIAL
    decreases |order|
  {
    if order == [] {
      assert Live(bs) == {};
      NoLiveIsInitial(bs);
    } else {
      EnumeratesRest(bs, order);
      FreeCorrect(bs, order[0]);
      FreeingAllRestores(Free(bs, order[0]), order[1..]);
      assert Releases(order)[1..] == Releases(order[1..]);
    }
  }
}
