/**
  heap.c on raw memory.  The 4 MB region is an array indexed by byte offset, and a
  32-bit word lives in the cell of its first byte: a header at offset o is the
  three cells o (size), o + 4 (is_free) and o + 8 (next).  Each call is proved to
  compute the block-list function of HeapBlocks and to write no cell of a live
  payload.
*/
module HeapMemory {
  import opened Basics
  import opened HeapBlocks

  function Off(a: nat): nat
    requires HEAP_START <= a
  {
    a - HEAP_START
  }

  // ------------------------------------------------- block lists laid out in memory

  ghost predicate HeaderAt(m: seq<nat>, b: Block, next: nat) {
    && |m| == HEAP_SIZE
    && HEAP_START <= b.addr && b.Payload() <= HEAP_END
    && var w := Off(b.addr);
       m[w] == b.size && m[w + 4] == (if b.free then 1 else 0) && m[w + 8] == next
  }

  function Next(bs: seq<Block>, i: nat): nat {
    if i + 1 < |bs| then bs[i + 1].addr else 0
  }

  ghost predicate Linked(m: seq<nat>, bs: seq<Block>, i: nat)
    requires i < |bs|
  {
    HeaderAt(m, bs[i], Next(bs, i))
  }

  /** Memory m holds the linked list of headers that describes bs. */
  ghost predicate Chain(m: seq<nat>, bs: seq<Block>) {
    |m| == HEAP_SIZE && forall i: nat | i < |bs| :: Linked(m, bs, i)
  }

  ghost predicate PayloadKept(m: seq<nat>, m': seq<nat>, b: Block)
    requires |m| == |m'| == HEAP_SIZE
  {
    && HEAP_START <= b.addr && b.End() <= HEAP_END
    && forall w | Off(b.Payload()) <= w < Off(b.End()) :: m[w] == m'[w]
  }

  ghost predicate LivePayloadsKept(m: seq<nat>, m': seq<nat>, bs: seq<Block>)
    requires |m| == |m'| == HEAP_SIZE
  {
    forall b | b in Live(bs) :: PayloadKept(m, m', b)
  }

  /** m and m' differ at most inside block b, header included. */
  ghost predicate SameOutside(m: seq<nat>, m': seq<nat>, b: Block)
    requires |m| == |m'| == HEAP_SIZE && HEAP_START <= b.addr
  {
    forall w | 0 <= w < HEAP_SIZE && !(Off(b.addr) <= w < Off(b.End())) :: m[w] == m'[w]
  }

  ghost predicate Tiled(bs: seq<Block>) {
    Tiles(bs, HEAP_START, HEAP_END)
  }

  lemma Extent(bs: seq<Block>, i: nat)
    requires Tiled(bs) && i < |bs|
    ensures HEAP_START <= bs[i].addr && bs[i].End() <= HEAP_END
  {
    InRegion(bs, HEAP_START, HEAP_END, i);
  }

  /** Changing words of block k only leaves every other header alone. */
  lemma HeaderOutside(m: seq<nat>, m': seq<nat>, bs: seq<Block>, k: nat, i: nat, next: nat)
    requires Tiled(bs) && k < |bs| && i < |bs| && i != k
    requires |m| == |m'| == HEAP_SIZE && HEAP_START <= bs[k].addr && SameOutside(m, m', bs[k])
    requires HeaderAt(m, bs[i], next)
    ensures HeaderAt(m', bs[i], next)
  {
    Extent(bs, i);
    Extent(bs, k);
    if i < k {
      Ordered(bs, HEAP_START, HEAP_END, i, k);
    } else {
      Ordered(bs, HEAP_START, HEAP_END, k, i);
    }
  }

  /** Changing words of a free block only leaves every live payload alone. */
  lemma PayloadsOutside(m: seq<nat>, m': seq<nat>, bs: seq<Block>, k: nat)
    requires Tiled(bs) && k < |bs| && bs[k].free
    requires |m| == |m'| == HEAP_SIZE && HEAP_START <= bs[k].addr && SameOutside(m, m', bs[k])
    ensures LivePayloadsKept(m, m', bs)
  {
    Extent(bs, k);
    forall b | b in Live(bs) ensures PayloadKept(m, m', b) {
      var i :| 0 <= i < |bs| && bs[i] == b;
      Extent(bs, i);
      if i < k {
        Ordered(bs, HEAP_START, HEAP_END, i, k);
      } else {
        Ordered(bs, HEAP_START, HEAP_END, k, i);
      }
    }
  }

  lemma KeptTransitive(m: seq<nat>, m': seq<nat>, m'': seq<nat>, bs: seq<Block>)
    requires |m| == |m'| == |m''| == HEAP_SIZE
    requires LivePayloadsKept(m, m', bs) && LivePayloadsKept(m', m'', bs)
    ensures LivePayloadsKept(m, m'', bs)
  {
  }

  // ------------------------------------------- what each group of stores does to a chain

  lemma StoreFlag(m: seq<nat>, bs: seq<Block>, k: nat, free: bool)
    requires Tiled(bs) && Chain(m, bs) && k < |bs|
    ensures HEAP_START <= bs[k].addr && Off(bs[k].addr) + 12 <= HEAP_SIZE
    ensures var m' := m[Off(bs[k].addr) + 4 := if free then 1 else 0];
            Chain(m', bs[k := bs[k].(free := free)]) && SameOutside(m, m', bs[k])
  {
    Extent(bs, k);
    var m' := m[Off(bs[k].addr) + 4 := if free then 1 else 0];
    var bs' := bs[k := bs[k].(free := free)];
    forall i: nat | i < |bs'| ensures Linked(m', bs', i) {
      assert Linked(m, bs, i);
      if i != k {
        HeaderOutside(m, m', bs, k, i, Next(bs, i));
      }
    }
  }

  /** Setting the flag of the block being freed touches no payload at all. */
  lemma FlagOutsidePayloads(m: seq<nat>, bs: seq<Block>, k: nat)
    requires Tiled(bs) && k < |bs| && |m| == HEAP_SIZE
    ensures HEAP_START <= bs[k].addr && Off(bs[k].addr) + 12 <= HEAP_SIZE
    ensures LivePayloadsKept(m, m[Off(bs[k].addr) + 4 := 1], bs)
  {
    Extent(bs, k);
    forall b | b in Live(bs) ensures PayloadKept(m, m[Off(bs[k].addr) + 4 := 1], b) {
      var i :| 0 <= i < |bs| && bs[i] == b;
      Extent(bs, i);
      if i < k {
        Ordered(bs, HEAP_START, HEAP_END, i, k);
      } else if k < i {
        Ordered(bs, HEAP_START, HEAP_END, k, i);
      }
    }
  }

  /** heap.c:43-47 and 49 on block k. */
  function SplitStores(m: seq<nat>, b: Block, r: nat, next: nat): (m': seq<nat>)
    requires |m| == HEAP_SIZE && HEAP_START <= b.addr
    requires b.size >= r + HEADER + SPLIT_MIN && b.End() <= HEAP_END
    ensures |m'| == HEAP_SIZE
  {
    var w := Off(b.addr);
    var v := Off(b.addr + HEADER + r);
    m[v := b.size - r - HEADER][v + 4 := 1][v + 8 := next][w := r][w + 8 := b.addr + HEADER + r][w + 4 := 0]
  }

  lemma SplitHeaders(m: seq<nat>, b: Block, r: nat, next: nat)
    requires |m| == HEAP_SIZE && HEAP_START <= b.addr
    requires b.size >= r + HEADER + SPLIT_MIN && b.End() <= HEAP_END
    ensures var m' := SplitStores(m, b, r, next);
            && HeaderAt(m', Block(b.addr, r, false), b.addr + HEADER + r)
            && HeaderAt(m', Block(b.addr + HEADER + r, b.size - r - HEADER, true), next)
            && SameOutside(m, m', b)
  {
  }

  lemma SplitChain(m: seq<nat>, m': seq<nat>, bs: seq<Block>, k: nat, r: nat)
    requires Tiled(bs) && Chain(m, bs) && k < |bs| && bs[k].free
    requires bs[k].size >= r + HEADER + SPLIT_MIN
    requires |m'| == HEAP_SIZE && HEAP_START <= bs[k].addr && SameOutside(m, m', bs[k])
    requires HeaderAt(m', Block(bs[k].addr, r, false), bs[k].addr + HEADER + r)
    requires HeaderAt(m', Block(bs[k].addr + HEADER + r, bs[k].size - r - HEADER, true), Next(bs, k))
    ensures Chain(m', Carve(bs, k, r))
  {
    var cs := Carve(bs, k, r);
    forall i: nat | i < |cs| ensures Linked(m', cs, i) {
      if i < k {
        assert Linked(m, bs, i);
        HeaderOutside(m, m', bs, k, i, Next(bs, i));
      } else if i > k + 1 {
        assert Linked(m, bs, i - 1);
        HeaderOutside(m, m', bs, k, i - 1, Next(bs, i - 1));
        assert cs[i] == bs[i - 1];
        assert Next(cs, i) == Next(bs, i - 1);
      } else if i == k + 1 {
        assert Next(cs, i) == Next(bs, k);
      }
    }
  }

  lemma StoreSplit(m: seq<nat>, bs: seq<Block>, k: nat, r: nat)
    requires Tiled(bs) && Chain(m, bs) && k < |bs| && bs[k].free
    requires bs[k].size >= r + HEADER + SPLIT_MIN
    ensures HEAP_START <= bs[k].addr && bs[k].End() <= HEAP_END
    ensures var m' := SplitStores(m, bs[k], r, Next(bs, k));
            Chain(m', Carve(bs, k, r)) && SameOutside(m, m', bs[k])
  {
    Extent(bs, k);
    var m' := SplitStores(m, bs[k], r, Next(bs, k));
    SplitHeaders(m, bs[k], r, Next(bs, k));
    SplitChain(m, m', bs, k, r);
  }

  /** The list after heap.c:74-75 merged block k with its successor. */
  function MergeAt(bs: seq<Block>, k: nat): seq<Block>
    requires k + 1 < |bs|
  {
    bs[..k] + [Merge(bs[k], bs[k + 1])] + bs[k + 2..]
  }

  lemma MergeTiled(bs: seq<Block>, k: nat)
    requires Tiled(bs) && k + 1 < |bs| && bs[k].free && bs[k + 1].free
    ensures Tiled(MergeAt(bs, k)) && Live(MergeAt(bs, k)) == Live(bs)
  {
  }

  lemma StoreMerge(m: seq<nat>, bs: seq<Block>, k: nat)
    requires Tiled(bs) && Chain(m, bs) && k + 1 < |bs| && bs[k].free && bs[k + 1].free
    ensures HEAP_START <= bs[k].addr && Off(bs[k].addr) + 12 <= HEAP_SIZE
    ensures var w := Off(bs[k].addr);
            var m' := m[w := bs[k].size + HEADER + bs[k + 1].size][w + 8 := Next(bs, k + 1)];
            Chain(m', MergeAt(bs, k)) && SameOutside(m, m', bs[k])
  {
    Extent(bs, k);
    var w := Off(bs[k].addr);
    var m' := m[w := bs[k].size + HEADER + bs[k + 1].size][w + 8 := Next(bs, k + 1)];
    var cs := MergeAt(bs, k);
    forall i: nat | i < |cs| ensures Linked(m', cs, i) {
      if i < k {
        assert Linked(m, bs, i);
        HeaderOutside(m, m', bs, k, i, Next(bs, i));
      } else if i > k {
        assert Linked(m, bs, i + 1);
        HeaderOutside(m, m', bs, k, i + 1, Next(bs, i + 1));
        assert cs[i] == bs[i + 1] && Next(cs, i) == Next(bs, i + 1);
      } else {
        assert Linked(m, bs, k);
        assert Next(cs, k) == Next(bs, k + 1);
      }
    }
  }

  lemma Unchanged(m: seq<nat>, bs: seq<Block>)
    requires |m| == HEAP_SIZE && Tiled(bs)
    ensures LivePayloadsKept(m, m, bs)
  {
    forall b | b in Live(bs) ensures PayloadKept(m, m, b) {
      var i :| 0 <= i < |bs| && bs[i] == b;
      Extent(bs, i);
    }
  }

  lemma MarkedKept(m: seq<nat>, m': seq<nat>, bs: seq<Block>, i: nat)
    requires |m| == |m'| == HEAP_SIZE && i < |bs| && LivePayloadsKept(m, m', bs)
    ensures LivePayloadsKept(m, m', bs[i := bs[i].(free := true)])
  {
  }

  /** The blocks before k are final and goal is what the pass will make of bs. */
  ghost predicate Fused(bs: seq<Block>, k: nat, goal: seq<Block>) {
    k < |bs| && goal == bs[..k] + Coalesce(bs[k..])
  }

  lemma NextNull(bs: seq<Block>, k: nat)
    requires Tiled(bs) && k < |bs|
    ensures Next(bs, k) == 0 <==> k + 1 == |bs|
  {
    if k + 1 < |bs| {
      Extent(bs, k + 1);
    }
  }

  lemma FusedStart(bs: seq<Block>)
    requires bs != []
    ensures Fused(bs, 0, Coalesce(bs))
  {
    assert bs[0..] == bs;
  }

  lemma FusedSkip(bs: seq<Block>, k: nat, goal: seq<Block>)
    requires Fused(bs, k, goal) && k + 1 < |bs| && !(bs[k].free && bs[k + 1].free)
    ensures Fused(bs, k + 1, goal)
  {
    assert bs[k..][1..] == bs[k + 1..];
  }

  lemma FusedMerge(bs: seq<Block>, k: nat, goal: seq<Block>)
    requires Fused(bs, k, goal) && k + 1 < |bs| && bs[k].free && bs[k + 1].free
    ensures Fused(MergeAt(bs, k), k, goal)
  {
    assert bs[k..][2..] == bs[k + 2..];
    assert MergeAt(bs, k)[k..] == [Merge(bs[k], bs[k + 1])] + bs[k..][2..];
  }

  lemma FusedEnd(bs: seq<Block>, k: nat, goal: seq<Block>)
    requires Fused(bs, k, goal) && k + 1 == |bs|
    ensures goal == bs
  {
    assert bs[..k] + bs[k..] == bs;
  }

  lemma StorePayload(m: seq<nat>, bs: seq<Block>, k: nat, w: nat, value: nat)
    requires Tiled(bs) && Chain(m, bs) && k < |bs| && HEAP_START <= bs[k].addr
    requires Off(bs[k].Payload()) <= w < Off(bs[k].End()) && w < HEAP_SIZE
    ensures Chain(m[w := value], bs)
    ensures forall c | c in Live(bs) && c != bs[k] :: PayloadKept(m, m[w := value], c)
  {
    Extent(bs, k);
    var m' := m[w := value];
    forall i: nat | i < |bs| ensures Linked(m', bs, i) {
      assert Linked(m, bs, i);
      if i != k {
        HeaderOutside(m, m', bs, k, i, Next(bs, i));
      }
    }
    forall c | c in Live(bs) && c != bs[k] ensures PayloadKept(m, m', c) {
      var i :| 0 <= i < |bs| && bs[i] == c;
      Extent(bs, i);
      if i < k {
        Ordered(bs, HEAP_START, HEAP_END, i, k);
      } else {
        Ordered(bs, HEAP_START, HEAP_END, k, i);
      }
    }
  }

  // -------------------------------------------------------------------- the allocator

  class Heap {
    const mem: array<nat>
    ghost var blocks: seq<Block>

    ghost predicate Valid()
      reads this, mem
    {
      mem.Length == HEAP_SIZE && Wf(blocks) && Chain(mem[..], blocks)
    }

    /** init_heap on a region of arbitrary contents. */
    constructor (region: array<nat>)
      requires region.Length == HEAP_SIZE
      modifies region
      ensures Valid() && mem == region && blocks == INITIAL
    {
      mem := region;
      blocks := INITIAL;
      new;
      mem[0] := HEAP_SIZE - HEADER;
      mem[4] := 1;
      mem[8] := 0;
      assert Linked(mem[..], INITIAL, 0);
    }

    /** Read a header field: 0 = size, 1 = is_free, 2 = next. */
    function Field(curr: nat, field: nat): nat
      requires mem.Length == HEAP_SIZE && field < 3
      requires HEAP_START <= curr && curr + HEADER <= HEAP_END
      reads this, mem
    {
      mem[Off(curr) + 4 * field]
    }

    lemma ChainFields(k: nat)
      requires mem.Length == HEAP_SIZE && Tiled(blocks) && Chain(mem[..], blocks) && k < |blocks|
      ensures HEAP_START <= blocks[k].addr && blocks[k].Payload() <= HEAP_END
      ensures Field(blocks[k].addr, 0) == blocks[k].size
      ensures Field(blocks[k].addr, 1) == if blocks[k].free then 1 else 0
      ensures Field(blocks[k].addr, 2) == Next(blocks, k)
    {
      assert Linked(mem[..], blocks, k);
    }

    method Kmalloc(n: nat) returns (p: nat)
      requires Valid() && n < UINT32
      modifies this, mem
      ensures Valid()
      ensures (blocks, p) == Malloc(old(blocks), n)
      ensures LivePayloadsKept(old(mem[..]), mem[..], old(blocks))
    {
      Unchanged(mem[..], blocks);
      if n == 0 {
        return 0;
      }
      var size := n;
      if size % 4 != 0 {
        size := (size + (4 - size % 4)) % UINT32;
      }
      assert size == Round4(n);
      var curr, k := Search(size);
      if curr == 0 {
        return 0;
      }
      Take(curr, size, k);
      p := curr + HEADER;
    }

    /** heap.c:36-38 and 53: walk the list up to the first block that fits. */
    method Search(size: nat) returns (curr: nat, ghost k: nat)
      requires Valid()
      ensures k == FirstFit(blocks, size)
      ensures if k < |blocks| then curr == blocks[k].addr != 0 else curr == 0
    {
      curr := HEAP_START;
      k := 0;
      while curr != 0
        invariant k <= FirstFit(blocks, size)
        invariant if k < |blocks| then curr == blocks[k].addr != 0 else curr == 0
        decreases |blocks| - k
      {
        ChainFields(k);
        if Field(curr, 1) != 0 && Field(curr, 0) >= size {
          return;
        }
        if k + 1 < |blocks| {
          ChainFields(k + 1);
        }
        curr := Field(curr, 2);
        k := k + 1;
      }
    }

    /** heap.c:39-49: the chosen block is split or taken whole. */
    method Take(curr: nat, size: nat, ghost k: nat)
      requires Valid() && k < |blocks| && curr == blocks[k].addr
      requires blocks[k].free && blocks[k].size >= size
      modifies this, mem
      ensures Valid() && blocks == Carve(old(blocks), k, size)
      ensures LivePayloadsKept(old(mem[..]), mem[..], old(blocks))
    {
      ghost var m, bs := mem[..], blocks;
      ChainFields(k);
      Extent(bs, k);
      CarveWf(bs, k, size);
      if Field(curr, 0) >= size + HEADER + SPLIT_MIN {
        StoreSplit(m, bs, k, size);
        WriteSplit(curr, size);
        assert mem[..] == SplitStores(m, bs[k], size, Next(bs, k));
      } else {
        StoreFlag(m, bs, k, false);
        mem[Off(curr) + 4] := 0;
        assert mem[..] == m[Off(curr) + 4 := 0];
      }
      blocks := Carve(bs, k, size);
      PayloadsOutside(m, mem[..], bs, k);
    }

    /** heap.c:41-47 and 49 */
    method WriteSplit(curr: nat, size: nat)
      requires mem.Length == HEAP_SIZE && HEAP_START <= curr && curr + HEADER <= HEAP_END
      requires Field(curr, 0) >= size + HEADER + SPLIT_MIN && curr + HEADER + Field(curr, 0) <= HEAP_END
      modifies mem
      ensures mem[..] == SplitStores(old(mem[..]), Block(curr, old(Field(curr, 0)), true), size, old(Field(curr, 2)))
    {
      var nextBlock := curr + HEADER + size;
      var w, v := Off(curr), Off(nextBlock);
      mem[v] := mem[w] - size - HEADER;
      mem[v + 4] := 1;
      mem[v + 8] := mem[w + 8];
      mem[w] := size;
      mem[w + 8] := nextBlock;
      mem[w + 4] := 0;
    }

    method Kfree(p: nat)
      requires Valid() && (p == 0 || IsLive(blocks, p))
      modifies this, mem
      ensures Valid()
      ensures blocks == Free(old(blocks), p)
      ensures LivePayloadsKept(old(mem[..]), mem[..], blocks)
    {
      if p == 0 {
        Unchanged(mem[..], blocks);
        return;
      }
      FreeCorrect(blocks, p);
      ghost var i := IndexOf(blocks, p);
      ghost var m := mem[..];
      StoreFlag(m, blocks, i, true);
      FlagOutsidePayloads(m, blocks, i);
      var header := p - HEADER;
      mem[Off(header) + 4] := 1;
      assert mem[..] == m[Off(header) + 4 := 1];
      ghost var marked := blocks[i := blocks[i].(free := true)];
      MarkedKept(m, mem[..], blocks, i);
      blocks := marked;
      Fuse(m);
    }

    /** The pass stands at block k, everything before it is final, and goal will be the result. */
    ghost predicate Fusing(curr: nat, k: nat, goal: seq<Block>, m: seq<nat>)
      reads this, mem
    {
      && mem.Length == |m| == HEAP_SIZE && Tiled(blocks) && Chain(mem[..], blocks)
      && k < |blocks| && curr == blocks[k].addr && HEAP_START <= curr && curr + HEADER <= HEAP_END
      && Fused(blocks, k, goal) && LivePayloadsKept(m, mem[..], blocks)
    }

    /** heap.c:71-79: the coalescing pass, which visits or removes one block per step. */
    method Fuse(ghost m: seq<nat>)
      requires mem.Length == |m| == HEAP_SIZE && Tiled(blocks) && Chain(mem[..], blocks)
      requires LivePayloadsKept(m, mem[..], blocks)
      modifies this, mem
      ensures Valid() && blocks == Coalesce(old(blocks))
      ensures LivePayloadsKept(m, mem[..], blocks)
    {
      var curr := HEAP_START;
      ghost var k := 0;
      ghost var goal := Coalesce(blocks);
      CoalesceTiles(blocks, HEAP_START, HEAP_END);
      ChainFields(0);
      FusedStart(blocks);
      NextNull(blocks, 0);
      while curr != 0 && Field(curr, 2) != 0
        invariant Fusing(curr, k, goal, m)
        decreases |blocks| - k
      {
        curr, k := FuseStep(curr, k, goal, m);
      }
      ChainFields(k);
      NextNull(blocks, k);
      FusedEnd(blocks, k, goal);
    }

    /** heap.c:73-78 */
    method FuseStep(curr: nat, ghost k: nat, ghost goal: seq<Block>, ghost m: seq<nat>)
      returns (after: nat, ghost k': nat)
      requires Fusing(curr, k, goal, m) && Field(curr, 2) != 0
      modifies this, mem
      ensures Fusing(after, k', goal, m)
      ensures |blocks| - k' < old(|blocks|) - k
    {
      ChainFields(k);
      NextNull(blocks, k);
      ChainFields(k + 1);
      var next := Field(curr, 2);
      if Field(curr, 1) != 0 && Field(next, 1) != 0 {
        ghost var before, bs := mem[..], blocks;
        Absorb(curr, next, k);
        KeptTransitive(m, before, mem[..], bs);
        FusedMerge(bs, k, goal);
        after, k' := curr, k;
      } else {
        FusedSkip(blocks, k, goal);
        after, k' := next, k + 1;
      }
    }

    /** heap.c:74-75: curr swallows its successor. */
    method Absorb(curr: nat, next: nat, ghost k: nat)
      requires mem.Length == HEAP_SIZE && Tiled(blocks) && Chain(mem[..], blocks) && k + 1 < |blocks|
      requires curr == blocks[k].addr && next == blocks[k + 1].addr && blocks[k].free && blocks[k + 1].free
      modifies this, mem
      ensures blocks == MergeAt(old(blocks), k) && Tiled(blocks) && Chain(mem[..], blocks)
      ensures Live(blocks) == old(Live(blocks))
      ensures LivePayloadsKept(old(mem[..]), mem[..], old(blocks))
    {
      ghost var m: seq<nat>, bs := mem[..], blocks;
      ChainFields(k);
      ChainFields(k + 1);
      Extent(bs, k);
      Extent(bs, k + 1);
      StoreMerge(m, bs, k);
      MergeTiled(bs, k);
      var w, v := Off(curr), Off(next);
      mem[w] := mem[w] + HEADER + mem[v];
      mem[w + 8] := mem[v + 8];
      assert mem[..] == m[w := bs[k].size + HEADER + bs[k + 1].size][w + 8 := Next(bs, k + 1)];
      blocks := MergeAt(bs, k);
      PayloadsOutside(m, mem[..], bs, k);
    }

    method HeapGetUsed() returns (used: nat)
      requires Valid()
      ensures used == Span(blocks, false) <= HEAP_SIZE
    {
      used := 0;
      var curr := HEAP_START;
      ghost var k := 0;
      while curr != 0
        invariant k <= |blocks| && used == Span(blocks[..k], false)
        invariant curr == if k < |blocks| then blocks[k].addr else 0
        decreases |blocks| - k
      {
        ChainFields(k);
        if Field(curr, 1) == 0 {
          used := used + (Field(curr, 0) + HEADER);
        }
        assert blocks[..k + 1][..k] == blocks[..k];
        curr := Field(curr, 2);
        k := k + 1;
      }
      assert blocks[..k] == blocks;
      SpansFill(blocks, HEAP_START, HEAP_END);
    }

    method HeapGetFree() returns (free: nat)
      requires Valid()
      ensures free == Span(blocks, true)
    {
      var used := HeapGetUsed();
      SpansFill(blocks, HEAP_START, HEAP_END);
      free := HEAP_SIZE - used;
    }

    /** A client's word store into its own live payload leaves the allocator state and every other payload alone. */
    method Store(ghost b: Block, w: nat, value: nat)
      requires Valid() && b in Live(blocks)
      requires HEAP_START <= b.addr && Off(b.Payload()) <= w && w % 4 == 0 && w + 4 <= Off(b.End()) <= HEAP_SIZE
      modifies mem
      ensures Valid() && mem[w] == value
      ensures forall c | c in Live(blocks) && c != b :: PayloadKept(old(mem[..]), mem[..], c)
    {
      ghost var m := mem[..];
      ghost var k :| 0 <= k < |blocks| && blocks[k] == b;
      mem[w] := value;
      StorePayload(m, blocks, k, w, value);
    }

    /**
      Every legal run of calls: the allocator computes Run, and the payload of a
      block that the run does not free keeps every word.
    */
    method RunCalls(ops: seq<Op>)
      requires Valid() && LegalRun(blocks, ops)
      modifies this, mem
      ensures Valid() && LegalRun(old(blocks), ops) && blocks == Run(old(blocks), ops)
      ensures forall b | b in Live(old(blocks)) && Release(b.Payload()) !in ops ::
                b in Live(blocks) && PayloadKept(old(mem[..]), mem[..], b)
      decreases |ops|
    {
      if ops == [] {
        Unchanged(mem[..], blocks);
        return;
      }
      ghost var m, bs := mem[..], blocks;
      match ops[0] {
        case Alloc(n) =>
          var _ := Kmalloc(n);
        case Release(p) =>
          Kfree(p);
      }
      ghost var m', bs' := mem[..], blocks;
      assert bs' == Apply(bs, ops[0]);
      RunCalls(ops[1..]);
      forall b | b in Live(bs) && Release(b.Payload()) !in ops
        ensures b in Live(blocks) && PayloadKept(m, mem[..], b)
      {
        ApplyKeepsLive(bs, ops[0], b);
        assert PayloadKept(m, m', b);
        assert Release(b.Payload()) !in ops[1..];
        assert PayloadKept(m', mem[..], b);
      }
    }
  }
}
