/**
  How much kmalloc grants and what heap_get_used then says (heap.c:30-51, 85-97), and
  that the live blocks determine the whole block list.
*/
module HeapSizes {
  import opened Basics
  import opened HeapBlocks

  // ------------------------------------------------------------- the size of a grant

  /** A stretch that starts at a free block ends inside it. */
  lemma StretchOfBlock(bs: seq<Block>, i: nat, len: nat)
    requires Wf(bs) && i < |bs| && bs[i].free && len > 0
    ensures FreeStretch(bs, bs[i].addr, len) <==> len <= HEADER + bs[i].size
  {
    if len <= HEADER + bs[i].size {
      FreeBlockIsStretch(bs, i, len);
    }
    if FreeStretch(bs, bs[i].addr, len) {
      var j := StretchInFreeBlock(bs, bs[i].addr, len);
      if i < j {
        Ordered(bs, HEAP_START, HEAP_END, i, j);
      } else if j < i {
        Ordered(bs, HEAP_START, HEAP_END, j, i);
      }
    }
  }

  /**
    The exact size of a grant: the rounded request if behind it there is room for
    another header and 16 bytes, and else everything up to the next live block or
    the end of the region.
  */
  lemma GrantSize(bs: seq<Block>, n: nat) returns (taken: Block)
    requires Wf(bs) && n < UINT32 && Malloc(bs, n).1 != 0
    ensures var (cs, p) := Malloc(bs, n);
            && p >= 12 && taken == Block(p - 12, taken.size, false)
            && taken !in Live(bs) && Live(cs) == Live(bs) + {taken}
            && if FreeStretch(bs, p - 12, 12 + Round4(n) + 12 + 16) then taken.size == Round4(n)
               else FreeStretch(bs, p - 12, 12 + taken.size) && !FreeStretch(bs, p - 12, 12 + taken.size + 1)
  {
    var r := Round4(n);
    var i := FirstFit(bs, r);
    CarveLive(bs, i, r);
    taken := Carve(bs, i, r)[i];
    StretchOfBlock(bs, i, HEADER + r + HEADER + SPLIT_MIN);
    StretchOfBlock(bs, i, HEADER + taken.size);
    StretchOfBlock(bs, i, HEADER + taken.size + 1);
  }

  // --------------------------------------------------------------------- accounting

  lemma {:induction false} SpanAppend(a: seq<Block>, b: seq<Block>, free: bool)
    ensures Span(a + b, free) == Span(a, free) + Span(b, free)
    decreases |b|
  {
    if b == [] {
      assert a + b == a;
    } else {
      var n := |b| - 1;
      SpanAppend(a, b[..n], free);
      assert (a + b)[..|a + b| - 1] == a + b[..n];
    }
  }

  lemma SpanOne(b: Block, free: bool)
    ensures Span([b], free) == if b.free == free then b.size + HEADER else 0
  {
    assert [b][..0] == [];
  }

  /** Replacing one block by others changes the span by their difference. */
  lemma SpanReplace(bs: seq<Block>, i: nat, mid: seq<Block>, free: bool)
    requires i < |bs|
    ensures Span(bs[..i] + mid + bs[i + 1..], free) + Span([bs[i]], free) == Span(bs, free) + Span(mid, free)
  {
    var pre, post := bs[..i], bs[i + 1..];
    SpanAppend(pre + mid, post, free);
    SpanAppend(pre, mid, free);
    assert bs == pre + [bs[i]] + post;
    SpanAppend(pre + [bs[i]], post, free);
    SpanAppend(pre, [bs[i]], free);
  }

  lemma CarveUsed(bs: seq<Block>, i: nat, r: nat)
    requires i < |bs| && bs[i].free && bs[i].size >= r
    ensures Span(Carve(bs, i, r), false) == Span(bs, false) + HEADER + Carve(bs, i, r)[i].size
  {
    var cs := Carve(bs, i, r);
    SpanOne(bs[i], false);
    SpanOne(cs[i], false);
    if bs[i].size >= r + HEADER + SPLIT_MIN {
      SpanReplace(bs, i, [cs[i], cs[i + 1]], false);
      assert [cs[i], cs[i + 1]] == [cs[i]] + [cs[i + 1]];
      SpanAppend([cs[i]], [cs[i + 1]], false);
      SpanOne(cs[i + 1], false);
    } else {
      assert cs == bs[..i] + [cs[i]] + bs[i + 1..];
      SpanReplace(bs, i, [cs[i]], false);
    }
  }

  lemma {:induction false} CoalesceUsed(bs: seq<Block>)
    ensures Span(Coalesce(bs), false) == Span(bs, false)
    decreases |bs|
  {
    if |bs| >= 2 {
      SpanOne(bs[0], false);
      if bs[0].free && bs[1].free {
        var merged := Merge(bs[0], bs[1]);
        CoalesceUsed([merged] + bs[2..]);
        SpanAppend([merged], bs[2..], false);
        SpanOne(merged, false);
        assert bs == [bs[0]] + ([bs[1]] + bs[2..]);
        SpanAppend([bs[0]], [bs[1]] + bs[2..], false);
        SpanAppend([bs[1]], bs[2..], false);
        SpanOne(bs[1], false);
      } else {
        CoalesceUsed(bs[1..]);
        assert bs == [bs[0]] + bs[1..];
        SpanAppend([bs[0]], bs[1..], false);
        SpanAppend([bs[0]], Coalesce(bs[1..]), false);
      }
    }
  }

  /** heap_get_used grows by the granted block and its header, and not at all when kmalloc fails. */
  lemma UsedAfterMalloc(bs: seq<Block>, n: nat) returns (taken: Block)
    requires Wf(bs) && n < UINT32
    ensures var (cs, p) := Malloc(bs, n);
            if p == 0 then Span(cs, false) == Span(bs, false)
            else taken.Payload() == p && taken in Live(cs) && Span(cs, false) == Span(bs, false) + 12 + taken.size
  {
    taken := MallocCorrect(bs, n);
    var i := FirstFit(bs, Round4(n));
    if Malloc(bs, n).1 != 0 {
      CarveUsed(bs, i, Round4(n));
      var cs := Malloc(bs, n).0;
      CarveLive(bs, i, Round4(n));
      taken := cs[i];
    }
  }

  lemma MarkUsed(bs: seq<Block>, i: nat)
    requires i < |bs| && !bs[i].free
    ensures Span(bs[i := bs[i].(free := true)], false) + HEADER + bs[i].size == Span(bs, false)
  {
    var b := bs[i].(free := true);
    assert bs[i := b] == bs[..i] + [b] + bs[i + 1..];
    SpanReplace(bs, i, [b], false);
    SpanOne(b, false);
    SpanOne(bs[i], false);
  }

  /** heap_get_used shrinks by the freed block and its header. */
  lemma UsedAfterFree(bs: seq<Block>, b: Block)
    requires Wf(bs) && b in Live(bs)
    ensures IsLive(bs, b.Payload()) && Span(Free(bs, b.Payload()), false) + 12 + b.size == Span(bs, false)
  {
    var k :| 0 <= k < |bs| && bs[k] == b;
    assert IsLive(bs, b.Payload());
    var i := IndexOf(bs, b.Payload());
    SameAddrSameBlock(bs, HEAP_START, HEAP_END, i, k);
    MarkUsed(bs, i);
    CoalesceUsed(bs[i := b.(free := true)]);
  }

  // ------------------------------------------------- the live blocks determine the list

  lemma LiveTail(bs: seq<Block>, lo: nat, hi: nat)
    requires Tiles(bs, lo, hi)
    ensures Live(bs[1..]) == Live(bs) - {bs[0]}
  {
    assert bs == [bs[0]] + bs[1..];
    forall b | b in bs[1..] ensures b != bs[0] {
      var j :| 0 <= j < |bs[1..]| && bs[1..][j] == b;
      Ordered(bs, lo, hi, 0, j + 1);
    }
  }

  /** No live block starts inside a free first block. */
  lemma LiveOutside(bs: seq<Block>, b: Block, lo: nat, hi: nat)
    requires Tiles(bs, lo, hi) && bs[0].free && b in Live(bs)
    ensures bs[0].End() <= b.addr
  {
    var j :| 0 <= j < |bs| && bs[j] == b;
    Ordered(bs, lo, hi, 0, j);
  }

  /** Two coalesced tilings with the same live blocks start with the same block. */
  lemma SameFirst(bs: seq<Block>, cs: seq<Block>, lo: nat, hi: nat)
    requires Tiles(bs, lo, hi) && Coalesced(bs) && Tiles(cs, lo, hi) && Coalesced(cs) && Live(bs) == Live(cs)
    ensures bs[0].End() <= cs[0].End() && (!bs[0].free ==> bs[0] == cs[0])
  {
    if !bs[0].free {
      assert bs[0] in Live(cs);
      var j :| 0 <= j < |cs| && cs[j] == bs[0];
      SameAddrSameBlock(cs, lo, hi, 0, j);
    } else if cs[0].End() < bs[0].End() {
      InRegion(bs, lo, hi, 0);
      assert |cs| > 1;
      if cs[0].free {
        assert !cs[1].free;
        LiveOutside(bs, cs[1], lo, hi);
      } else {
        LiveOutside(bs, cs[0], lo, hi);
      }
    }
  }

  lemma {:induction false} SameLiveSameTiling(bs: seq<Block>, cs: seq<Block>, lo: nat, hi: nat)
    requires Tiles(bs, lo, hi) && Coalesced(bs) && Tiles(cs, lo, hi) && Coalesced(cs) && Live(bs) == Live(cs)
    ensures bs == cs
    decreases |bs|
  {
    SameFirst(bs, cs, lo, hi);
    SameFirst(cs, bs, lo, hi);
    assert bs[0] == cs[0];
    if |bs| > 1 && |cs| > 1 {
      LiveTail(bs, lo, hi);
      LiveTail(cs, lo, hi);
      SameLiveSameTiling(bs[1..], cs[1..], bs[0].End(), hi);
      assert bs == [bs[0]] + bs[1..] && cs == [cs[0]] + cs[1..];
    } else if |bs| > 1 {
      InRegion(bs, lo, hi, 1);
    } else if |cs| > 1 {
      InRegion(cs, lo, hi, 1);
    }
  }

  /**
    The live blocks determine the block list, so MallocCorrect, GrantSize and
    FreeCorrect fix the result of every call.
  */
  lemma LiveDetermines(bs: seq<Block>, cs: seq<Block>)
    requires Wf(bs) && Wf(cs) && Live(bs) == Live(cs)
    ensures bs == cs
  {
    SameLiveSameTiling(bs, cs, HEAP_START, HEAP_END);
  }
}
