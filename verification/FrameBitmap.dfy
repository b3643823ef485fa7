/** The physical frame allocator of paging.c: a byte bitmap and a cached counter, changed in place. */
module FrameBitmap {
  import opened Basics
  import opened Frames

  const BITMAP_BYTES: nat := TOTAL_PAGES / 8

  // -------------------------------------------------------------------------- bits

  function Mask(bit: nat): bv8
    requires bit < 8
  {
    (1 as bv8) << bit
  }

  lemma SetBit(b: bv8, i: nat, j: nat)
    requires i < 8 && j < 8
    ensures ((b | Mask(i)) & Mask(j) != 0) == (i == j || b & Mask(j) != 0)
  {
  }

  lemma ClearBit(b: bv8, i: nat, j: nat)
    requires i < 8 && j < 8
    ensures ((b & !Mask(i)) & Mask(j) != 0) == (i != j && b & Mask(j) != 0)
  {
  }

  predicate BitClear(bm: seq<bv8>, q: nat)
    requires |bm| == BITMAP_BYTES && q < TOTAL_PAGES
  {
    bm[q / 8] & Mask(q % 8) == 0
  }

  /** The frames whose bit is clear. */
  ghost function FreeSet(bm: seq<bv8>): set<nat>
    requires |bm| == BITMAP_BYTES
  {
    set q: nat | q < TOTAL_PAGES && BitClear(bm, q)
  }

  /** free is the set of frames whose bit is clear; stated so that only bits instantiate it. */
  ghost predicate Mirrors(bm: seq<bv8>, free: set<nat>) {
    && |bm| == BITMAP_BYTES
    && (forall q | q in free :: q < TOTAL_PAGES)
    && forall q: nat {:trigger BitClear(bm, q)} | q < TOTAL_PAGES :: q in free <==> BitClear(bm, q)
  }

  lemma MirrorsFreeSet(bm: seq<bv8>, free: set<nat>)
    requires Mirrors(bm, free)
    ensures free == FreeSet(bm)
  {
  }

  function WithBit(bm: seq<bv8>, p: nat): seq<bv8>
    requires |bm| == BITMAP_BYTES && p < TOTAL_PAGES
  {
    bm[p / 8 := bm[p / 8] | Mask(p % 8)]
  }

  function WithoutBit(bm: seq<bv8>, p: nat): seq<bv8>
    requires |bm| == BITMAP_BYTES && p < TOTAL_PAGES
  {
    bm[p / 8 := bm[p / 8] & !Mask(p % 8)]
  }

  lemma SetOne(bm: seq<bv8>, free: set<nat>, p: nat)
    requires Mirrors(bm, free) && p < TOTAL_PAGES
    ensures Mirrors(WithBit(bm, p), free - {p})
  {
    forall q: nat | q < TOTAL_PAGES ensures BitClear(WithBit(bm, p), q) == (q != p && BitClear(bm, q)) {
      if q / 8 == p / 8 {
        SetBit(bm[p / 8], p % 8, q % 8);
      }
    }
  }

  lemma ClearOne(bm: seq<bv8>, free: set<nat>, p: nat)
    requires Mirrors(bm, free) && p < TOTAL_PAGES
    ensures Mirrors(WithoutBit(bm, p), free + {p})
  {
    forall q: nat | q < TOTAL_PAGES ensures BitClear(WithoutBit(bm, p), q) == (q == p || BitClear(bm, q)) {
      if q / 8 == p / 8 {
        ClearBit(bm[p / 8], p % 8, q % 8);
      }
    }
  }

  lemma AllZeroIsFree(bm: seq<bv8>)
    requires |bm| == BITMAP_BYTES && forall i | 0 <= i < |bm| :: bm[i] == 0
    ensures Mirrors(bm, Block(0, TOTAL_PAGES))
  {
  }

  // ---------------------------------------------------------------------- free_pages

  function Min(a: nat, b: nat): nat {
    if a < b then a else b
  }

  function Over(sum: nat): nat {
    if sum < UINT32 then 0 else sum - UINT32
  }

  /** Frame numbers visited by the first i rounds of free_pages, the sum wrapping at 2^32. */
  ghost function Visited(page: nat, i: nat): set<nat>
    requires page < TOTAL_PAGES
  {
    Block(page, Min(i, TOTAL_PAGES - page)) + Block(0, Min(Over(page + i), TOTAL_PAGES))
  }

  /** How many of those rounds addressed no frame at all. */
  function Strays(page: nat, i: nat): nat {
    if page + i <= TOTAL_PAGES then 0
    else if page + i <= UINT32 then page + i - TOTAL_PAGES
    else UINT32 - TOTAL_PAGES
  }

  lemma VisitNext(page: nat, i: nat)
    requires page < TOTAL_PAGES && i < UINT32
    ensures var p := Add32(page, i);
            Visited(page, i + 1) == if p < TOTAL_PAGES then Visited(page, i) + {p} else Visited(page, i)
  {
  }

  lemma StrayNext(page: nat, i: nat)
    requires page < TOTAL_PAGES && i < UINT32
    ensures Strays(page, i + 1) == Strays(page, i) + if Add32(page, i) < TOTAL_PAGES then 0 else 1
  {
  }

  /** The value of the 32-bit counter once free frames and stray rounds were counted. */
  ghost function Counter(free: set<nat>, strays: nat): nat {
    Add32(|free|, strays)
  }

  /** The free set and the counter after i rounds of the loop of free_pages. */
  ghost function Rounds(free0: set<nat>, num0: nat, page: nat, i: nat): (set<nat>, nat) {
    if i == 0 then (free0, num0)
    else
      var (free, num) := Rounds(free0, num0, page, i - 1);
      var p := Add32(page, i - 1);
      (if p < TOTAL_PAGES then free + {p} else free, if p in free then num else Add32(num, 1))
  }

  ghost predicate Bounded(free: set<nat>) {
    forall q | q in free :: q < TOTAL_PAGES
  }

  lemma VisitedBounded(page: nat, i: nat)
    requires page < TOTAL_PAGES
    ensures Bounded(Visited(page, i))
  {
  }

  lemma {:induction false} RoundsFree(free0: set<nat>, num0: nat, page: nat, i: nat)
    requires page < TOTAL_PAGES && i <= UINT32 && Bounded(free0)
    ensures Rounds(free0, num0, page, i).0 == free0 + Visited(page, i)
    ensures Bounded(Rounds(free0, num0, page, i).0)
  {
    VisitedBounded(page, i);
    if i == 0 {
      assert Visited(page, 0) == {};
    } else {
      RoundsFree(free0, num0, page, i - 1);
      VisitNext(page, i - 1);
      var p, seen := Add32(page, i - 1), Visited(page, i - 1);
      assert (free0 + seen) + {p} == free0 + (seen + {p});
    }
  }

  lemma CounterNext(free: set<nat>, strays: nat, p: nat)
    requires |free| <= TOTAL_PAGES && strays <= UINT32 - TOTAL_PAGES
    ensures p !in free ==> Counter(free + {p}, strays) == Add32(Counter(free, strays), 1)
    ensures strays < UINT32 - TOTAL_PAGES ==> Counter(free, strays + 1) == Add32(Counter(free, strays), 1)
  {
  }

  lemma Smaller(a: set<nat>, b: set<nat>)
    requires a <= b
    ensures |a| <= |b|
  {
    assert b == a + (b - a);
  }

  lemma FitsAll(free: set<nat>)
    requires forall q | q in free :: q < TOTAL_PAGES
    ensures |free| <= TOTAL_PAGES
  {
    BlockSize(0, TOTAL_PAGES);
    Smaller(free, Block(0, TOTAL_PAGES));
  }

  lemma {:induction false} RoundsCount(free0: set<nat>, num0: nat, page: nat, i: nat)
    requires page < TOTAL_PAGES && i <= UINT32 && Bounded(free0) && num0 == |free0|
    ensures Rounds(free0, num0, page, i).1 == Counter(Rounds(free0, num0, page, i).0, Strays(page, i))
  {
    if i == 0 {
      FitsAll(free0);
    } else {
      RoundsCount(free0, num0, page, i - 1);
      RoundsFree(free0, num0, page, i - 1);
      var free := Rounds(free0, num0, page, i - 1).0;
      var p := Add32(page, i - 1);
      FitsAll(free);
      CounterNext(free, Strays(page, i - 1), p);
      StrayNext(page, i - 1);
      assert p in free ==> free + {p} == free;
    }
  }

  /** Past the range check, the counter is right exactly when the 32-bit sum did not wrap. */
  lemma CounterRight(page: nat, count: nat, free: set<nat>)
    requires page < TOTAL_PAGES && 0 < count < UINT32 && Add32(page, count) <= TOTAL_PAGES
    requires |free| <= TOTAL_PAGES
    ensures Counter(free, Strays(page, count)) == |free| <==> page + count < UINT32
    ensures page + count < UINT32 ==> Visited(page, count) == Block(page, count)
  {
    if page + count < UINT32 {
      assert page + count <= TOTAL_PAGES;
    } else {
      assert page + count <= UINT32 + TOTAL_PAGES;
    }
  }

  // -------------------------------------------------------------------- allocation

  /** A run was found and taken at its lowest place, or there was none and nothing changed. */
  ghost predicate Outcome(free: set<nat>, count: nat, ptr: nat, start: nat, free': set<nat>) {
    if NoRun(free, count) then ptr == 0 && free' == free
    else LowestRun(free, start, count) && ptr == start * PAGE_SIZE && free' == free - Block(start, count)
  }

  /** What callers assume: a null result says that there was no run. */
  ghost predicate NullMeansNone(free: set<nat>, count: nat, ptr: nat) {
    ptr == 0 <==> NoRun(free, count)
  }

  /** They are right exactly when no run starts at frame 0, whose address is the null pointer. */
  lemma NullIff(free: set<nat>, count: nat, ptr: nat, start: nat, free': set<nat>)
    requires Outcome(free, count, ptr, start, free') && count > 0
    ensures NullMeansNone(free, count, ptr) <==> !RunAt(free, 0, count)
    ensures count == 1 ==> (RunAt(free, 0, 1) <==> 0 in free)
  {
    if !NoRun(free, count) && start > 0 {
      assert !RunAt(free, 0, count);
    }
  }

  lemma WithoutNext(free: set<nat>, start: nat, j: nat)
    ensures free - Block(start, j) - {start + j} == free - Block(start, j + 1)
  {
  }

  lemma WithoutBlock(free: set<nat>, start: nat, n: nat)
    requires RunAt(free, start, n)
    ensures |free - Block(start, n)| == |free| - n
  {
    BlockSize(start, n);
    assert Block(start, n) <= free;
  }

  lemma LowestSingle(free: set<nat>, i: nat)
    requires i in free && i < TOTAL_PAGES && forall q | 0 <= q < i :: q !in free
    ensures LowestRun(free, i, 1) && !NoRun(free, 1)
  {
    assert RunAt(free, i, 1);
    forall s: nat | s < i ensures !RunAt(free, s, 1) {
      assert s !in free;
    }
  }

  lemma NoSingle(free: set<nat>)
    requires forall q | 0 <= q < TOTAL_PAGES :: q !in free
    ensures NoRun(free, 1)
  {
    forall s: nat ensures !RunAt(free, s, 1) {
      assert s < TOTAL_PAGES ==> s !in free;
    }
  }

  /** After scanning i frames: the free stretch that ends at i, and no run so far. */
  ghost predicate Scanned(free: set<nat>, i: nat, count: nat, consecutive: nat, startPage: nat) {
    && consecutive <= i
    && (consecutive > 0 ==> startPage + consecutive == i)
    && (forall q | i - consecutive <= q < i :: q in free)
    && (i - consecutive > 0 ==> i - consecutive - 1 !in free)
    && (forall s: nat | s + count <= i :: !RunAt(free, s, count))
  }

  lemma LowestFound(free: set<nat>, i: nat, count: nat, startPage: nat)
    requires 0 < count && i < TOTAL_PAGES && startPage + count == i + 1 && i in free
    requires forall q | startPage <= q < i :: q in free
    requires startPage > 0 ==> startPage - 1 !in free
    requires forall s: nat | s + count <= i :: !RunAt(free, s, count)
    ensures LowestRun(free, startPage, count) && !NoRun(free, count)
  {
  }

  /**
    An allocation is a call of the shared frames; there the reserved frame 0 is
    never free, so null means that there was no run.
  */
  lemma OutcomeIsTake(a: Share, c: nat, n: nat, ptr: nat, start: nat, free': set<nat>)
    requires Partition(a) && n > 0 && Outcome(a.free, n, ptr, start, free')
    ensures Take(a, c, n).free == free' && ptr == Grant(a.free, n)
    ensures ptr == 0 <==> NoRun(a.free, n)
  {
    if !NoRun(a.free, n) {
      var low := Lowest(a.free, n);
      assert start == low by {
        assert !(start < low) && !(low < start);
      }
      GrantIsFresh(a, start, n);
    }
  }

  lemma TakeNone(a: Share, c: nat)
    ensures Take(a, c, 0).free == a.free
  {
  }

  lemma GiveNone(a: Share, start: nat)
    ensures Give(a, start, 0).free == a.free
  {
  }

  lemma FrameOf(ptr: nat, start: nat)
    requires ptr == start * PAGE_SIZE && start < TOTAL_PAGES
    ensures ptr / PAGE_SIZE == start && ptr < UINT32
  {
  }

  /** Frames that a client holds pass the range check of free_pages, and exactly they become free. */
  lemma HeldIsFreeable(a: Share, c: nat, start: nat, n: nat)
    requires Partition(a) && Holds(a, c, start, n) && n > 0
    ensures 0 < start && start + n <= TOTAL_PAGES && Visited(start, n) == Block(start, n)
    ensures start !in a.free
  {
    assert start in Block(start, n) && start + n - 1 in Block(start, n);
    assert start in a.held.Keys && start + n - 1 in Block(0, TOTAL_PAGES);
    assert start !in Block(0, RESERVED);
  }

  // --------------------------------------------------------------------- the class

  class Allocator {
    const bitmap: array<bv8>
    var numFree: nat
    ghost var free: set<nat>

    ghost predicate Sane()
      reads this, bitmap
    {
      bitmap.Length == BITMAP_BYTES && numFree < UINT32 && Mirrors(bitmap[..], free)
    }

    /** The cached counter is the number of free frames. */
    ghost predicate Valid()
      reads this, bitmap
    {
      Sane() && numFree == |free|
    }

    lemma CounterIsClearBits()
      requires Sane()
      ensures free == FreeSet(bitmap[..])
      ensures Valid() <==> numFree == |FreeSet(bitmap[..])|
    {
      MirrorsFreeSet(bitmap[..], free);
    }

    method LockPage(p: nat)
      requires Sane() && p < UINT32
      modifies this`free, bitmap
      ensures Sane() && free == old(free) - {p}
    {
      var byte, bit := p / 8, p % 8;
      if byte < bitmap.Length {
        SetOne(bitmap[..], free, p);
        bitmap[byte] := bitmap[byte] | Mask(bit);
        assert bitmap[..] == WithBit(old(bitmap[..]), p);
        free := free - {p};
      }
    }

    method UnlockPage(p: nat)
      requires Sane() && p < UINT32
      modifies this`free, bitmap
      ensures Sane() && free == if p < TOTAL_PAGES then old(free) + {p} else old(free)
    {
      var byte, bit := p / 8, p % 8;
      if byte < bitmap.Length {
        ClearOne(bitmap[..], free, p);
        bitmap[byte] := bitmap[byte] & !Mask(bit);
        assert bitmap[..] == WithoutBit(old(bitmap[..]), p);
        free := free + {p};
      }
    }

    method IsPageFree(p: nat) returns (isFree: bool)
      requires Sane() && p < UINT32
      ensures isFree <==> p in free
    {
      var byte, bit := p / 8, p % 8;
      if byte < bitmap.Length {
        isFree := bitmap[byte] & Mask(bit) == 0;
        assert isFree <==> BitClear(bitmap[..], p);
      } else {
        isFree := false;
      }
    }

    /** paging_init: 16384 frames are reserved, all others free, and the counter agrees. */
    constructor (bits: array<bv8>)
      requires bits.Length == BITMAP_BYTES
      modifies bits
      ensures Valid() && bitmap == bits
      ensures free == Block(0, TOTAL_PAGES) - Block(0, RESERVED)
      ensures numFree == TOTAL_PAGES - RESERVED
    {
      bitmap := bits;
      numFree := TOTAL_PAGES;
      free := Block(0, TOTAL_PAGES);
      new;
      for i := 0 to bitmap.Length
        invariant numFree == TOTAL_PAGES && free == Block(0, TOTAL_PAGES)
        invariant forall j | 0 <= j < i :: bitmap[j] == 0
      {
        bitmap[i] := 0;
      }
      AllZeroIsFree(bitmap[..]);
      for p := 0 to RESERVED
        invariant Sane() && numFree == TOTAL_PAGES
        invariant free == Block(0, TOTAL_PAGES) - Block(0, p)
      {
        LockPage(p);
      }
      numFree := numFree - RESERVED;
      BlockSize(0, TOTAL_PAGES);
      BlockSize(0, RESERVED);
      assert Block(0, RESERVED) <= Block(0, TOTAL_PAGES);
      assert Block(0, TOTAL_PAGES) == free + Block(0, RESERVED);
    }

    /** alloc_page: the lowest free frame, by its address. */
    method AllocPage() returns (ptr: nat, ghost start: nat)
      requires Valid()
      modifies this, bitmap
      ensures Valid() && Outcome(old(free), 1, ptr, start, free)
      ensures NullMeansNone(old(free), 1, ptr) <==> 0 !in old(free)
    {
      ghost var was := free;
      for i := 0 to TOTAL_PAGES
        invariant Valid() && free == was
        invariant forall q | 0 <= q < i :: q !in was
      {
        var isFree := IsPageFree(i);
        if isFree {
          LowestSingle(was, i);
          LockPage(i);
          numFree := numFree - 1;
          ptr, start := i * PAGE_SIZE, i;
          assert Block(i, 1) == {i};
          NullIff(was, 1, ptr, start, free);
          return;
        }
      }
      NoSingle(was);
      ptr, start := 0, 0;
      NullIff(was, 1, ptr, start, free);
    }

    /** alloc_pages: the lowest run of count free frames, by its address. */
    method AllocPages(count: nat) returns (ptr: nat, ghost start: nat)
      requires Valid() && count < UINT32
      modifies this, bitmap
      ensures Valid()
      ensures count == 0 ==> ptr == 0 && free == old(free)
      ensures count > 0 ==> Outcome(old(free), count, ptr, start, free)
      ensures count > 0 ==> (NullMeansNone(old(free), count, ptr) <==> !RunAt(old(free), 0, count))
    {
      ptr, start := 0, 0;
      if count == 0 {
        return;
      }
      ghost var was := free;
      var found, startPage := SearchRun(count);
      if found {
        MarkRun(startPage, count);
        ptr, start := startPage * PAGE_SIZE, startPage;
      }
      NullIff(was, count, ptr, start, free);
    }

    /** paging.c:168-191 */
    method SearchRun(count: nat) returns (found: bool, startPage: nat)
      requires Valid() && count > 0
      ensures if found then LowestRun(free, startPage, count) else NoRun(free, count)
    {
      var consecutive := 0;
      startPage := 0;
      for i := 0 to TOTAL_PAGES
        invariant 0 <= consecutive < count && Scanned(free, i, count, consecutive, startPage)
      {
        var isFree := IsPageFree(i);
        if isFree {
          if consecutive == 0 {
            startPage := i;
          }
          consecutive := consecutive + 1;
          if consecutive == count {
            LowestFound(free, i, count, startPage);
            return true, startPage;
          }
        } else {
          consecutive := 0;
        }
      }
      found := false;
    }

    /** paging.c:179-182 */
    method MarkRun(startPage: nat, count: nat)
      requires Valid() && RunAt(free, startPage, count)
      modifies this, bitmap
      ensures Valid() && free == old(free) - Block(startPage, count)
    {
      ghost var was := free;
      for j := 0 to count
        invariant Sane() && numFree == old(numFree)
        invariant free == was - Block(startPage, j)
      {
        WithoutNext(was, startPage, j);
        LockPage(startPage + j);
      }
      WithoutBlock(was, startPage, count);
      numFree := numFree - count;
    }

    method FreePage(ptr: nat) returns (e: Error)
      requires Valid() && ptr < UINT32
      modifies this, bitmap
      ensures Valid()
      ensures e == if ptr == 0 || ptr / PAGE_SIZE in old(free) then Invalid else Ok
      ensures free == old(free) + if e == Ok then {ptr / PAGE_SIZE} else {}
    {
      if ptr == 0 {
        return Invalid;
      }
      var page := ptr / PAGE_SIZE;
      if page >= TOTAL_PAGES {
        return Invalid;
      }
      var isFree := IsPageFree(page);
      if isFree {
        return Invalid;
      }
      UnlockPage(page);
      FitsAll(free);
      numFree := numFree + 1;
      e := Ok;
    }

    /**
      free_pages: frames already free are skipped.  The range check adds in 32 bits;
      the counter stays right exactly when that addition does not wrap.
    */
    method FreePages(ptr: nat, count: nat) returns (e: Error)
      requires Valid() && ptr < UINT32 && count < UINT32
      modifies this, bitmap
      ensures Sane()
      ensures var page := ptr / PAGE_SIZE;
              && e == (if ptr == 0 || count == 0 || Add32(page, count) > TOTAL_PAGES then Invalid else Ok)
              && free == (if e == Ok then old(free) + Visited(page, count) else old(free))
              && (e == Ok ==> (Valid() <==> page + count < UINT32))
              && (e == Ok && page + count < UINT32 ==> Visited(page, count) == Block(page, count))
              && (e != Ok ==> Valid())
    {
      if ptr == 0 || count == 0 {
        return Invalid;
      }
      var page := ptr / PAGE_SIZE;
      if Add32(page, count) > TOTAL_PAGES {
        return Invalid;
      }
      FreeEach(page, count);
      FitsAll(old(free));
      RoundsFree(old(free), old(numFree), page, count);
      RoundsCount(old(free), old(numFree), page, count);
      FitsAll(free);
      CounterRight(page, count, free);
      e := Ok;
    }

    /** paging.c:232-237 */
    method FreeEach(page: nat, count: nat)
      requires Sane() && page < TOTAL_PAGES && count < UINT32
      modifies this, bitmap
      ensures Sane() && (free, numFree) == Rounds(old(free), old(numFree), page, count)
    {
      for i := 0 to count
        invariant Sane() && (free, numFree) == Rounds(old(free), old(numFree), page, i)
      {
        FreeOne(Add32(page, i));
      }
    }

    /** paging.c:233-236 */
    method FreeOne(p: nat)
      requires Sane() && p < UINT32
      modifies this, bitmap
      ensures Sane() && free == if p < TOTAL_PAGES then old(free) + {p} else old(free)
      ensures numFree == if p in old(free) then old(numFree) else Add32(old(numFree), 1)
    {
      var isFree := IsPageFree(p);
      if !isFree {
        UnlockPage(p);
        numFree := Add32(numFree, 1);
      }
    }

    method CallAlloc(c: nat, n: nat, ghost a: Share) returns (ptr: nat)
      requires Valid() && free == a.free && Partition(a) && n < UINT32
      modifies this, bitmap
      ensures Valid() && free == Take(a, c, n).free && ptr == Grant(a.free, n)
    {
      ghost var start;
      ptr, start := AllocPages(n);
      if n > 0 {
        OutcomeIsTake(a, c, n, ptr, start, free);
      } else {
        TakeNone(a, c);
      }
    }

    method CallFree(c: nat, start: nat, n: nat, ghost a: Share) returns (e: Error)
      requires Valid() && free == a.free && Partition(a) && start < TOTAL_PAGES && n < UINT32 && Holds(a, c, start, n)
      modifies this, bitmap
      ensures Valid() && free == Give(a, start, n).free && e == if n == 0 then Invalid else Ok
    {
      if n == 0 {
        GiveNone(a, start);
        e := FreePages(start * PAGE_SIZE, n);
        return;
      }
      HeldIsFreeable(a, c, start, n);
      var ptr := start * PAGE_SIZE;
      FrameOf(ptr, start);
      e := FreePages(ptr, n);
    }

    /** One call of a client; op is legal in the sharing a. */
    method Call(op: Op, ghost a: Share) returns (answer: Answer)
      requires Valid() && free == a.free && Partition(a) && Legal(a, op)
      modifies this, bitmap
      ensures Valid() && free == Apply(a, op).free && answer == Reply(a, op)
    {
      match op {
        case Alloc(c) =>
          var ptr, start := AllocPage();
          OutcomeIsTake(a, c, 1, ptr, start, free);
          answer := Address(ptr);
        case AllocMany(c, n) =>
          var ptr := CallAlloc(c, n, a);
          answer := Address(ptr);
        case Release(c, frame) =>
          HeldIsFreeable(a, c, frame, 1);
          assert Block(frame, 1) == {frame};
          var ptr := frame * PAGE_SIZE;
          FrameOf(ptr, frame);
          var e := FreePage(ptr);
          answer := Code(e);
        case ReleaseMany(c, start, n) =>
          var e := CallFree(c, start, n, a);
          answer := Code(e);
      }
    }

    /**
      Every run of calls in which clients free only what they hold: the answers and
      the free frames are those of the sharing, whose grants never overlap, and the
      counter is always what the reserved and the held frames leave.
    */
    method RunCalls(ops: seq<Op>, ghost a: Share) returns (answers: seq<Answer>)
      requires Valid() && free == a.free && Partition(a) && LegalRun(a, ops)
      modifies this, bitmap
      ensures Valid() && free == Run(a, ops).free && Partition(Run(a, ops))
      ensures answers == Replies(a, ops)
      ensures numFree + |Run(a, ops).held| + RESERVED == TOTAL_PAGES
      decreases |ops|
    {
      if ops == [] {
        PartitionSizes(a);
        return [];
      }
      ApplyKeeps(a, ops[0]);
      var first := Call(ops[0], a);
      var rest := RunCalls(ops[1..], Apply(a, ops[0]));
      answers := [first] + rest;
    }
  }

  // ---------------------------------------------------------------------- two runs

  /** free_page of address 1 frees frame 0; alloc_page then grants it, and its answer is the null pointer. */
  method NullIsGranted(bits: array<bv8>) returns (a: Allocator, e: Error, ptr: nat, ghost before: set<nat>)
    requires bits.Length == BITMAP_BYTES
    modifies bits
    ensures e == Ok && ptr == 0 && !NullMeansNone(before, 1, ptr)
    ensures a.Valid() && 0 in before && a.free == before - {0}
  {
    a := new Allocator(bits);
    e := a.FreePage(1);
    before := a.free;
    ghost var start;
    ptr, start := a.AllocPage();
    LowestSingle(before, 0);
    assert start == 0;
    assert Block(0, 1) == {0};
  }

  /** After paging_init, free_pages(4096, 0xFFFFFFFF) passes the range check and ruins the counter. */
  method WrapRuinsCounter(bits: array<bv8>) returns (a: Allocator, e: Error)
    requires bits.Length == BITMAP_BYTES
    modifies bits
    ensures e == Ok && a.Sane() && a.numFree != |a.free|
  {
    a := new Allocator(bits);
    e := a.FreePages(4096, 0xFFFF_FFFF);
  }
}
