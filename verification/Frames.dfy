/** Sets of physical frames, and clients that share the frame allocator of paging.c. */
module Frames {
  import opened Basics

  const PAGE_SIZE: nat := 4096
  const TOTAL_PAGES: nat := 1024 * 1024
  const ENTRIES: nat := 1024 // per page directory and per page table
  const TABLES: nat := 16 // NUM_PAGE_TABLES, one for each 4 MB below 64 MB
  const RESERVED: nat := TABLES * ENTRIES // frames below 64 MB

  /** uint32_t addition. */
  function Add32(a: nat, b: nat): nat {
    if a + b < UINT32 then a + b else a + b - UINT32
  }

  predicate InBlock(start: nat, n: nat, q: nat) {
    start <= q < start + n
  }

  /** The n frames from start on. */
  ghost function Block(start: nat, n: nat): (b: set<nat>)
    ensures forall q: nat :: q in b <==> start <= q < start + n
  {
    set q: nat | q < start + n && InBlock(start, n, q)
  }

  lemma {:induction false} BlockSize(start: nat, n: nat)
    ensures |Block(start, n)| == n
  {
    if n > 0 {
      BlockSize(start, n - 1);
      assert Block(start, n) == Block(start, n - 1) + {start + n - 1};
    }
  }

  /** n consecutive free frames from start on. */
  ghost predicate RunAt(free: set<nat>, start: nat, n: nat) {
    start + n <= TOTAL_PAGES && forall q | start <= q < start + n :: q in free
  }

  ghost predicate LowestRun(free: set<nat>, start: nat, n: nat) {
    RunAt(free, start, n) && forall s: nat | s < start :: !RunAt(free, s, n)
  }

  ghost predicate NoRun(free: set<nat>, n: nat) {
    forall s: nat :: !RunAt(free, s, n)
  }

  /** If there is a run at all there is a lowest one. */
  lemma {:induction false} LowestExists(free: set<nat>, n: nat, start: nat)
    requires RunAt(free, start, n)
    ensures exists low: nat :: LowestRun(free, low, n)
    decreases start
  {
    if s: nat :| s < start && RunAt(free, s, n) {
      LowestExists(free, n, s);
    } else {
      assert LowestRun(free, start, n);
    }
  }

  ghost function Lowest(free: set<nat>, n: nat): (start: nat)
    requires !NoRun(free, n)
    ensures LowestRun(free, start, n)
  {
    var s :| RunAt(free, s, n);
    LowestExists(free, n, s);
    var start :| LowestRun(free, start, n);
    start
  }

  // ----------------------------------------------------------------------- clients

  /** The free frames, and which client holds each frame that was granted. */
  datatype Share = Share(free: set<nat>, held: map<nat, nat>)

  /** alloc_page, alloc_pages, free_page and free_pages; frames are given back by number. */
  datatype Op = Alloc(client: nat) | AllocMany(client: nat, n: nat)
              | Release(client: nat, frame: nat) | ReleaseMany(client: nat, start: nat, n: nat)

  datatype Answer = Address(ptr: nat) | Code(e: Error)

  ghost predicate Holds(s: Share, c: nat, start: nat, n: nat) {
    forall q | q in Block(start, n) :: q in s.held && s.held[q] == c
  }

  /** Clients give back only frames that they hold, whole grants or parts of them. */
  ghost predicate Legal(s: Share, op: Op) {
    match op
    case Alloc(_) => true
    case AllocMany(_, n) => n < UINT32
    case Release(c, frame) => Holds(s, c, frame, 1)
    case ReleaseMany(c, start, n) => start < TOTAL_PAGES && n < UINT32 && Holds(s, c, start, n)
  }

  ghost function Granted(a: Share, c: nat, start: nat, n: nat): Share {
    Share(a.free - Block(start, n), a.held + (map q | q in Block(start, n) :: c))
  }

  ghost function Take(a: Share, c: nat, n: nat): Share {
    if NoRun(a.free, n) then a else Granted(a, c, Lowest(a.free, n), n)
  }

  ghost function Give(a: Share, start: nat, n: nat): Share {
    Share(a.free + Block(start, n), a.held - Block(start, n))
  }

  ghost function Apply(a: Share, op: Op): Share {
    match op
    case Alloc(c) => Take(a, c, 1)
    case AllocMany(c, n) => Take(a, c, n)
    case Release(_, frame) => Give(a, frame, 1)
    case ReleaseMany(_, start, n) => Give(a, start, n)
  }

  /** The address granted, null for none and for 0 frames. */
  ghost function Grant(free: set<nat>, n: nat): nat {
    if n == 0 || NoRun(free, n) then 0 else Lowest(free, n) * PAGE_SIZE
  }

  /** What the call returns; giving back what one holds is never refused, except a count of 0. */
  ghost function Reply(a: Share, op: Op): Answer {
    match op
    case Alloc(_) => Address(Grant(a.free, 1))
    case AllocMany(_, n) => Address(Grant(a.free, n))
    case Release(_, _) => Code(Ok)
    case ReleaseMany(_, _, n) => Code(if n == 0 then Invalid else Ok)
  }

  ghost predicate LegalRun(a: Share, ops: seq<Op>)
    decreases |ops|
  {
    ops == [] || (Legal(a, ops[0]) && LegalRun(Apply(a, ops[0]), ops[1..]))
  }

  ghost function Run(a: Share, ops: seq<Op>): Share
    decreases |ops|
  {
    if ops == [] then a else Run(Apply(a, ops[0]), ops[1..])
  }

  ghost function Replies(a: Share, ops: seq<Op>): seq<Answer>
    decreases |ops|
  {
    if ops == [] then [] else [Reply(a, ops[0])] + Replies(Apply(a, ops[0]), ops[1..])
  }

  /** After paging_init. */
  ghost function Initial(): Share {
    Share(Block(0, TOTAL_PAGES) - Block(0, RESERVED), map[])
  }

  /** Free, reserved and held frames partition the 2^20 frames. */
  ghost predicate Partition(s: Share) {
    && s.free + Block(0, RESERVED) + s.held.Keys == Block(0, TOTAL_PAGES)
    && s.free !! Block(0, RESERVED) && s.free !! s.held.Keys && s.held.Keys !! Block(0, RESERVED)
  }

  lemma InitialPartition()
    ensures Partition(Initial())
  {
    assert Block(0, RESERVED) <= Block(0, TOTAL_PAGES);
  }

  /** A grant is disjoint from everything held and from the reserved frames, and never starts at frame 0. */
  lemma GrantIsFresh(s: Share, start: nat, n: nat)
    requires Partition(s) && RunAt(s.free, start, n) && n > 0
    ensures Block(start, n) !! s.held.Keys && Block(start, n) !! Block(0, RESERVED)
    ensures start >= RESERVED
  {
    assert Block(start, n) <= s.free;
    assert start in Block(start, n);
    assert start !in Block(0, RESERVED);
  }

  lemma TakeKeeps(a: Share, c: nat, n: nat)
    requires Partition(a)
    ensures Partition(Take(a, c, n))
  {
  }

  lemma GiveKeeps(a: Share, c: nat, start: nat, n: nat)
    requires Partition(a) && Holds(a, c, start, n)
    ensures Partition(Give(a, start, n))
  {
  }

  lemma ApplyKeeps(a: Share, op: Op)
    requires Partition(a) && Legal(a, op)
    ensures Partition(Apply(a, op))
  {
    match op
    case Alloc(c) => TakeKeeps(a, c, 1);
    case AllocMany(c, n) => TakeKeeps(a, c, n);
    case Release(c, frame) => GiveKeeps(a, c, frame, 1);
    case ReleaseMany(c, start, n) => GiveKeeps(a, c, start, n);
  }

  /**
    In every run in which clients free only what they hold, free, reserved and
    held frames stay a partition; so nobody is ever granted a frame that is
    reserved or that somebody holds.
  */
  lemma {:induction false} ClientsAreIsolated(a: Share, ops: seq<Op>)
    requires Partition(a) && LegalRun(a, ops)
    ensures Partition(Run(a, ops))
    decreases |ops|
  {
    if ops != [] {
      ApplyKeeps(a, ops[0]);
      ClientsAreIsolated(Apply(a, ops[0]), ops[1..]);
    }
  }

  ghost predicate Releases(op: Op, q: nat) {
    match op
    case Alloc(_) => false
    case AllocMany(_, _) => false
    case Release(_, frame) => q == frame
    case ReleaseMany(_, start, n) => q in Block(start, n)
  }

  lemma TakeHolder(a: Share, c: nat, n: nat, q: nat)
    requires Partition(a) && q in a.held
    ensures q in Take(a, c, n).held && Take(a, c, n).held[q] == a.held[q]
  {
    if n > 0 && !NoRun(a.free, n) {
      GrantIsFresh(a, Lowest(a.free, n), n);
    }
  }

  lemma ApplyHolder(a: Share, op: Op, q: nat)
    requires Partition(a) && Legal(a, op) && q in a.held && (Releases(op, q) ==> op.client != a.held[q])
    ensures q in Apply(a, op).held && Apply(a, op).held[q] == a.held[q]
  {
    match op
    case Alloc(c) => TakeHolder(a, c, 1, q);
    case AllocMany(c, n) => TakeHolder(a, c, n, q);
    case Release(c, frame) => assert frame in Block(frame, 1);
    case ReleaseMany(c, start, n) =>
  }

  /** A client keeps every frame it holds until it gives it back itself, whatever the others do. */
  lemma {:induction false} HolderKeeps(a: Share, ops: seq<Op>, q: nat)
    requires Partition(a) && LegalRun(a, ops) && q in a.held
    requires forall op | op in ops && Releases(op, q) :: op.client != a.held[q]
    ensures q in Run(a, ops).held && Run(a, ops).held[q] == a.held[q]
    decreases |ops|
  {
    if ops != [] {
      var b := Apply(a, ops[0]);
      assert ops[0] in ops;
      ApplyHolder(a, ops[0], q);
      ApplyKeeps(a, ops[0]);
      assert forall op | op in ops[1..] :: op in ops;
      HolderKeeps(b, ops[1..], q);
    }
  }

  lemma PartitionSizes(s: Share)
    requires Partition(s)
    ensures |s.free| + |s.held| + RESERVED == TOTAL_PAGES
  {
    BlockSize(0, RESERVED);
    BlockSize(0, TOTAL_PAGES);
    assert |s.held| == |s.held.Keys|;
    assert |s.free + Block(0, RESERVED) + s.held.Keys| == |s.free| + |Block(0, RESERVED)| + |s.held.Keys|;
  }

  /** Frames are conserved: free plus held plus reserved is always the total. */
  lemma FramesConserved(ops: seq<Op>)
    requires LegalRun(Initial(), ops)
    ensures var s := Run(Initial(), ops);
            |s.free| + |s.held| + RESERVED == TOTAL_PAGES
  {
    InitialPartition();
    ClientsAreIsolated(Initial(), ops);
    PartitionSizes(Run(Initial(), ops));
  }
}
