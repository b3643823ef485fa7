/**
  The paging lock under arbitrary preemption.  map_page calls alloc_page while it
  holds the lock that alloc_page takes, and the mutex is not reentrant.
*/
module PagingLock {
  import opened Basics
  import opened Locks
  import opened Frames

  /** Where a task is inside paging.c; pd is the directory index of the page being mapped. */
  datatype Pc =
    | Idle
    | MapLock(pd: nat)                            // paging.c:256
    | MapTest(pd: nat)                            // paging.c:258
    | NestedLock(pd: nat)                         // paging.c:259, then 145
    | NestedSearch(pd: nat)                       // paging.c:147-155
    | NestedUnlock(pd: nat, page: Option<nat>)    // paging.c:152 or 157
    | MapStore(pd: nat)                           // paging.c:264-265
    | MapWrite(pd: nat)                           // paging.c:268-271
    | MapUnlock                                   // paging.c:273
    | MapFail                                     // paging.c:261
    | AllocLock(thenMap: bool)                    // paging.c:145; thenMap for alloc_page_user and alloc_page_kernel
    | AllocSearch(thenMap: bool)                  // paging.c:147-155
    | AllocUnlock(thenMap: bool, page: Option<nat>) // paging.c:152 or 157
    | OtherLock                                   // alloc_pages, free_page, free_pages, unmap_page, the statistics
    | OtherBody
    | OtherUnlock

  /** The lock, the indices i with page_tables[i] non-null, the free frames, and the tasks. */
  datatype World = World(lock: Mutex, tables: set<nat>, free: set<nat>, pc: map<nat, Pc>)

  ghost predicate Init(w: World) {
    w.lock == UNLOCKED && w.tables == Block(0, TABLES) && forall t | t in w.pc :: w.pc[t] == Idle
  }

  /** The search of alloc_page: the lowest free frame is taken, if there is one. */
  ghost predicate Searches(free: set<nat>, free': set<nat>, page: Option<nat>) {
    match page
    case None => free' == free == {}
    case Some(f) => f in free && free' == free - {f} && forall g | g in free :: f <= g
  }

  ghost predicate Starts(p: Pc) {
    p.MapLock? || p.AllocLock? || p.OtherLock?
  }

  /** One round of mutex_lock; the task goes on to next if it got the lock. */
  ghost predicate TriesLock(a: World, b: World, t: nat, next: Pc)
    requires t in a.pc && t in b.pc
  {
    b == a.(pc := b.pc, lock := Attempt(a.lock, t)) && b.pc[t] == if a.lock.locked then a.pc[t] else next
  }

  /** Task t makes its next step: everything but t's own pc, the lock, tables and free is unchanged. */
  ghost predicate Step(a: World, b: World, t: nat) {
    && t in a.pc && t in b.pc && b.pc == a.pc[t := b.pc[t]]
    && var p, p' := a.pc[t], b.pc[t];
       match p
       case Idle => b == a.(pc := b.pc) && Starts(p')
       case MapLock(pd) => TriesLock(a, b, t, MapTest(pd))
       case MapTest(pd) => b == a.(pc := b.pc) && p' == if pd in a.tables then MapWrite(pd) else NestedLock(pd)
       case NestedLock(pd) => TriesLock(a, b, t, NestedSearch(pd))
       case NestedSearch(pd) =>
         && p'.NestedUnlock? && p'.pd == pd && b == a.(pc := b.pc, free := b.free)
         && Searches(a.free, b.free, p'.page)
       case NestedUnlock(pd, page) =>
         && b == a.(pc := b.pc, lock := Unlock(a.lock, t))
         && p' == if page.Some? && page.value != 0 then MapStore(pd) else MapFail
       case MapStore(pd) => b == a.(pc := b.pc, tables := a.tables + {pd}) && p' == MapWrite(pd)
       case MapWrite(_) => b == a.(pc := b.pc) && p' == MapUnlock
       case MapUnlock => b == a.(pc := b.pc, lock := Unlock(a.lock, t)) && p' == Idle
       case MapFail => b == a.(pc := b.pc, lock := Unlock(a.lock, t)) && p' == Idle
       case AllocLock(thenMap) => TriesLock(a, b, t, AllocSearch(thenMap))
       case AllocSearch(thenMap) =>
         && p'.AllocUnlock? && p'.thenMap == thenMap && b == a.(pc := b.pc, free := b.free)
         && Searches(a.free, b.free, p'.page)
       case AllocUnlock(thenMap, page) =>
         && b == a.(pc := b.pc, lock := Unlock(a.lock, t))
         && p' == if thenMap && page.Some? && page.value != 0 then MapLock(page.value / ENTRIES) else Idle
       case OtherLock => TriesLock(a, b, t, OtherBody)
       case OtherBody => b == a.(pc := b.pc, free := b.free) && p' == OtherUnlock
       case OtherUnlock => b == a.(pc := b.pc, lock := Unlock(a.lock, t)) && p' == Idle
  }

  // -------------------------------------------------------------------- invariant

  predicate Holding(p: Pc) {
    || p.MapTest? || p.NestedLock? || p.MapWrite? || p.MapUnlock?
    || p.AllocSearch? || p.AllocUnlock? || p.OtherBody? || p.OtherUnlock?
  }

  /** Points of map_page behind the nested alloc_page. */
  predicate BehindNested(p: Pc) {
    p.NestedSearch? || p.NestedUnlock? || p.MapStore? || p.MapFail?
  }

  ghost predicate HeldBySomebody(w: World) {
    if w.lock.locked then w.lock.owner.Some? && w.lock.owner.value in w.pc && Holding(w.pc[w.lock.owner.value])
    else w.lock == UNLOCKED
  }

  ghost predicate Inv(w: World) {
    && w.tables == Block(0, TABLES)
    && (forall t | t in w.pc && Holding(w.pc[t]) :: w.lock == Mutex(true, Some(t)))
    && HeldBySomebody(w)
    && (forall t | t in w.pc :: !BehindNested(w.pc[t]))
    && (forall t | t in w.pc && w.pc[t].NestedLock? :: w.pc[t].pd >= TABLES)
  }

  lemma StepInv(a: World, b: World, t: nat)
    requires Inv(a) && Step(a, b, t)
    ensures Inv(b)
  {
  }

  ghost predicate Run(run: seq<World>, who: seq<nat>) {
    && |run| == |who| + 1 && Init(run[0])
    && forall i, j | 0 <= i < j == i + 1 < |run| :: Step(run[i], run[j], who[i])
  }

  lemma {:induction false} RunInv(run: seq<World>, who: seq<nat>, k: nat)
    requires Run(run, who) && k < |run|
    ensures Inv(run[k])
  {
    if k > 0 {
      RunInv(run, who, k - 1);
      assert Step(run[k - 1], run[k], who[k - 1]);
      StepInv(run[k - 1], run[k], who[k - 1]);
    }
  }

  // ---------------------------------------------------------------------- theorems

  /** In every reachable state page_tables[i] is non-null exactly for i < 16. */
  lemma TablesNeverGrow(run: seq<World>, who: seq<nat>, k: nat, i: nat)
    requires Run(run, who) && k < |run|
    ensures i in run[k].tables <==> i < TABLES
  {
    RunInv(run, who, k);
  }

  /** In every reachable state the lock is locked exactly while its owner is in a locked region. */
  lemma LockIsHeldInside(run: seq<World>, who: seq<nat>, k: nat)
    requires Run(run, who) && k < |run|
    ensures forall t | t in run[k].pc :: Holding(run[k].pc[t]) <==> run[k].lock == Mutex(true, Some(t))
    ensures run[k].lock.locked ==> exists t :: t in run[k].pc && Holding(run[k].pc[t])
  {
    RunInv(run, who, k);
  }

  /** Inside map_page, on its way to an absent table or spinning on its own lock. */
  predicate Doomed(p: Pc, pd: nat) {
    p == MapLock(pd) || p == MapTest(pd) || p == NestedLock(pd)
  }

  lemma DoomedStep(a: World, b: World, s: nat, t: nat, pd: nat)
    requires Inv(a) && Step(a, b, s) && t in a.pc && pd >= TABLES && Doomed(a.pc[t], pd)
    ensures t in b.pc && Doomed(b.pc[t], pd)
    ensures a.pc[t] == NestedLock(pd) ==> b.pc[t] == NestedLock(pd) && b.lock == a.lock
  {
  }

  /** map_page on a page without table never returns, whether or not a free frame remains. */
  lemma {:induction false} MapNeverReturns(run: seq<World>, who: seq<nat>, t: nat, pd: nat, i: nat, k: nat)
    requires Run(run, who) && i <= k < |run| && pd >= TABLES
    requires t in run[i].pc && Doomed(run[i].pc[t], pd)
    ensures t in run[k].pc && Doomed(run[k].pc[t], pd)
    decreases k
  {
    if k > i {
      MapNeverReturns(run, who, t, pd, i, k - 1);
      RunInv(run, who, k - 1);
      assert Step(run[k - 1], run[k], who[k - 1]);
      DoomedStep(run[k - 1], run[k], who[k - 1], t, pd);
    }
  }

  /** Once a task spins in the nested call, the paging lock is held forever. */
  lemma {:induction false} LockHeldForever(run: seq<World>, who: seq<nat>, t: nat, pd: nat, i: nat, k: nat)
    requires Run(run, who) && i <= k < |run| && pd >= TABLES
    requires t in run[i].pc && run[i].pc[t] == NestedLock(pd)
    ensures t in run[k].pc && run[k].pc[t] == NestedLock(pd)
    ensures run[k].lock == Mutex(true, Some(t))
    decreases k
  {
    if k == i {
      RunInv(run, who, i);
    } else {
      LockHeldForever(run, who, t, pd, i, k - 1);
      RunInv(run, who, k - 1);
      assert Step(run[k - 1], run[k], who[k - 1]);
      DoomedStep(run[k - 1], run[k], who[k - 1], t, pd);
    }
  }

  /**
    alloc_page_user and alloc_page_kernel never return once alloc_page has given
    them a frame at or above 64 MB: they are Idle at no later point.
  */
  lemma {:induction false} HighFrameNeverReturns(run: seq<World>, who: seq<nat>, t: nat, f: nat, i: nat, k: nat)
    requires Run(run, who) && i <= k < |run| && f >= RESERVED
    requires t in run[i].pc && run[i].pc[t] == AllocUnlock(true, Some(f))
    ensures t in run[k].pc
    ensures run[k].pc[t] == AllocUnlock(true, Some(f)) || Doomed(run[k].pc[t], f / ENTRIES)
    decreases k
  {
    if k > i {
      HighFrameNeverReturns(run, who, t, f, i, k - 1);
      assert f / ENTRIES >= TABLES;
      RunInv(run, who, k - 1);
      assert Step(run[k - 1], run[k], who[k - 1]);
      if Doomed(run[k - 1].pc[t], f / ENTRIES) {
        DoomedStep(run[k - 1], run[k], who[k - 1], t, f / ENTRIES);
      }
    }
  }

  // ---------------------------------------------------------------- calls that return

  /** How many steps a task that holds the lock still makes before it gives it back. */
  function Rank(p: Pc): nat {
    if p.MapTest? then 3
    else if p.MapWrite? || p.AllocSearch? || p.OtherBody? then 2
    else if p.MapUnlock? || p.AllocUnlock? || p.OtherUnlock? then 1
    else 0
  }

  lemma OwnStep(a: World, b: World, t: nat)
    requires Inv(a) && Step(a, b, t)
    ensures !a.lock.locked && a.pc[t].MapLock? ==> b.pc[t] == MapTest(a.pc[t].pd)
    ensures !a.lock.locked && (a.pc[t].AllocLock? || a.pc[t].OtherLock?) ==> Rank(b.pc[t]) == 2
    ensures Holding(a.pc[t]) && (a.pc[t].MapTest? || a.pc[t].NestedLock? ==> a.pc[t].pd < TABLES) ==>
              Rank(b.pc[t]) == Rank(a.pc[t]) - 1 && (Holding(b.pc[t]) <==> Rank(b.pc[t]) > 0)
  {
  }

  /**
    A missing table is the only reason to hang: a task that gets the lock and is not
    on its way to a missing table never waits, and each of its own steps takes it
    one nearer to giving the lock back.
  */
  lemma OthersReturn(run: seq<World>, who: seq<nat>, k: nat)
    requires Run(run, who) && k < |who| && who[k] in run[k].pc && who[k] in run[k + 1].pc
    ensures var p, p' := run[k].pc[who[k]], run[k + 1].pc[who[k]];
            && (!run[k].lock.locked && p.MapLock? ==> p' == MapTest(p.pd))
            && (!run[k].lock.locked && (p.AllocLock? || p.OtherLock?) ==> Rank(p') == 2)
            && (Holding(p) && (p.MapTest? || p.NestedLock? ==> p.pd < TABLES) ==>
                  Rank(p') == Rank(p) - 1 && (Holding(p') <==> Rank(p') > 0))
  {
    RunInv(run, who, k);
    assert Step(run[k], run[k + 1], who[k]);
    OwnStep(run[k], run[k + 1], who[k]);
  }

  lemma {:induction false} LowestMember(free: set<nat>, x: nat) returns (f: nat)
    requires x in free
    ensures f in free && forall g | g in free :: f <= g
    decreases x
  {
    if y: nat :| y in free && y < x {
      f := LowestMember(free, y);
    } else {
      f := x;
    }
  }

  /** The search grants what alloc_page grants: the lowest free frame, or none iff none is free. */
  lemma SearchIsGrant(free: set<nat>, free': set<nat>, page: Option<nat>)
    requires Searches(free, free', page) && forall q | q in free :: q < TOTAL_PAGES
    ensures page.None? ==> NoRun(free, 1) && free' == free
    ensures page.Some? ==> LowestRun(free, page.value, 1) && free' == free - Block(page.value, 1)
  {
    if page.Some? {
      assert Block(page.value, 1) == {page.value};
      forall s: nat | s < page.value ensures !RunAt(free, s, 1) {
        assert s !in free;
      }
    } else {
      forall s: nat ensures !RunAt(free, s, 1) {
        assert s !in free;
      }
    }
  }

  lemma SearchEnds(free: set<nat>) returns (free': set<nat>, page: Option<nat>)
    ensures Searches(free, free', page)
  {
    if x :| x in free {
      var f := LowestMember(free, x);
      free', page := free - {f}, Some(f);
    } else {
      free', page := free, None;
    }
  }

  /** Every task can always make a step. */
  lemma CanStep(a: World, t: nat) returns (b: World)
    requires t in a.pc
    ensures Step(a, b, t)
  {
    var p := a.pc[t];
    var free', page := SearchEnds(a.free);
    var tried := a.(lock := Attempt(a.lock, t));
    var freed := a.(lock := Unlock(a.lock, t));
    match p
    case Idle => b := a.(pc := a.pc[t := OtherLock]);
    case MapLock(pd) => b := tried.(pc := a.pc[t := if a.lock.locked then p else MapTest(pd)]);
    case MapTest(pd) => b := a.(pc := a.pc[t := if pd in a.tables then MapWrite(pd) else NestedLock(pd)]);
    case NestedLock(pd) => b := tried.(pc := a.pc[t := if a.lock.locked then p else NestedSearch(pd)]);
    case NestedSearch(pd) => b := a.(pc := a.pc[t := NestedUnlock(pd, page)], free := free');
    case NestedUnlock(pd, f) =>
      b := freed.(pc := a.pc[t := if f.Some? && f.value != 0 then MapStore(pd) else MapFail]);
    case MapStore(pd) => b := a.(pc := a.pc[t := MapWrite(pd)], tables := a.tables + {pd});
    case MapWrite(_) => b := a.(pc := a.pc[t := MapUnlock]);
    case MapUnlock => b := freed.(pc := a.pc[t := Idle]);
    case MapFail => b := freed.(pc := a.pc[t := Idle]);
    case AllocLock(thenMap) => b := tried.(pc := a.pc[t := if a.lock.locked then p else AllocSearch(thenMap)]);
    case AllocSearch(thenMap) => b := a.(pc := a.pc[t := AllocUnlock(thenMap, page)], free := free');
    case AllocUnlock(thenMap, f) =>
      b := freed.(pc := a.pc[t := if thenMap && f.Some? && f.value != 0 then MapLock(f.value / ENTRIES) else Idle]);
    case OtherLock => b := tried.(pc := a.pc[t := if a.lock.locked then p else OtherBody]);
    case OtherBody => b := a.(pc := a.pc[t := OtherUnlock]);
    case OtherUnlock => b := freed.(pc := a.pc[t := Idle]);
  }
}
