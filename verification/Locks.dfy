/**
  Mutexes and semaphores (mutex.c, semaphore.c).  Every cli..sti region is one
  atomic step; the retry loops of mutex_lock and sem_wait are runs of such steps.
*/
module Locks {
  import opened Basics

  // ----------------------------------------------------------------------- mutex

  datatype Mutex = Mutex(locked: bool, owner: Option<nat>)

  const UNLOCKED := Mutex(false, None)

  /** mutex.c:11-18 by task me: the mutex is taken if it is unlocked, whoever asks. */
  function Attempt(m: Mutex, me: nat): Mutex {
    if m.locked then m else Mutex(true, Some(me))
  }

  /** mutex.c:24-29 by task me: only the owner's call has an effect. */
  function Unlock(m: Mutex, me: nat): Mutex {
    if m.locked && m.owner == Some(me) then UNLOCKED else m
  }

  /** A mutex_t in place. */
  class MutexCell {
    var locked: nat
    var owner: Option<nat>

    function State(): Mutex
      reads this
    {
      Mutex(locked != 0, owner)
    }

    constructor ()
      ensures State() == UNLOCKED
    {
      locked := 0;
      owner := None;
    }

    /** One round of the loop in mutex_lock. */
    method TryLock(me: nat) returns (taken: bool)
      modifies this
      ensures State() == Attempt(old(State()), me)
      ensures taken <==> !old(State()).locked
      ensures State() == if taken then Mutex(true, Some(me)) else old(State())
    {
      taken := false;
      if locked == 0 {
        locked := 1;
        owner := Some(me);
        taken := true;
      }
    }

    method Release(me: nat)
      modifies this
      ensures State() == Unlock(old(State()), me)
      ensures State() == if old(State()) == Mutex(true, Some(me)) then Mutex(false, None) else old(State())
    {
      if locked != 0 && owner == Some(me) {
        locked := 0;
        owner := None;
      }
    }
  }

  // ----------------------------------------------------------- mutual exclusion

  /** Tasks that bracket their work by mutex_lock and mutex_unlock. */
  datatype Region = Outside | Waiting | Inside

  datatype Regions = Regions(m: Mutex, at: map<nat, Region>)

  /** Task t calls mutex_lock, retries, or calls mutex_unlock at the end of its work. */
  ghost predicate RegionStep(a: Regions, b: Regions, t: nat) {
    && t in a.at
    && match a.at[t]
       case Outside => b == a.(at := a.at[t := Waiting])
       case Waiting => b == Regions(Attempt(a.m, t), if a.m.locked then a.at else a.at[t := Inside])
       case Inside => b == Regions(Unlock(a.m, t), a.at[t := Outside])
  }

  ghost predicate RegionRun(run: seq<Regions>, who: seq<nat>) {
    && |run| == |who| + 1 && run[0].m == UNLOCKED && (forall t | t in run[0].at :: run[0].at[t] == Outside)
    && forall i, j | 0 <= i < j == i + 1 < |run| :: RegionStep(run[i], run[j], who[i])
  }

  /** In every interleaving the mutex is locked exactly while one task is inside, and that task owns it. */
  lemma {:induction false} MutexExcludes(run: seq<Regions>, who: seq<nat>, k: nat)
    requires RegionRun(run, who) && k < |run|
    ensures forall t | t in run[k].at :: run[k].at[t] == Inside <==> run[k].m == Mutex(true, Some(t))
    ensures run[k].m.locked ==> run[k].m.owner.Some? && run[k].m.owner.value in run[k].at
  {
    if k > 0 {
      MutexExcludes(run, who, k - 1);
      assert RegionStep(run[k - 1], run[k], who[k - 1]);
    }
  }

  // ------------------------------------------------------------- not reentrant

  /** Which tasks are inside the retry loop of mutex_lock on one mutex. */
  datatype LockWorld = LockWorld(m: Mutex, waiting: set<nat>)

  /** Any task does anything it can do to the mutex: call mutex_lock, retry, or call mutex_unlock. */
  ghost predicate LockStep(a: LockWorld, b: LockWorld, t: nat) {
    if t in a.waiting then
      && b.m == Attempt(a.m, t)
      && b.waiting == if a.m.locked then a.waiting else a.waiting - {t}
    else
      || (b.m == a.m && b.waiting == a.waiting + {t})
      || (b.m == Unlock(a.m, t) && b.waiting == a.waiting)
  }

  ghost predicate SelfDeadlocked(a: LockWorld, w: nat) {
    a.m.locked && a.m.owner == Some(w) && w in a.waiting
  }

  ghost predicate LockRun(run: seq<LockWorld>, who: seq<nat>) {
    && |run| == |who| + 1
    && forall i, j | 0 <= i < j == i + 1 < |run| :: LockStep(run[i], run[j], who[i])
  }

  /** A task that waits for a mutex it owns waits forever, whatever all tasks do. */
  lemma {:induction false} SelfDeadlockForever(run: seq<LockWorld>, who: seq<nat>, w: nat, k: nat)
    requires LockRun(run, who) && SelfDeadlocked(run[0], w) && k < |run|
    ensures SelfDeadlocked(run[k], w) && run[k].m == run[0].m
  {
    if k > 0 {
      SelfDeadlockForever(run, who, w, k - 1);
      assert LockStep(run[k - 1], run[k], who[k - 1]);
    }
  }

  // ------------------------------------------------------------------- semaphore

  /** count is an int32_t and max an uint32_t. */
  datatype Sem = Sem(count: int, max: nat)

  function ToUnsigned(count: int): int {
    if count >= 0 then count else count + UINT32
  }

  function Increment(count: int): int {
    if count == 0x7FFF_FFFF then -0x8000_0000 else count + 1
  }

  /** semaphore.c:32-33; a negative count is compared as a large unsigned number. */
  function Post(s: Sem): Sem {
    if ToUnsigned(s.count) < s.max then s.(count := Increment(s.count)) else s
  }

  /** The atomic step of sem_wait and sem_trywait that succeeds. */
  function Take(s: Sem): Sem
    requires s.count > 0
  {
    s.(count := s.count - 1)
  }

  /** A semaphore_t in place. */
  class SemCell {
    var count: int
    var max: nat

    ghost predicate Valid()
      reads this
    {
      -0x8000_0000 <= count < 0x8000_0000 && max < UINT32
    }

    function State(): Sem
      reads this
    {
      Sem(count, max)
    }

    constructor (initial: int, max: nat)
      requires -0x8000_0000 <= initial < 0x8000_0000 && max < UINT32
      ensures Valid() && State() == Sem(initial, max)
    {
      count := initial;
      this.max := max;
    }

    /** sem_trywait, and one round of the loop in sem_wait: 0 if a unit was taken, -1 otherwise. */
    method TryWait() returns (ret: int)
      requires Valid()
      modifies this
      ensures Valid()
      ensures if old(count) > 0 then ret == 0 && State() == Take(old(State())) else ret == -1 && State() == old(State())
      ensures max == old(max) && count == if ret == 0 then old(count) - 1 else old(count)
    {
      if count > 0 {
        count := count - 1;
        ret := 0;
      } else {
        ret := -1;
      }
    }

    method Signal()
      requires Valid()
      modifies this
      ensures Valid() && State() == Post(old(State())) && max == old(max)
      ensures old(count) >= 0 ==>
                count == if old(count) >= max then old(count)
                         else if old(count) == 0x7FFF_FFFF then -0x8000_0000 else old(count) + 1
      ensures old(count) < 0 ==> count == if old(count) + 0x1_0000_0000 < max then old(count) + 1 else old(count)
      ensures old(0 <= count <= max < 0x8000_0000) ==> 0 <= count <= max
    {
      var unsigned := if count >= 0 then count else count + UINT32;
      if unsigned < max {
        count := if count == 0x7FFF_FFFF then -0x8000_0000 else count + 1;
      }
    }
  }
}
