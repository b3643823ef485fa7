/**
  queue.c under arbitrary preemption.  Any number of tasks push and pop; the
  processor may switch tasks between any two accesses to the shared queue.
*/
module QueueProtocol {
  import opened Basics
  import opened Locks
  import opened RingBuffer

  const QUEUE_SIZE: nat := 8

  datatype Queue = Queue(data: seq<nat>, head: nat, tail: nat, count: int, lock: Mutex)

  /** Where a task is, with the values it holds in registers: one constructor per shared access. */
  datatype Pc =
    | Idle
    | PushLock(v: nat)              // queue.c:13
    | PushTest(v: nat)              // queue.c:14, load count
    | PushSlot(v: nat)              // queue.c:18, load tail
    | PushStore(v: nat, r: nat)     // queue.c:18, store data
    | PushTail(v: nat)              // queue.c:19, load tail
    | PushTailStore(v: nat, r: nat) // queue.c:19, store tail
    | PushCount(v: nat)             // queue.c:20, load count
    | PushCountStore(v: nat, n: int) // queue.c:20, store count
    | PushDone                      // queue.c:21
    | PushFull                      // queue.c:15
    | PopLock                       // queue.c:27
    | PopTest                       // queue.c:28, load count
    | PopSlot                       // queue.c:32, load head
    | PopLoad(r: nat)               // queue.c:32, load data
    | PopHead(v: nat)               // queue.c:33, load head
    | PopHeadStore(v: nat, r: nat)  // queue.c:33, store head
    | PopCount(v: nat)              // queue.c:34, load count
    | PopCountStore(v: nat, n: int)  // queue.c:34, store count
    | PopDone(v: nat)               // queue.c:35
    | PopEmpty                      // queue.c:29

  /** The task holds the queue lock. */
  predicate Inside(p: Pc) {
    !(p.Idle? || p.PushLock? || p.PopLock?)
  }

  /** The next access of task me at p. */
  function Exec(q: Queue, p: Pc, me: nat): (Queue, Pc)
    requires |q.data| == QUEUE_SIZE && q.head < QUEUE_SIZE && q.tail < QUEUE_SIZE
  {
    match p
    case Idle => (q, Idle)
    case PushLock(v) => (q.(lock := Attempt(q.lock, me)), if q.lock.locked then p else PushTest(v))
    case PushTest(v) => (q, if q.count >= QUEUE_SIZE then PushFull else PushSlot(v))
    case PushSlot(v) => (q, PushStore(v, q.tail))
    case PushStore(v, r) => (if r < QUEUE_SIZE then q.(data := q.data[r := v]) else q, PushTail(v))
    case PushTail(v) => (q, PushTailStore(v, q.tail))
    case PushTailStore(v, r) => (q.(tail := (r + 1) % QUEUE_SIZE), PushCount(v))
    case PushCount(v) => (q, PushCountStore(v, q.count))
    case PushCountStore(v, r) => (q.(count := r + 1), PushDone)
    case PushDone => (q.(lock := Unlock(q.lock, me)), Idle)
    case PushFull => (q.(lock := Unlock(q.lock, me)), Idle)
    case PopLock => (q.(lock := Attempt(q.lock, me)), if q.lock.locked then p else PopTest)
    case PopTest => (q, if q.count == 0 then PopEmpty else PopSlot)
    case PopSlot => (q, PopLoad(q.head))
    case PopLoad(r) => (q, PopHead(if r < QUEUE_SIZE then q.data[r] else 0))
    case PopHead(v) => (q, PopHeadStore(v, q.head))
    case PopHeadStore(v, r) => (q.(head := (r + 1) % QUEUE_SIZE), PopCount(v))
    case PopCount(v) => (q, PopCountStore(v, q.count))
    case PopCountStore(v, r) => (q.(count := r - 1), PopDone(v))
    case PopDone(v) => (q.(lock := Unlock(q.lock, me)), Idle)
    case PopEmpty => (q.(lock := Unlock(q.lock, me)), Idle)
  }

  /** The whole system: queue, tasks, and the values pushed and popped in lock order. */
  datatype World = World(q: Queue, pc: map<nat, Pc>, pushed: seq<nat>, popped: seq<nat>)

  ghost predicate Shape(q: Queue) {
    |q.data| == QUEUE_SIZE && q.head < QUEUE_SIZE && q.tail < QUEUE_SIZE && 0 <= q.count <= QUEUE_SIZE
  }

  ghost predicate Init(w: World) {
    && |w.q.data| == QUEUE_SIZE && w.q.head == w.q.tail == w.q.count == 0 && w.q.lock == UNLOCKED
    && (forall t | t in w.pc :: w.pc[t] == Idle)
    && w.pushed == [] && w.popped == []
  }

  /** Task t performs its next access, or starts a call. */
  ghost predicate Step(a: World, b: World, t: nat) {
    && t in a.pc && Shape(a.q)
    && if a.pc[t] == Idle then
         && b.q == a.q && b.pushed == a.pushed && b.popped == a.popped
         && (b.pc == a.pc[t := PopLock] || exists v :: b.pc == a.pc[t := PushLock(v)])
       else
         var (q, p) := Exec(a.q, a.pc[t], t);
         && b.q == q && b.pc == a.pc[t := p]
         && b.pushed == a.pushed + (if a.pc[t].PushCountStore? then [a.pc[t].v] else [])
         && b.popped == a.popped + (if a.pc[t].PopCountStore? then [a.pc[t].v] else [])
  }

  // ------------------------------------------------------------------- invariant

  ghost predicate Quiet(q: Queue, pushed: seq<nat>, popped: seq<nat>)
    requires Shape(q)
  {
    q.tail == Wrap(QUEUE_SIZE, q.head + q.count) && popped + Window(q.data, q.head, q.count) == pushed
  }

  /** The value is in its cell and tail has moved, count not yet. */
  ghost predicate Extended(q: Queue, v: nat, pushed: seq<nat>, popped: seq<nat>)
    requires Shape(q)
  {
    && q.count < QUEUE_SIZE
    && q.tail == Wrap(QUEUE_SIZE, Wrap(QUEUE_SIZE, q.head + q.count) + 1)
    && q.data[Wrap(QUEUE_SIZE, q.head + q.count)] == v
    && popped + Window(q.data, q.head, q.count) == pushed
  }

  /** The value was read and head has moved, count not yet. */
  ghost predicate Dropped(q: Queue, v: nat, pushed: seq<nat>, popped: seq<nat>)
    requires Shape(q)
  {
    && q.count > 0
    && q.tail == Wrap(QUEUE_SIZE, q.head + (q.count - 1))
    && popped + ([v] + Window(q.data, q.head, q.count - 1)) == pushed
  }

  /** What the lock holder at p has established. */
  ghost predicate Holder(q: Queue, p: Pc, pushed: seq<nat>, popped: seq<nat>)
    requires Shape(q)
  {
    match p
    case Idle => false
    case PushLock(_) => false
    case PopLock => false
    case PushTest(_) => Quiet(q, pushed, popped)
    case PushDone => Quiet(q, pushed, popped)
    case PopTest => Quiet(q, pushed, popped)
    case PopDone(_) => Quiet(q, pushed, popped)
    case PushFull => Quiet(q, pushed, popped) && q.count == QUEUE_SIZE
    case PopEmpty => Quiet(q, pushed, popped) && q.count == 0
    case PushSlot(_) => Quiet(q, pushed, popped) && q.count < QUEUE_SIZE
    case PushStore(_, r) => Quiet(q, pushed, popped) && q.count < QUEUE_SIZE && r == q.tail
    case PushTail(v) => Quiet(q, pushed, popped) && q.count < QUEUE_SIZE && q.data[q.tail] == v
    case PushTailStore(v, r) => Quiet(q, pushed, popped) && q.count < QUEUE_SIZE && q.data[q.tail] == v && r == q.tail
    case PushCount(v) => Extended(q, v, pushed, popped)
    case PushCountStore(v, r) => Extended(q, v, pushed, popped) && r == q.count
    case PopSlot => Quiet(q, pushed, popped) && q.count > 0
    case PopLoad(r) => Quiet(q, pushed, popped) && q.count > 0 && r == q.head
    case PopHead(v) => Quiet(q, pushed, popped) && q.count > 0 && v == q.data[q.head]
    case PopHeadStore(v, r) => Quiet(q, pushed, popped) && q.count > 0 && v == q.data[q.head] && r == q.head
    case PopCount(v) => Dropped(q, v, pushed, popped)
    case PopCountStore(v, r) => Dropped(q, v, pushed, popped) && r == q.count
  }

  ghost predicate Inv(w: World) {
    && Shape(w.q)
    && (w.q.lock.locked ==> w.q.lock.owner.Some? && w.q.lock.owner.value in w.pc
                            && Holder(w.q, w.pc[w.q.lock.owner.value], w.pushed, w.popped))
    && (!w.q.lock.locked ==> Quiet(w.q, w.pushed, w.popped))
    && (forall t | t in w.pc && Inside(w.pc[t]) :: w.q.lock == Mutex(true, Some(t)))
  }

  ghost predicate StepKeeps(q: Queue, p: Pc, me: nat, pushed: seq<nat>, popped: seq<nat>)
    requires Shape(q)
  {
    var (q', p') := Exec(q, p, me);
    var pushed' := pushed + (if p.PushCountStore? then [p.v] else []);
    var popped' := popped + (if p.PopCountStore? then [p.v] else []);
    && Shape(q')
    && if p'.Idle? then Quiet(q', pushed', popped') && q'.lock == UNLOCKED
       else Holder(q', p', pushed', popped') && q'.lock == q.lock
  }

  predicate IsStore(p: Pc) {
    p.PushStore? || p.PushTailStore? || p.PushCountStore? || p.PopHeadStore? || p.PopCountStore?
  }

  lemma LoadStep(q: Queue, p: Pc, me: nat, pushed: seq<nat>, popped: seq<nat>)
    requires Shape(q) && Holder(q, p, pushed, popped) && q.lock == Mutex(true, Some(me)) && !IsStore(p)
    ensures StepKeeps(q, p, me, pushed, popped)
  {
    assert pushed + [] == pushed && popped + [] == popped;
  }

  lemma PushStoreStep(q: Queue, p: Pc, me: nat, pushed: seq<nat>, popped: seq<nat>)
    requires Shape(q) && Holder(q, p, pushed, popped) && q.lock == Mutex(true, Some(me))
    requires p.PushStore? || p.PushTailStore? || p.PushCountStore?
    ensures StepKeeps(q, p, me, pushed, popped)
  {
    assert pushed + [] == pushed && popped + [] == popped;
    if p.PushStore? {
      WindowStore(q.data, q.head, q.count, p.v);
    } else if p.PushCountStore? {
      WindowExtend(q.data, q.head, q.count);
      assert popped + (Window(q.data, q.head, q.count) + [p.v]) == pushed + [p.v];
    }
  }

  lemma PopStoreStep(q: Queue, p: Pc, me: nat, pushed: seq<nat>, popped: seq<nat>)
    requires Shape(q) && Holder(q, p, pushed, popped) && q.lock == Mutex(true, Some(me))
    requires p.PopHeadStore? || p.PopCountStore?
    ensures StepKeeps(q, p, me, pushed, popped)
  {
    assert pushed + [] == pushed && popped + [] == popped;
    if p.PopHeadStore? {
      WindowDrop(q.data, q.head, q.count);
    } else {
      assert (popped + [p.v]) + Window(q.data, q.head, q.count - 1) == pushed;
    }
  }

  /** The lock holder's steps keep what it has established. */
  lemma HolderStep(q: Queue, p: Pc, me: nat, pushed: seq<nat>, popped: seq<nat>)
    requires Shape(q) && Holder(q, p, pushed, popped) && q.lock == Mutex(true, Some(me))
    ensures StepKeeps(q, p, me, pushed, popped)
  {
    if !IsStore(p) {
      LoadStep(q, p, me, pushed, popped);
    } else if p.PopHeadStore? || p.PopCountStore? {
      PopStoreStep(q, p, me, pushed, popped);
    } else {
      PushStoreStep(q, p, me, pushed, popped);
    }
  }

  /** A task outside the lock does not touch the buffer; it may only take a free lock. */
  lemma OutsiderStep(q: Queue, p: Pc, me: nat, pushed: seq<nat>, popped: seq<nat>)
    requires Shape(q) && !Inside(p) && !p.Idle?
    ensures var (q', p') := Exec(q, p, me);
            && q' == q.(lock := q'.lock)
            && if q.lock.locked then q'.lock == q.lock && p' == p
               else q'.lock == Mutex(true, Some(me)) && Inside(p')
                    && (Quiet(q, pushed, popped) ==> Holder(q', p', pushed, popped))
  {
  }

  lemma StepInv(a: World, b: World, t: nat)
    requires Inv(a) && Step(a, b, t)
    ensures Inv(b)
  {
    assert a.pushed + [] == a.pushed && a.popped + [] == a.popped;
    if a.pc[t] == Idle {
      if a.q.lock.locked {
        assert a.q.lock.owner.value != t;
      }
    } else if Inside(a.pc[t]) {
      HolderStep(a.q, a.pc[t], t, a.pushed, a.popped);
    } else {
      OutsiderStep(a.q, a.pc[t], t, a.pushed, a.popped);
    }
  }

  ghost predicate StepAt(run: seq<World>, who: seq<nat>, i: nat)
    requires |run| == |who| + 1 && i < |who|
  {
    Step(run[i], run[i + 1], who[i])
  }

  ghost predicate Run(run: seq<World>, who: seq<nat>) {
    |run| == |who| + 1 && Init(run[0]) && forall i: nat | i < |who| :: StepAt(run, who, i)
  }

  lemma {:induction false} RunInv(run: seq<World>, who: seq<nat>, k: nat)
    requires Run(run, who) && k < |run|
    ensures Inv(run[k])
  {
    if k > 0 {
      RunInv(run, who, k - 1);
      assert StepAt(run, who, k - 1);
      StepInv(run[k - 1], run[k], who[k - 1]);
    }
  }

  // -------------------------------------------------------------------- theorems

  /** The values in the queue, a pop counting from its last store. */
  ghost function Contents(w: World): seq<nat>
    requires Inv(w)
  {
    if w.q.lock.locked && (w.pc[w.q.lock.owner.value].PopCount? || w.pc[w.q.lock.owner.value].PopCountStore?) then
      [w.pc[w.q.lock.owner.value].v] + Window(w.q.data, w.q.head, w.q.count - 1)
    else Window(w.q.data, w.q.head, w.q.count)
  }

  /**
    In every interleaving, at most one task is inside the locked region, and the
    values popped followed by the queue contents are the values pushed.
  */
  lemma QueueIsFifo(run: seq<World>, who: seq<nat>, k: nat)
    requires Run(run, who) && k < |run|
    ensures Inv(run[k]) && run[k].popped + Contents(run[k]) == run[k].pushed
    ensures |Contents(run[k])| <= QUEUE_SIZE
    ensures forall s, t | s in run[k].pc && t in run[k].pc && Inside(run[k].pc[s]) && Inside(run[k].pc[t]) :: s == t
  {
    RunInv(run, who, k);
    var w := run[k];
    forall s, t | s in w.pc && t in w.pc && Inside(w.pc[s]) && Inside(w.pc[t]) ensures s == t {
      assert w.q.lock == Mutex(true, Some(s));
    }
  }

  /** queue_push returns false only when the queue is full, queue_pop only when it is empty. */
  lemma RefusalsAreRight(run: seq<World>, who: seq<nat>, k: nat, t: nat)
    requires Run(run, who) && k < |run| && t in run[k].pc
    ensures run[k].pc[t] == PushFull ==> |run[k].pushed| - |run[k].popped| == QUEUE_SIZE
    ensures run[k].pc[t] == PopEmpty ==> run[k].pushed == run[k].popped
  {
    RunInv(run, who, k);
    var w := run[k];
    if Inside(w.pc[t]) {
      assert w.q.lock == Mutex(true, Some(t));
      if w.pc[t] == PopEmpty {
        assert w.popped + [] == w.popped;
      }
    }
  }

  // --------------------------------------------------- the locked regions in place

  class QueueCell {
    const data: array<nat>
    var head: nat
    var tail: nat
    var count: nat

    ghost predicate Valid()
      reads this, data
    {
      && data.Length == QUEUE_SIZE && head < QUEUE_SIZE && count <= QUEUE_SIZE
      && tail == Wrap(QUEUE_SIZE, head + count)
    }

    ghost function Contents(): seq<nat>
      requires Valid()
      reads this, data
    {
      Window(data[..], head, count)
    }

    constructor (cells: array<nat>)
      requires cells.Length == QUEUE_SIZE
      ensures Valid() && data == cells && Contents() == []
    {
      data := cells;
      head, tail, count := 0, 0, 0;
    }

    method Push(v: nat) returns (ok: bool)
      requires Valid()
      modifies this, data
      ensures Valid()
      ensures ok == (|old(Contents())| < QUEUE_SIZE)
      ensures Contents() == old(Contents()) + (if ok then [v] else [])
    {
      if count >= QUEUE_SIZE {
        return false;
      }
      WindowStore(data[..], head, count, v);
      ghost var cells := data[..];
      data[tail] := v;
      assert data[..] == cells[tail := v];
      tail := (tail + 1) % QUEUE_SIZE;
      count := count + 1;
      ok := true;
    }

    method Pop() returns (ok: bool, v: nat)
      requires Valid()
      modifies this
      ensures Valid()
      ensures ok == (old(Contents()) != [])
      ensures ok ==> old(Contents()) == [v] + Contents()
      ensures !ok ==> Contents() == old(Contents())
    {
      if count == 0 {
        return false, 0;
      }
      WindowDrop(data[..], head, count);
      v := data[head];
      head := (head + 1) % QUEUE_SIZE;
      count := count - 1;
      ok := true;
    }
  }
}
