/**
  What each call of queue_push and queue_pop does in a run of QueueProtocol: which
  values its own steps append to the histories, and how it ends when it runs alone.
*/
module QueueCalls {
  import opened Basics
  import opened Locks
  import opened RingBuffer
  import opened QueueProtocol

  // ----------------------------------------------------------- a call within a run

  /** The values that the steps of t from point i to point k appended to pushed. */
  ghost function PushedBy(run: seq<World>, who: seq<nat>, t: nat, i: nat, k: nat): seq<nat>
    requires i <= k < |run| == |who| + 1
    decreases k
  {
    if k == i then []
    else PushedBy(run, who, t, i, k - 1) + if who[k - 1] == t then Added(run[k - 1].pushed, run[k].pushed) else []
  }

  /** The values that the steps of t from point i to point k appended to popped. */
  ghost function PoppedBy(run: seq<World>, who: seq<nat>, t: nat, i: nat, k: nat): seq<nat>
    requires i <= k < |run| == |who| + 1
    decreases k
  {
    if k == i then []
    else PoppedBy(run, who, t, i, k - 1) + if who[k - 1] == t then Added(run[k - 1].popped, run[k].popped) else []
  }

  /** Task t starts a call at step i and is still in it at point k; other tasks may run in between. */
  ghost predicate InCall(run: seq<World>, who: seq<nat>, t: nat, i: nat, k: nat) {
    && i < k < |run| == |who| + 1 && who[i] == t && t in run[i].pc && run[i].pc[t] == Idle
    && forall m | i < m <= k :: t in run[m].pc && run[m].pc[t] != Idle
  }

  predicate BeforeInsert(p: Pc, v: nat) {
    || p == PushLock(v) || p == PushTest(v) || p == PushSlot(v) || p == PushTail(v) || p == PushCount(v)
    || (p.PushStore? && p.v == v) || (p.PushTailStore? && p.v == v) || (p.PushCountStore? && p.v == v)
  }

  predicate BeforeRemove(p: Pc) {
    || p.PopLock? || p.PopTest? || p.PopSlot? || p.PopLoad? || p.PopHead? || p.PopHeadStore?
    || p.PopCount? || p.PopCountStore?
  }

  /** A push of v at p has appended nothing, or v once, and exactly v when it stands at its success exit. */
  predicate PushLog(p: Pc, v: nat, pushed: seq<nat>, popped: seq<nat>) {
    && popped == []
    && ((BeforeInsert(p, v) && pushed == []) || (p == PushFull && pushed == []) || (p == PushDone && pushed == [v]))
  }

  predicate PopLog(p: Pc, pushed: seq<nat>, popped: seq<nat>) {
    && pushed == []
    && ((BeforeRemove(p) && popped == []) || (p == PopEmpty && popped == []) || (p.PopDone? && popped == [p.v]))
  }

  lemma OwnStep(a: World, b: World, t: nat)
    requires Step(a, b, t) && a.pc[t] != Idle
    ensures t in b.pc
    ensures Added(a.pushed, b.pushed) == if a.pc[t].PushCountStore? then [a.pc[t].v] else []
    ensures Added(a.popped, b.popped) == if a.pc[t].PopCountStore? then [a.pc[t].v] else []
    ensures forall v | BeforeInsert(a.pc[t], v) ::
              if a.pc[t].PushCountStore? then b.pc[t] == PushDone else BeforeInsert(b.pc[t], v) || b.pc[t] == PushFull
    ensures BeforeRemove(a.pc[t]) ==>
              if a.pc[t].PopCountStore? then b.pc[t] == PopDone(a.pc[t].v)
              else BeforeRemove(b.pc[t]) || b.pc[t] == PopEmpty
    ensures a.pc[t].PushDone? || a.pc[t].PushFull? || a.pc[t].PopDone? || a.pc[t].PopEmpty? ==> b.pc[t] == Idle
  {
  }

  lemma OtherStep(a: World, b: World, s: nat, t: nat)
    requires Step(a, b, s) && s != t && t in a.pc
    ensures t in b.pc && b.pc[t] == a.pc[t]
  {
  }

  lemma StartStep(a: World, b: World, t: nat)
    requires Step(a, b, t) && a.pc[t] == Idle
    ensures Added(a.pushed, b.pushed) == [] && Added(a.popped, b.popped) == []
  {
  }

  /** One step of any task s while t is in a call. */
  lemma PushLogStep(a: World, b: World, s: nat, t: nat, v: nat, pushed: seq<nat>, popped: seq<nat>)
    requires Step(a, b, s) && t in a.pc && PushLog(a.pc[t], v, pushed, popped)
    requires t in b.pc && b.pc[t] != Idle
    ensures s == t ==> PushLog(b.pc[t], v, pushed + Added(a.pushed, b.pushed), popped + Added(a.popped, b.popped))
    ensures s != t ==> PushLog(b.pc[t], v, pushed, popped)
  {
    if s == t {
      OwnStep(a, b, t);
    } else {
      OtherStep(a, b, s, t);
    }
  }

  lemma PopLogStep(a: World, b: World, s: nat, t: nat, pushed: seq<nat>, popped: seq<nat>)
    requires Step(a, b, s) && t in a.pc && PopLog(a.pc[t], pushed, popped)
    requires t in b.pc && b.pc[t] != Idle
    ensures s == t ==> PopLog(b.pc[t], pushed + Added(a.pushed, b.pushed), popped + Added(a.popped, b.popped))
    ensures s != t ==> PopLog(b.pc[t], pushed, popped)
  {
    if s == t {
      OwnStep(a, b, t);
    } else {
      OtherStep(a, b, s, t);
    }
  }

  lemma CallStarts(run: seq<World>, who: seq<nat>, t: nat, i: nat)
    requires Run(run, who) && InCall(run, who, t, i, i + 1)
    ensures PushedBy(run, who, t, i, i + 1) == [] && PoppedBy(run, who, t, i, i + 1) == []
  {
    assert StepAt(run, who, i);
    StartStep(run[i], run[i + 1], t);
    assert PushedBy(run, who, t, i, i) == [] && PoppedBy(run, who, t, i, i) == [];
  }

  /** At every point of a push of v its own steps have appended what PushLog says, whatever others do. */
  lemma {:induction false} PushCall(run: seq<World>, who: seq<nat>, t: nat, v: nat, i: nat, k: nat)
    requires Run(run, who) && InCall(run, who, t, i, k) && run[i + 1].pc[t] == PushLock(v)
    ensures PushLog(run[k].pc[t], v, PushedBy(run, who, t, i, k), PoppedBy(run, who, t, i, k))
    decreases k
  {
    if k == i + 1 {
      CallStarts(run, who, t, i);
    } else {
      var a, b := run[k - 1], run[k];
      PushCall(run, who, t, v, i, k - 1);
      var pushed, popped := PushedBy(run, who, t, i, k - 1), PoppedBy(run, who, t, i, k - 1);
      assert pushed + [] == pushed && popped + [] == popped;
      assert StepAt(run, who, k - 1);
      PushLogStep(a, b, who[k - 1], t, v, pushed, popped);
    }
  }

  lemma {:induction false} PopCall(run: seq<World>, who: seq<nat>, t: nat, i: nat, k: nat)
    requires Run(run, who) && InCall(run, who, t, i, k) && run[i + 1].pc[t] == PopLock
    ensures PopLog(run[k].pc[t], PushedBy(run, who, t, i, k), PoppedBy(run, who, t, i, k))
    decreases k
  {
    if k == i + 1 {
      CallStarts(run, who, t, i);
    } else {
      var a, b := run[k - 1], run[k];
      PopCall(run, who, t, i, k - 1);
      var pushed, popped := PushedBy(run, who, t, i, k - 1), PoppedBy(run, who, t, i, k - 1);
      assert pushed + [] == pushed && popped + [] == popped;
      assert StepAt(run, who, k - 1);
      PopLogStep(a, b, who[k - 1], t, pushed, popped);
    }
  }

  /**
    In every interleaving, a queue_push(v) that comes to its success exit has
    appended exactly v, exactly once; one that is refused has appended nothing.
  */
  lemma PushAppendsItsValue(run: seq<World>, who: seq<nat>, t: nat, v: nat, i: nat, k: nat)
    requires Run(run, who) && InCall(run, who, t, i, k) && run[i + 1].pc[t] == PushLock(v)
    ensures run[k].pc[t] == PushDone ==> PushedBy(run, who, t, i, k) == [v]
    ensures run[k].pc[t] == PushFull ==> PushedBy(run, who, t, i, k) == []
    ensures PoppedBy(run, who, t, i, k) == []
  {
    PushCall(run, who, t, v, i, k);
  }

  /** A queue_pop that comes to its success exit with v has removed exactly v, exactly once. */
  lemma PopRemovesItsValue(run: seq<World>, who: seq<nat>, t: nat, i: nat, k: nat)
    requires Run(run, who) && InCall(run, who, t, i, k) && run[i + 1].pc[t] == PopLock
    ensures run[k].pc[t].PopDone? ==> PoppedBy(run, who, t, i, k) == [run[k].pc[t].v]
    ensures run[k].pc[t] == PopEmpty ==> PoppedBy(run, who, t, i, k) == []
    ensures PushedBy(run, who, t, i, k) == []
  {
    PopCall(run, who, t, i, k);
  }

  // ------------------------------------------------------------------ a call alone

  /** n accesses of task me in a row. */
  function Solo(q: Queue, p: Pc, me: nat, n: nat): (Queue, Pc)
    decreases n, me
  {
    if n == 0 || |q.data| != QUEUE_SIZE || q.head >= QUEUE_SIZE || q.tail >= QUEUE_SIZE then (q, p)
    else
      var (q', p') := Exec(q, p, me);
      Solo(q', p', me, n - 1)
  }

  ghost predicate Ready(q: Queue) {
    Shape(q) && q.lock == UNLOCKED && q.tail == Wrap(QUEUE_SIZE, q.head + q.count)
  }

  /** The first n accesses take (q, p) to (q', p'). */
  ghost predicate Leads(q: Queue, p: Pc, me: nat, n: nat, q': Queue, p': Pc) {
    Solo(q, p, me, n) == (q', p')
  }

  lemma LeadsOn(q: Queue, p: Pc, me: nat, n: nat, q1: Queue, p1: Pc, q2: Queue, p2: Pc)
    requires Shape(q) && Exec(q, p, me) == (q1, p1) && Leads(q1, p1, me, n, q2, p2)
    ensures Leads(q, p, me, n + 1, q2, p2)
  {
  }

  /** queue_push alone returns after 9 accesses with v appended, or after 3 with nothing changed if there is no room. */
  lemma PushAlone(q: Queue, v: nat, me: nat) returns (q': Queue)
    requires Ready(q)
    ensures Ready(q')
    ensures Solo(q, PushLock(v), me, if q.count < QUEUE_SIZE then 9 else 3) == (q', Idle)
    ensures Window(q'.data, q'.head, q'.count) ==
              Window(q.data, q.head, q.count) + if q.count < QUEUE_SIZE then [v] else []
  {
    var mine := q.(lock := Mutex(true, Some(me)));
    if q.count < QUEUE_SIZE {
      var stored := mine.(data := q.data[q.tail := v]);
      var moved := stored.(tail := (q.tail + 1) % QUEUE_SIZE);
      var counted := moved.(count := q.count + 1);
      q' := counted.(lock := UNLOCKED);
      WindowStore(q.data, q.head, q.count, v);
      LeadsOn(counted, PushDone, me, 0, q', Idle, q', Idle);
      LeadsOn(moved, PushCountStore(v, q.count), me, 1, counted, PushDone, q', Idle);
      LeadsOn(moved, PushCount(v), me, 2, moved, PushCountStore(v, q.count), q', Idle);
      LeadsOn(stored, PushTailStore(v, q.tail), me, 3, moved, PushCount(v), q', Idle);
      LeadsOn(stored, PushTail(v), me, 4, stored, PushTailStore(v, q.tail), q', Idle);
      LeadsOn(mine, PushStore(v, q.tail), me, 5, stored, PushTail(v), q', Idle);
      LeadsOn(mine, PushSlot(v), me, 6, mine, PushStore(v, q.tail), q', Idle);
      LeadsOn(mine, PushTest(v), me, 7, mine, PushSlot(v), q', Idle);
      LeadsOn(q, PushLock(v), me, 8, mine, PushTest(v), q', Idle);
    } else {
      q' := q;
      LeadsOn(mine, PushFull, me, 0, q', Idle, q', Idle);
      LeadsOn(mine, PushTest(v), me, 1, mine, PushFull, q', Idle);
      LeadsOn(q, PushLock(v), me, 2, mine, PushTest(v), q', Idle);
    }
  }

  /** The first four accesses of a pop, up to the load of its value, and n more. */
  lemma PopLoads(q: Queue, v: nat, me: nat, q': Queue, p': Pc, n: nat)
    requires Ready(q) && q.count > 0 && v == q.data[q.head]
    requires Leads(q.(lock := Mutex(true, Some(me))), PopHead(v), me, n, q', p')
    ensures Leads(q, PopLock, me, n + 4, q', p')
  {
    var mine := q.(lock := Mutex(true, Some(me)));
    LeadsOn(mine, PopLoad(q.head), me, n, mine, PopHead(v), q', p');
    LeadsOn(mine, PopSlot, me, n + 1, mine, PopLoad(q.head), q', p');
    LeadsOn(mine, PopTest, me, n + 2, mine, PopSlot, q', p');
    LeadsOn(q, PopLock, me, n + 3, mine, PopTest, q', p');
  }

  /** The eight accesses of a pop up to its success exit, and n more. */
  lemma PopBody(q: Queue, v: nat, me: nat, counted: Queue, q': Queue, p': Pc, n: nat)
    requires Ready(q) && q.count > 0 && v == q.data[q.head]
    requires counted == Queue(q.data, (q.head + 1) % QUEUE_SIZE, q.tail, q.count - 1, Mutex(true, Some(me)))
    requires Leads(counted, PopDone(v), me, n, q', p')
    ensures Leads(q, PopLock, me, n + 8, q', p')
  {
    var mine := q.(lock := Mutex(true, Some(me)));
    var moved := mine.(head := (q.head + 1) % QUEUE_SIZE);
    LeadsOn(moved, PopCountStore(v, q.count), me, n, counted, PopDone(v), q', p');
    LeadsOn(moved, PopCount(v), me, n + 1, moved, PopCountStore(v, q.count), q', p');
    LeadsOn(mine, PopHeadStore(v, q.head), me, n + 2, moved, PopCount(v), q', p');
    LeadsOn(mine, PopHead(v), me, n + 3, mine, PopHeadStore(v, q.head), q', p');
    PopLoads(q, v, me, q', p', n + 4);
  }

  /** queue_pop alone returns after 9 accesses with the oldest value removed, or after 3 if there is none. */
  lemma PopAlone(q: Queue, me: nat) returns (q': Queue)
    requires Ready(q)
    ensures Ready(q')
    ensures Solo(q, PopLock, me, if q.count > 0 then 9 else 3) == (q', Idle)
    ensures q.count > 0 ==>
              && Solo(q, PopLock, me, 8).1 == PopDone(q.data[q.head])
              && Window(q.data, q.head, q.count) == [q.data[q.head]] + Window(q'.data, q'.head, q'.count)
    ensures q.count == 0 ==> q' == q
  {
    var mine := q.(lock := Mutex(true, Some(me)));
    if q.count > 0 {
      var v := q.data[q.head];
      var moved := mine.(head := (q.head + 1) % QUEUE_SIZE);
      var counted := moved.(count := q.count - 1);
      q' := counted.(lock := UNLOCKED);
      WindowDrop(q.data, q.head, q.count);
      PopBody(q, v, me, counted, counted, PopDone(v), 0);
      LeadsOn(counted, PopDone(v), me, 0, q', Idle, q', Idle);
      PopBody(q, v, me, counted, q', Idle, 1);
    } else {
      q' := q;
      LeadsOn(mine, PopEmpty, me, 0, q', Idle, q', Idle);
      LeadsOn(mine, PopTest, me, 1, mine, PopEmpty, q', Idle);
      LeadsOn(q, PopLock, me, 2, mine, PopTest, q', Idle);
    }
  }
}
