/** task.c in place: the task pool, the next pointers and the walks over the ring. */
module TaskList {
  import opened Rings
  import opened TaskModel

  // ------------------------------------------------------------------ initial stacks

  const STACK_WORDS: nat := 1024

  /** What the interrupt stub loads when it resumes a task (interrupts.s:104-113). */
  datatype Context = Context(ds: nat, registers: seq<nat>, eip: nat, cs: nat, eflags: nat, sp: nat)

  /** pop ds; popa; add esp, 8; iret. */
  function Resume(stack: seq<nat>, sp: nat): Context
    requires sp + 14 <= |stack|
  {
    Context(stack[sp], stack[sp + 1..sp + 9], stack[sp + 11], stack[sp + 12], stack[sp + 13], sp + 14)
  }

  /** task.c:41-58: the frame from which the stub starts the task at its entry point with interrupts on. */
  method BuildFrame(stack: array<nat>, entry: nat) returns (sp: nat)
    requires stack.Length == STACK_WORDS
    modifies stack
    ensures sp + 14 <= STACK_WORDS
    ensures Resume(stack[..], sp) == Context(0x10, seq(8, _ => 0), entry, 0x08, 0x0202, STACK_WORDS)
    ensures stack[..sp] == old(stack[..sp])
  {
    sp := STACK_WORDS;
    sp := sp - 1; stack[sp] := 0x0202;
    sp := sp - 1; stack[sp] := 0x08;
    sp := sp - 1; stack[sp] := entry;
    sp := sp - 1; stack[sp] := 0;
    sp := sp - 1; stack[sp] := 32;
    ghost var top := sp;
    for i := 0 to 8
      invariant sp == top - i
      invariant stack[top..] == [32, 0, entry, 0x08, 0x0202]
      invariant forall j | sp <= j < top :: stack[j] == 0
      invariant forall j | 0 <= j < sp :: stack[j] == old(stack[j])
    {
      sp := sp - 1;
      stack[sp] := 0;
    }
    sp := sp - 1; stack[sp] := 0x10;
    assert stack[top..][2] == stack[sp + 11] && stack[top..][3] == stack[sp + 12] && stack[top..][4] == stack[sp + 13];
    assert stack[..][sp + 1..sp + 9] == seq(8, _ => 0);
  }

  // ------------------------------------------------------------------- pointer rings

  /** The walk of the selection pass follows the same pointers. */
  lemma WalkLinks(next: seq<nat>, ring: seq<nat>)
    requires Links(next, ring) && IsRing(ring)
    ensures Links(next, Walk(ring)) && IsRing(Walk(ring)) && Walk(ring)[0] == next[ring[0]]
  {
  }

  lemma InsertLinks(next: seq<nat>, ring: seq<nat>, slot: nat)
    requires Links(next, ring) && Distinct(ring) && slot < |next| && slot !in ring
    ensures Links(next[slot := next[ring[0]]][ring[0] := slot], [ring[0], slot] + ring[1..])
  {
  }

  // ------------------------------------------------------------- the passes so far

  /** The first k tasks of the ring were woken. */
  ghost predicate WokenTo(s: Sched, k: nat, tasks: seq<Tcb>) {
    k <= |s.ring| && tasks == WakeRing(Sched(s.pool, s.ring[..k]))
  }

  lemma WakeMore(s: Sched, k: nat, tasks: seq<Tcb>)
    requires WokenTo(s, k, tasks) && k < |s.ring| && s.ring[k] < |s.pool| && s.ring[k] !in s.ring[..k]
    ensures |tasks| == |s.pool| && WokenTo(s, k + 1, tasks[s.ring[k] := Wake(tasks[s.ring[k]])])
  {
  }

  lemma WokenAll(s: Sched, tasks: seq<Tcb>)
    requires WokenTo(s, |s.ring|, tasks)
    ensures tasks == WakeRing(s)
  {
  }

  /** best is the slot selected on the walk so far, -1 for none. */
  ghost predicate Leader(tasks: seq<Tcb>, walk: seq<nat>, best: int) {
    && Within(walk, tasks) && best < |tasks|
    && best == SlotAt(walk, Pick(tasks, walk))
  }

  function PrioOf(tasks: seq<Tcb>, best: int): nat
    requires best < |tasks|
  {
    if best < 0 then 0 else tasks[best].priority
  }

  lemma LeaderNext(tasks: seq<Tcb>, walk: seq<nat>, k: nat, best: int)
    requires k < |walk| && walk[k] < |tasks| && Leader(tasks, walk[..k], best)
    ensures var t := walk[k];
            Leader(tasks, walk[..k + 1],
                   if tasks[t].state == Ready && tasks[t].priority > PrioOf(tasks, best) then t else best)
  {
  }

  lemma HandOver(next: seq<nat>, tasks: seq<Tcb>, ring: seq<nat>, best: int) returns (r: seq<nat>)
    requires IsRing(ring) && Links(next, ring) && Leader(tasks, Walk(ring), best)
    ensures r == Rotate(ring, Pick(tasks, Walk(ring)))
    ensures IsRing(r) && |r| == |ring| && Links(next, r) && r[0] == if best < 0 then ring[0] else best
  {
    var b := Pick(tasks, Walk(ring));
    r := Rotate(ring, b);
    RotateRing(ring, b);
    RotateLinks(next, ring, b);
    if b >= 0 {
      RotateHead(ring, b);
    }
  }

  // ------------------------------------------------------------------------ the class

  class Scheduler {
    const pool: array<Tcb>
    const next: array<nat>
    var current: nat
    var nextPid: nat
    var totalTasks: nat
    var poolIndex: nat
    ghost var ring: seq<nat>

    ghost predicate Valid()
      reads this, pool, next
    {
      && pool.Length == SLOTS && next.Length == SLOTS
      && IsRing(ring) && Links(next[..], ring)
      && current == ring[0]
      && nextPid == totalTasks == poolIndex + 1 == |ring|
    }

    ghost function State(): (s: Sched)
      requires Valid()
      reads this, pool, next
      ensures Wf(s)
    {
      Sched(pool[..], ring)
    }

    /** init_tasking */
    constructor (slots: array<Tcb>, links: array<nat>)
      requires slots.Length == SLOTS && links.Length == SLOTS
      modifies slots, links
      ensures Valid() && pool == slots && next == links
      ensures State() == InitTasking(old(slots[..]))
      ensures ring == [0] && pool[0] == Tcb(0, 1, Ready, 0, 0, 0)
    {
      pool := slots;
      next := links;
      current := 0;
      nextPid := 1;
      totalTasks := 1;
      poolIndex := 0;
      ring := [0];
      new;
      pool[0] := Tcb(0, 1, Ready, 0, 0, 0);
      next[0] := 0;
    }

    /** create_task; base is the address of the new task's stack. */
    method Create(entry: nat, priority: nat, stack: array<nat>, base: nat)
      requires Valid() && stack.Length == STACK_WORDS && stack != next
      modifies this, pool, next, stack
      ensures Valid()
      ensures State() == CreateTask(old(State()), priority, base + 4 * (STACK_WORDS - 14))
      ensures old(|ring|) < SLOTS ==>
                Resume(stack[..], STACK_WORDS - 14) == Context(0x10, seq(8, _ => 0), entry, 0x08, 0x0202, STACK_WORDS)
      ensures old(|ring|) == SLOTS ==> stack[..] == old(stack[..])
    {
      if poolIndex >= TASK_POOL_SIZE {
        return;
      }
      ghost var s := State();
      var sp := BuildFrame(stack, entry);
      assert State() == s;
      Link(priority, base + 4 * sp);
    }

    /** task.c:33-38 and 58-64, once the frame is built. */
    method Link(priority: nat, frame: nat)
      requires Valid() && |ring| < SLOTS
      modifies this, pool, next
      ensures Valid()
      ensures State() == CreateTask(old(State()), priority, frame)
    {
      CreateWf(State(), priority, frame);
      InsertLinks(next[..], ring, |ring|);
      ghost var links, tasks := next[..], pool[..];
      poolIndex := poolIndex + 1;
      var nt := poolIndex;
      pool[nt] := Tcb(nextPid, priority, Ready, 0, 0, frame);
      nextPid := nextPid + 1;
      next[nt] := next[current];
      next[current] := nt;
      totalTasks := totalTasks + 1;
      ring := [ring[0], nt] + ring[1..];
      assert next[..] == links[nt := links[ring[0]]][ring[0] := nt];
      assert pool[..] == tasks[nt := pool[nt]];
    }

    /** task.c:77-80 */
    method WakeOne(t: nat)
      requires t < pool.Length
      modifies pool
      ensures pool[..] == old(pool[..])[t := Wake(old(pool[t]))]
    {
      if pool[t].state == Sleeping {
        if pool[t].sleepTicks > 0 {
          pool[t] := pool[t].(sleepTicks := pool[t].sleepTicks - 1);
        }
        if pool[t].sleepTicks == 0 {
          pool[t] := pool[t].(state := Ready);
        }
      }
    }

    /** task.c:75-82 */
    method WakePass()
      requires Valid()
      modifies pool
      ensures pool[..] == WakeRing(old(State()))
    {
      ghost var s := State();
      var t := current;
      ghost var k := 0;
      while true
        invariant 0 <= k < |ring| && t == ring[k]
        invariant WokenTo(s, k, pool[..])
        decreases |ring| - k
      {
        AtNext(next[..], ring, k);
        WakeMore(s, k, pool[..]);
        WakeOne(t);
        t := next[t];
        if t == current {
          break;
        }
        k := k + 1;
      }
      WokenAll(s, pool[..]);
    }

    /** task.c:85-95: best, or -1 for the null pointer. */
    method SelectPass() returns (best: int)
      requires Valid()
      ensures Leader(pool[..], Walk(ring), best)
    {
      best := -1;
      var bestPrio := 0;
      var first := next[current];
      var t := first;
      ghost var walk := Walk(ring);
      ghost var tasks, links := pool[..], next[..];
      ghost var k := 0;
      WalkLinks(links, ring);
      while true
        invariant 0 <= k < |walk| && t == walk[k]
        invariant Leader(tasks, walk[..k], best) && bestPrio == PrioOf(tasks, best)
        decreases |walk| - k
      {
        AtNext(links, walk, k);
        LeaderNext(tasks, walk, k, best);
        if pool[t].state == Ready && pool[t].priority > bestPrio {
          bestPrio := pool[t].priority;
          best := t;
        }
        t := next[t];
        if t == first {
          break;
        }
        k := k + 1;
      }
      assert walk[..k + 1] == walk;
    }

    /** task.c:97-101: hand the CPU over and charge it; r is the ring seen from the new current task. */
    method Dispatch(best: int, ghost r: seq<nat>)
      requires Valid() && IsRing(r) && |r| == |ring| && Links(next[..], r)
      requires best < SLOTS && r[0] == if best < 0 then current else best
      modifies this, pool
      ensures Valid() && State() == Charge(old(pool[..]), r)
    {
      if best >= 0 {
        current := best;
      }
      ring := r;
      pool[current] := pool[current].(cpuTicks := pool[current].cpuTicks + 1);
    }

    /** task.c:68-103 */
    method ScheduleNow(esp: nat) returns (resumed: nat)
      requires Valid()
      modifies this, pool
      ensures Valid()
      ensures State() == Schedule(old(State()), esp)
      ensures resumed == Resumed(State())
    {
      ghost var s := State();
      pool[current] := pool[current].(esp := esp);
      assert pool[..] == s.pool[current := s.pool[current].(esp := esp)];
      WakePass();
      var best := SelectPass();
      ghost var r := HandOver(next[..], pool[..], ring, best);
      Dispatch(best, r);
      resumed := pool[current].esp;
    }

    /** task_sleep; esp is the stack pointer that the software interrupt saves. */
    method Sleep(ticks: nat, esp: nat)
      requires Valid()
      modifies this, pool
      ensures Valid()
      ensures State() == TaskSleep(old(State()), ticks, esp)
    {
      if ticks == 0 {
        return;
      }
      ghost var s := State();
      pool[current] := pool[current].(sleepTicks := ticks);
      pool[current] := pool[current].(state := Sleeping);
      assert pool[..] == SetSleeping(SetTicks(s, ticks)).pool;
      var _ := ScheduleNow(esp);
    }
  }
}
