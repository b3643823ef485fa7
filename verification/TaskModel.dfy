/**
  The preemptive task scheduler (task.c), as functions on a value.

  Tasks live in a pool of slots: slot 0 is main_task, slot k + 1 is task_pool[k].
  The circular list is the sequence of its slots starting at current_task, so
  ring[0] is always the task that owns the CPU.
*/
module TaskModel {
  import opened Rings

  const TASK_POOL_SIZE: nat := 8
  const SLOTS: nat := 1 + TASK_POOL_SIZE

  datatype TaskState = Ready | Sleeping | Blocked | Zombie

  datatype Tcb = Tcb(id: nat, priority: nat, state: TaskState, sleepTicks: nat, cpuTicks: nat, esp: nat)

  datatype Sched = Sched(pool: seq<Tcb>, ring: seq<nat>)

  /** One cycle through exactly the slots that were created. */
  ghost predicate IsRing(ring: seq<nat>) {
    && 1 <= |ring| <= SLOTS
    && Distinct(ring)
    && forall i | 0 <= i < |ring| :: ring[i] < |ring|
  }

  ghost predicate Wf(s: Sched) {
    |s.pool| == SLOTS && IsRing(s.ring)
  }

  // --------------------------------------------------------------- the two passes

  /** task.c:77-80 on one task. */
  function Wake(t: Tcb): Tcb {
    if t.state != Sleeping then t
    else
      var left := if t.sleepTicks > 0 then t.sleepTicks - 1 else 0;
      t.(sleepTicks := left, state := if left == 0 then Ready else Sleeping)
  }

  function WakeRing(s: Sched): (pool: seq<Tcb>)
    ensures |pool| == |s.pool|
    ensures forall i | 0 <= i < |pool| :: pool[i] == if i in s.ring then Wake(s.pool[i]) else s.pool[i]
  {
    seq(|s.pool|, i requires 0 <= i < |s.pool| => if i in s.ring then Wake(s.pool[i]) else s.pool[i])
  }

  predicate Eligible(t: Tcb) {
    t.state == Ready && t.priority > 0
  }

  ghost predicate Within(xs: seq<nat>, pool: seq<Tcb>) {
    forall i | 0 <= i < |xs| :: xs[i] < |pool|
  }

  /** task.c:85-95: the position of best in the walk, or -1. */
  function Pick(pool: seq<Tcb>, walk: seq<nat>): (b: int)
    requires Within(walk, pool)
    ensures -1 <= b < |walk|
    ensures b >= 0 ==> Eligible(pool[walk[b]])
    ensures b >= 0 ==> forall i | 0 <= i < b ::
              Eligible(pool[walk[i]]) ==> pool[walk[i]].priority < pool[walk[b]].priority
    ensures b >= 0 ==> forall i | b <= i < |walk| ::
              Eligible(pool[walk[i]]) ==> pool[walk[i]].priority <= pool[walk[b]].priority
    ensures b < 0 ==> forall i | 0 <= i < |walk| :: !Eligible(pool[walk[i]])
  {
    if walk == [] then -1
    else
      var n := |walk| - 1;
      var front := walk[..n];
      assert forall i | 0 <= i < n :: walk[i] == front[i];
      var b := Pick(pool, front);
      var bestPrio := if b < 0 then 0 else pool[front[b]].priority;
      if pool[walk[n]].state == Ready && pool[walk[n]].priority > bestPrio then n else b
  }

  // ----------------------------------------------------------------- the operations

  function Woken(s: Sched, esp: nat): (pool: seq<Tcb>)
    requires s.ring != [] && s.ring[0] < |s.pool|
    ensures |pool| == |s.pool|
  {
    WakeRing(s.(pool := s.pool[s.ring[0] := s.pool[s.ring[0]].(esp := esp)]))
  }

  /** The position in the walk of the task that schedule selects, or -1. */
  ghost function Choice(s: Sched, esp: nat): (b: int)
    requires Wf(s)
    ensures -1 <= b < |s.ring|
  {
    WalkMembers(s.ring);
    Pick(Woken(s, esp), Walk(s.ring))
  }

  /** task.c:101 */
  function Charge(pool: seq<Tcb>, ring: seq<nat>): Sched
    requires ring != [] && ring[0] < |pool|
  {
    Sched(pool[ring[0] := pool[ring[0]].(cpuTicks := pool[ring[0]].cpuTicks + 1)], ring)
  }

  lemma RotateRing(ring: seq<nat>, b: int)
    requires IsRing(ring) && -1 <= b < |ring|
    ensures IsRing(Rotate(ring, b))
  {
  }

  /** schedule: the saved esp belongs to the task that loses the CPU. */
  ghost function Schedule(s: Sched, esp: nat): (s': Sched)
    requires Wf(s)
  {
    RotateRing(s.ring, Choice(s, esp));
    Charge(Woken(s, esp), Rotate(s.ring, Choice(s, esp)))
  }

  /** The esp that schedule returns, loaded by the interrupt stub. */
  function Resumed(s': Sched): nat
    requires s'.ring != [] && s'.ring[0] < |s'.pool|
  {
    s'.pool[s'.ring[0]].esp
  }

  /** task.c:109 */
  function SetTicks(s: Sched, ticks: nat): Sched
    requires s.ring != [] && s.ring[0] < |s.pool|
  {
    s.(pool := s.pool[s.ring[0] := s.pool[s.ring[0]].(sleepTicks := ticks)])
  }

  /** task.c:110 */
  function SetSleeping(s: Sched): Sched
    requires s.ring != [] && s.ring[0] < |s.pool|
  {
    s.(pool := s.pool[s.ring[0] := s.pool[s.ring[0]].(state := Sleeping)])
  }

  ghost function TaskSleep(s: Sched, ticks: nat, esp: nat): Sched
    requires Wf(s)
  {
    if ticks == 0 then s else Schedule(SetSleeping(SetTicks(s, ticks)), esp)
  }

  /** create_task: the new task is linked right after the current one. */
  function CreateTask(s: Sched, priority: nat, frame: nat): Sched
    requires s.ring != [] && |s.pool| == SLOTS
  {
    var slot := |s.ring|;
    if slot >= SLOTS then s
    else Sched(s.pool[slot := Tcb(slot, priority, Ready, 0, 0, frame)], [s.ring[0], slot] + s.ring[1..])
  }

  function InitTasking(pool: seq<Tcb>): Sched
    requires |pool| == SLOTS
  {
    Sched(pool[0 := Tcb(0, 1, Ready, 0, 0, 0)], [0])
  }

  lemma ScheduleWf(s: Sched, esp: nat)
    requires Wf(s)
    ensures Wf(Schedule(s, esp)) && |Schedule(s, esp).ring| == |s.ring|
  {
    RotateRing(s.ring, Choice(s, esp));
    RotateMembers(s.ring, Choice(s, esp));
  }

  lemma ScheduleMembers(s: Sched, esp: nat)
    requires Wf(s)
    ensures forall x :: x in Schedule(s, esp).ring <==> x in s.ring
  {
    RotateMembers(s.ring, Choice(s, esp));
  }

  /** Of what the selection saw, schedule changes only a cpu_ticks field. */
  lemma ScheduleTask(s: Sched, esp: nat, x: nat)
    requires Wf(s) && x < |s.pool|
    ensures |Schedule(s, esp).pool| == |s.pool|
    ensures Schedule(s, esp).pool[x].(cpuTicks := 0) == Woken(s, esp)[x].(cpuTicks := 0)
  {
    ScheduleWf(s, esp);
  }

  /**
    What schedule(esp) does to every task: the one that loses the CPU has its stack
    pointer saved, a sleeping one of the ring comes one tick nearer to READY, the
    one that gets the CPU is charged one tick, and nothing else changes.
  */
  lemma ScheduleExactly(s: Sched, esp: nat, x: nat)
    requires Wf(s) && x < SLOTS
    ensures Wf(Schedule(s, esp))
    ensures var t, t', first := s.pool[x], Schedule(s, esp).pool[x], Schedule(s, esp).ring[0];
            var asleep := x in s.ring && t.state == Sleeping;
            && t'.id == t.id && t'.priority == t.priority
            && t'.esp == (if x == s.ring[0] then esp else t.esp)
            && t'.cpuTicks == (if x == first then t.cpuTicks + 1 else t.cpuTicks)
            && t'.sleepTicks == (if asleep && t.sleepTicks > 0 then t.sleepTicks - 1 else t.sleepTicks)
            && t'.state == (if asleep && t.sleepTicks <= 1 then Ready else t.state)
  {
    ScheduleWf(s, esp);
  }

  /** create_task gives the new task its priority, its frame and zero counters, and changes no other task. */
  lemma CreateExactly(s: Sched, priority: nat, frame: nat, x: nat)
    requires Wf(s) && x < SLOTS
    ensures var s' := CreateTask(s, priority, frame);
            var t := s'.pool[x];
            if x == |s.ring| then
              && t.id == x && t.priority == priority && t.state == Ready && t.esp == frame
              && t.sleepTicks == 0 && t.cpuTicks == 0 && x in s'.ring
            else t == s.pool[x] && (x in s'.ring <==> x in s.ring)
  {
    var s' := CreateTask(s, priority, frame);
    if |s.ring| < SLOTS {
      assert s'.ring[1] == |s.ring|;
      assert s.ring == [s.ring[0]] + s.ring[1..];
    }
  }

  /** The two stores of task_sleep(n) touch only these fields of the current task. */
  lemma StoresExactly(s: Sched, n: nat, x: nat)
    requires Wf(s) && x < SLOTS
    ensures var s' := SetSleeping(SetTicks(s, n));
            && s'.ring == s.ring && |s'.pool| == SLOTS
            && s'.pool[x].state == (if x == s.ring[0] then Sleeping else s.pool[x].state)
            && s'.pool[x].sleepTicks == (if x == s.ring[0] then n else s.pool[x].sleepTicks)
            && s'.pool[x].id == s.pool[x].id && s'.pool[x].priority == s.pool[x].priority
            && s'.pool[x].cpuTicks == s.pool[x].cpuTicks && s'.pool[x].esp == s.pool[x].esp
  {
  }

  lemma CreateWf(s: Sched, priority: nat, frame: nat)
    requires Wf(s)
    ensures Wf(CreateTask(s, priority, frame))
  {
    var s' := CreateTask(s, priority, frame);
    if |s.ring| < SLOTS {
      forall i, j | 0 <= i < j < |s'.ring| ensures s'.ring[i] != s'.ring[j] {
        if i > 1 {
          assert s'.ring[i] == s.ring[i - 1];
        }
        if j > 1 {
          assert s'.ring[j] == s.ring[j - 1];
        }
      }
    }
  }

  // ------------------------------------------------------------ what is selected

  /** The READY tasks of the highest positive priority. */
  ghost function Top(pool: seq<Tcb>, ring: seq<nat>): set<nat>
    requires Within(ring, pool)
  {
    set x | x in ring && Eligible(pool[x])
            && forall y | y in ring && Eligible(pool[y]) :: pool[y].priority <= pool[x].priority
  }

  /** b is the first position of the walk that holds a member of top; -1 iff top is empty. */
  ghost predicate FirstIn(walk: seq<nat>, top: set<nat>, b: int) {
    && -1 <= b < |walk|
    && (b >= 0 ==> walk[b] in top && forall i | 0 <= i < b :: walk[i] !in top)
    && (b < 0 ==> top == {})
  }

  lemma PickFirstTop(pool: seq<Tcb>, ring: seq<nat>)
    requires ring != [] && Within(ring, pool)
    ensures Within(Walk(ring), pool)
    ensures FirstIn(Walk(ring), Top(pool, ring), Pick(pool, Walk(ring)))
  {
  }

  /** The top set that the selection pass of schedule(esp) sees in state s. */
  ghost function TopSeen(s: Sched, esp: nat): set<nat>
    requires Wf(s)
  {
    Top(Woken(s, esp), s.ring)
  }

  /** schedule gives the CPU to the first top task after the current one; without top task nobody moves. */
  lemma ScheduleChoice(s: Sched, esp: nat) returns (b: int)
    requires Wf(s)
    ensures b == Choice(s, esp) && FirstIn(Walk(s.ring), TopSeen(s, esp), b)
    ensures Schedule(s, esp).ring == Rotate(s.ring, b)
    ensures b >= 0 ==> Schedule(s, esp).ring[0] == Walk(s.ring)[b]
    ensures b >= 0 ==> Walk(Schedule(s, esp).ring) == Walk(s.ring)[b + 1..] + Walk(s.ring)[..b + 1]
    ensures b < 0 ==> Schedule(s, esp).ring == s.ring
  {
    PickFirstTop(Woken(s, esp), s.ring);
    b := Choice(s, esp);
    if b >= 0 {
      RotateHead(s.ring, b);
    }
  }

  /** A task that is not READY keeps the CPU only if no positive-priority task of the ring is READY. */
  lemma NotReadyKeepsCpu(s: Sched, esp: nat)
    requires Wf(s)
    requires Wf(Schedule(s, esp)) && Schedule(s, esp).pool[Schedule(s, esp).ring[0]].state != Ready
    ensures Schedule(s, esp).ring == s.ring
    ensures forall x | x in s.ring :: !Eligible(Schedule(s, esp).pool[x])
  {
    var b := ScheduleChoice(s, esp);
    WalkMembers(s.ring);
    var pool := Woken(s, esp);
    forall x | x in s.ring ensures !Eligible(pool[x]) {
      var i :| 0 <= i < |Walk(s.ring)| && Walk(s.ring)[i] == x;
    }
  }
}
