/**
  mutex_lock under the real scheduler.  task_sleep(1) raises the timer interrupt
  itself, and that very schedule call makes the sleeper READY again, so a waiter
  that outranks everybody never lets the owner run.
*/
module Starvation {
  import opened Basics
  import opened Rings
  import opened TaskModel
  import opened Locks
  import TaskRuns

  /** Where the waiter is: mutex.c:11-18, task.c:109, task.c:110, task.c:111. */
  datatype Pc = Test | StoreTicks | StoreState | Interrupt | Acquired

  datatype World = World(s: Sched, m: Mutex, pc: Pc)

  /** One step of the waiter w itself, while it has the CPU. */
  ghost predicate WaiterStep(a: World, b: World, w: nat, esp: nat)
    requires Wf(a.s) && w < SLOTS
  {
    match a.pc
    case Test =>
      b.s == a.s && b.m == Attempt(a.m, w) && b.pc == if a.m.locked then StoreTicks else Acquired
    case StoreTicks =>
      b == a.(pc := StoreState, s := a.s.(pool := a.s.pool[w := a.s.pool[w].(sleepTicks := 1)]))
    case StoreState =>
      b == a.(pc := Interrupt, s := a.s.(pool := a.s.pool[w := a.s.pool[w].(state := Sleeping)]))
    case Interrupt =>
      b == a.(pc := Test, s := Schedule(a.s, esp))
    case Acquired => true
  }

  /**
    One round of mutex_lock by the waiter's own steps: it ends with the mutex taken
    if the test finds it unlocked, and is task_sleep(1) up to the next test if not.
  */
  lemma WaiterRound(a: World, b: World, c: World, d: World, e: World, w: nat, esp: nat)
    requires Wf(a.s) && w == a.s.ring[0] && a.pc == Test && WaiterStep(a, b, w, esp)
    requires a.m.locked ==> Wf(b.s) && WaiterStep(b, c, w, esp) && Wf(c.s) && WaiterStep(c, d, w, esp)
    requires a.m.locked ==> Wf(d.s) && WaiterStep(d, e, w, esp)
    ensures if a.m.locked then e == World(TaskSleep(a.s, 1, esp), a.m, Test)
            else b == World(a.s, Mutex(true, Some(w)), Acquired)
  {
  }

  /**
    A step of the machine: a timer interrupt, or a step of the task that has the
    CPU.  What tasks other than w may do is not restricted at all.
  */
  ghost predicate Step(a: World, b: World, w: nat, esp: nat)
    requires w < SLOTS
  {
    Wf(a.s) && a.s.ring[0] == w ==>
      || b == a.(s := Schedule(a.s, esp))
      || WaiterStep(a, b, w, esp)
  }

  ghost predicate Outranks(s: Sched, w: nat)
    requires Wf(s)
  {
    w in s.ring && forall y | y in s.ring && y != w :: s.pool[y].priority < s.pool[w].priority
  }

  /** w has the CPU and waits for a mutex that another task of the ring holds, and outranks all others. */
  ghost predicate Stuck(a: World, w: nat) {
    && Wf(a.s) && a.s.ring[0] == w && Outranks(a.s, w)
    && a.m.locked && a.m.owner.Some? && a.m.owner.value in a.s.ring && a.m.owner.value != w
    && a.pc != Acquired
    && (a.pc == StoreState ==> a.s.pool[w].sleepTicks == 1)
    && (|| a.s.pool[w].state == Ready
        || (a.pc == Interrupt && a.s.pool[w].state == Sleeping && a.s.pool[w].sleepTicks == 1))
  }

  /** Every eligible task of the ring but the current one has lower priority than the current one. */
  ghost predicate StrictlyFirst(pool: seq<Tcb>, ring: seq<nat>)
    requires ring != [] && Within(ring, pool)
  {
    forall y | y in ring && y != ring[0] && Eligible(pool[y]) :: pool[y].priority < pool[ring[0]].priority
  }

  lemma LastOfWalk(pool: seq<Tcb>, ring: seq<nat>)
    requires ring != [] && Within(ring, pool) && Distinct(ring) && pool[ring[0]].state == Ready
    ensures |Walk(ring)| == |ring| && Within(Walk(ring), pool)
    ensures var b := Pick(pool, Walk(ring));
            b < 0 || Walk(ring)[b] == ring[0] <==> StrictlyFirst(pool, ring)
  {
    WalkMembers(ring);
    var walk := Walk(ring);
    var b, w := Pick(pool, walk), ring[0];
    assert walk[|walk| - 1] == w;
    if b < 0 || walk[b] == w {
      forall y | y in ring && y != w && Eligible(pool[y]) ensures pool[y].priority < pool[w].priority {
        assert y in walk;
        var i :| 0 <= i < |walk| && walk[i] == y;
      }
    } else {
      assert walk[b] in ring;
    }
  }

  /**
    A current task that is READY in the selection keeps the CPU exactly when every
    other READY task of positive priority in the ring has strictly lower priority.
  */
  lemma KeepsCpuIff(s: Sched, esp: nat)
    requires Wf(s) && Woken(s, esp)[s.ring[0]].state == Ready
    ensures Wf(Schedule(s, esp))
    ensures Schedule(s, esp).ring[0] == s.ring[0] <==> StrictlyFirst(Woken(s, esp), s.ring)
  {
    ScheduleWf(s, esp);
    WalkMembers(s.ring);
    var b := ScheduleChoice(s, esp);
    LastOfWalk(Woken(s, esp), s.ring);
  }

  lemma StuckIsFirst(a: World, w: nat, esp: nat)
    requires Stuck(a, w)
    ensures Woken(a.s, esp)[w].state == Ready && StrictlyFirst(Woken(a.s, esp), a.s.ring)
  {
    var pool := Woken(a.s, esp);
    forall y | y in a.s.ring ensures pool[y].priority == a.s.pool[y].priority {}
  }

  lemma KeepsRank(s: Sched, esp: nat, w: nat)
    requires Wf(s) && Outranks(s, w)
    ensures Wf(Schedule(s, esp)) && Outranks(Schedule(s, esp), w)
  {
    ScheduleWf(s, esp);
    ScheduleMembers(s, esp);
    var s' := Schedule(s, esp);
    forall y | y in s.ring ensures s'.pool[y].priority == s.pool[y].priority {
      ScheduleTask(s, esp, y);
    }
  }

  lemma ScheduleKeeps(a: World, w: nat, esp: nat)
    requires Stuck(a, w)
    ensures Wf(Schedule(a.s, esp)) && Schedule(a.s, esp).ring[0] == w
    ensures Outranks(Schedule(a.s, esp), w) && Schedule(a.s, esp).pool[w].state == Ready
    ensures a.s.pool[w].state == Ready ==> Schedule(a.s, esp).pool[w].sleepTicks == a.s.pool[w].sleepTicks
    ensures a.m.owner.value in Schedule(a.s, esp).ring
  {
    StuckIsFirst(a, w, esp);
    KeepsCpuIff(a.s, esp);
    KeepsRank(a.s, esp, w);
    ScheduleTask(a.s, esp, w);
    ScheduleMembers(a.s, esp);
  }

  lemma StuckStep(a: World, b: World, w: nat, esp: nat)
    requires Stuck(a, w) && Step(a, b, w, esp)
    ensures Stuck(b, w) && b.m == a.m
  {
    ScheduleKeeps(a, w, esp);
  }

  ghost predicate WorldRun(run: seq<World>, esps: seq<nat>, w: nat) {
    && w < SLOTS && |run| == |esps| + 1
    && forall i, j | 0 <= i < j == i + 1 < |run| :: Step(run[i], run[j], w, esps[i])
  }

  /** At every later point of every run the waiter still has the CPU and the mutex is still held. */
  lemma {:induction false} WaiterStarvesOwner(run: seq<World>, esps: seq<nat>, w: nat, k: nat)
    requires WorldRun(run, esps, w) && Stuck(run[0], w) && k < |run|
    ensures Stuck(run[k], w) && run[k].m == run[0].m
  {
    if k > 0 {
      WaiterStarvesOwner(run, esps, w, k - 1);
      assert Step(run[k - 1], run[k], w, esps[k - 1]);
      StuckStep(run[k - 1], run[k], w, esps[k - 1]);
    }
  }

  // -------------------------------------------------------- the kernel's own tasks

  /** The ring of the main task 0, task_a 1 and task_b 2, seen from the current one. */
  function RingFrom(cur: nat): seq<nat> {
    if cur == 0 then [0, 2, 1] else if cur == 1 then [1, 0, 2] else [2, 1, 0]
  }

  /** Main task and task_b are READY; task_a sleeps for left more ticks or is READY. */
  ghost predicate Kernel(s: Sched, cur: nat, left: nat) {
    && Wf(s) && cur <= 2 && s.ring == RingFrom(cur)
    && s.pool[0].priority == 1 && s.pool[1].priority == 3 && s.pool[2].priority == 2
    && s.pool[0].state == Ready && s.pool[2].state == Ready && TaskRuns.SleepsFor(s, 1, left)
  }

  lemma RingMembers(cur: nat)
    ensures forall x: nat :: x in RingFrom(cur) <==> x <= 2
  {
    var r := RingFrom(cur);
    assert forall x | x in r :: x == r[0] || x == r[1] || x == r[2];
    assert r[0] in r && r[1] in r && r[2] in r;
  }

  lemma KernelWoken(s: Sched, cur: nat, left: nat, esp: nat)
    requires Kernel(s, cur, left)
    ensures TopSeen(s, esp) == {if left <= 1 then 1 else 2}
  {
    var pool := Woken(s, esp);
    RingMembers(cur);
    assert pool[0].state == Ready && pool[0].priority == 1;
    assert pool[2].state == Ready && pool[2].priority == 2;
    assert pool[1].state == (if left <= 1 then Ready else Sleeping) && pool[1].priority == 3;
  }

  lemma KernelFields(s: Sched, cur: nat, left: nat, esp: nat)
    requires Kernel(s, cur, left)
    ensures var p := Schedule(s, esp).pool;
            && |p| == SLOTS && p[0].priority == 1 && p[1].priority == 3 && p[2].priority == 2
            && p[0].state == Ready && p[2].state == Ready
  {
    ScheduleTask(s, esp, 0);
    ScheduleTask(s, esp, 1);
    ScheduleTask(s, esp, 2);
  }

  lemma KernelTurn(cur: nat, c: nat, b: int)
    requires cur <= 2 && 1 <= c <= 2 && FirstIn(Walk(RingFrom(cur)), {c}, b)
    ensures Rotate(RingFrom(cur), b) == RingFrom(c)
  {
  }

  /** A schedule call gives the CPU to task_a as soon as it is READY, and to task_b before. */
  lemma KernelTick(s: Sched, cur: nat, left: nat, esp: nat)
    requires Kernel(s, cur, left)
    ensures Kernel(Schedule(s, esp), if left <= 1 then 1 else 2, if left == 0 then 0 else left - 1)
  {
    KernelWoken(s, cur, left, esp);
    KernelFields(s, cur, left, esp);
    var b := ScheduleChoice(s, esp);
    KernelTurn(cur, if left <= 1 then 1 else 2, b);
    ScheduleWf(s, esp);
    if left > 0 {
      TaskRuns.ScheduleCountsDown(s, esp, 1, left);
    } else {
      ScheduleTask(s, esp, 1);
      ScheduleMembers(s, esp);
    }
  }

  function Ticks(n: nat, esp: nat): seq<TaskRuns.Op> {
    if n == 0 then [] else [TaskRuns.Tick(esp)] + Ticks(n - 1, esp)
  }

  /** While task_a sleeps task_b gets and keeps the CPU; when its sleep is over task_a gets it back. */
  lemma {:induction false} KernelTicks(s: Sched, cur: nat, left: nat, esp: nat)
    requires Kernel(s, cur, left) && left > 0
    ensures Kernel(TaskRuns.RunOps(s, Ticks(left, esp)), 1, 0)
    decreases left
  {
    var s', op := Schedule(s, esp), TaskRuns.Tick(esp);
    KernelTick(s, cur, left, esp);
    TaskRuns.RunCons(s, op, Ticks(left - 1, esp));
    if left > 1 {
      KernelTicks(s', 2, left - 1, esp);
    } else {
      TaskRuns.RunNone(s');
    }
  }

  /** Both create_task calls, a timer tick, and task_a's task_sleep(50) at kernel.c:328. */
  function Opening(frameA: nat, frameB: nat, esp: nat): seq<TaskRuns.Op> {
    [TaskRuns.Create(3, frameA)] + ([TaskRuns.Create(2, frameB)] + ([TaskRuns.Tick(esp)] + TaskRuns.SleepOps(50, esp)))
  }

  lemma KernelCreated(pool: seq<Tcb>, frameA: nat, frameB: nat)
    requires |pool| == SLOTS
    ensures Wf(InitTasking(pool)) && Wf(CreateTask(InitTasking(pool), 3, frameA))
    ensures Kernel(CreateTask(CreateTask(InitTasking(pool), 3, frameA), 2, frameB), 0, 0)
  {
    var s0 := InitTasking(pool);
    CreateWf(s0, 3, frameA);
    var s1 := CreateTask(s0, 3, frameA);
    assert s1.ring == [0, 1];
    CreateWf(s1, 2, frameB);
    assert CreateTask(s1, 2, frameB).ring == [0, 2, 1];
  }

  lemma KernelNaps(s: Sched, n: nat)
    requires Kernel(s, 1, 0) && n > 0
    ensures Wf(SetTicks(s, n)) && Kernel(SetSleeping(SetTicks(s, n)), 1, n)
  {
    RingMembers(1);
  }

  lemma NapRun(s: Sched, cur: nat, esp: nat)
    requires Kernel(s, cur, 0) && cur == 1
    ensures Kernel(TaskRuns.RunOps(s, TaskRuns.SleepOps(50, esp)), 2, 49)
  {
    KernelNaps(s, 50);
    KernelTick(SetSleeping(SetTicks(s, 50)), cur, 50, esp);
    TaskRuns.SleepIsThreeSteps(s, 50, esp);
  }

  lemma OpeningRun(pool: seq<Tcb>, frameA: nat, frameB: nat, esp: nat)
    requires |pool| == SLOTS
    ensures Wf(InitTasking(pool))
    ensures Kernel(TaskRuns.RunOps(InitTasking(pool), Opening(frameA, frameB, esp)), 2, 49)
  {
    KernelCreated(pool, frameA, frameB);
    var s0 := InitTasking(pool);
    var s1 := CreateTask(s0, 3, frameA);
    var s2 := CreateTask(s1, 2, frameB);
    var nap := [TaskRuns.Tick(esp)] + TaskRuns.SleepOps(50, esp);
    TaskRuns.RunCons(s0, TaskRuns.Create(3, frameA), [TaskRuns.Create(2, frameB)] + nap);
    TaskRuns.RunCons(s1, TaskRuns.Create(2, frameB), nap);
    TaskRuns.RunCons(s2, TaskRuns.Tick(esp), TaskRuns.SleepOps(50, esp));
    KernelTick(s2, 0, 0, esp);
    NapRun(Schedule(s2, esp), 1, esp);
  }

  /**
    The kernel's own tasks get there from init_tasking: while task_a sleeps,
    task_b takes the queue lock and is interrupted until task_a wakes and calls
    queue_push; from then on task_a has the CPU forever.
  */
  lemma KernelTasksGetStuck(pool: seq<Tcb>, frameA: nat, frameB: nat, esp: nat)
    returns (taking: Sched, waiting: Sched)
    requires |pool| == SLOTS
    ensures Wf(InitTasking(pool)) && taking == TaskRuns.RunOps(InitTasking(pool), Opening(frameA, frameB, esp))
    ensures Wf(taking) && taking.ring[0] == 2 && waiting == TaskRuns.RunOps(taking, Ticks(49, esp))
    ensures Stuck(World(waiting, Attempt(UNLOCKED, taking.ring[0]), Test), 1)
  {
    OpeningRun(pool, frameA, frameB, esp);
    taking := TaskRuns.RunOps(InitTasking(pool), Opening(frameA, frameB, esp));
    KernelTicks(taking, 2, 49, esp);
    waiting := TaskRuns.RunOps(taking, Ticks(49, esp));
  }
}
