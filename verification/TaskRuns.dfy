/** Whole runs of the task scheduler: round robin, saved stacks, CPU accounting and sleep. */
module TaskRuns {
  import opened Rings
  import opened TaskModel

  // ---------------------------------------------------------------- round robin

  /** The ring after the running task created the tasks in news, the last one first. */
  function Inserted(ring: seq<nat>, news: seq<nat>): seq<nat>
    requires ring != []
  {
    [ring[0]] + news + ring[1..]
  }

  /** s' may be the state at the schedule call after the one entered in s: any field changed, any tasks created. */
  ghost predicate Follows(s: Sched, esp: nat, s': Sched)
    requires Wf(s)
  {
    && Wf(s') && Schedule(s, esp).ring != []
    && exists news :: s'.ring == Inserted(Schedule(s, esp).ring, news)
  }

  /** The states in which consecutive schedule calls were entered, with any code running in between. */
  ghost predicate CallTrace(states: seq<Sched>, esps: seq<nat>) {
    && |states| == |esps| + 1
    && (forall i | 0 <= i < |states| :: Wf(states[i]))
    && (forall i, j | 0 <= i < j == i + 1 < |states| :: Follows(states[i], esps[i], states[j]))
  }

  /** The task chosen by each call. */
  function Chosen(states: seq<Sched>): seq<nat>
    requires forall i | 0 <= i < |states| :: states[i].ring != []
  {
    if |states| <= 1 then [] else [states[1].ring[0]] + Chosen(states[1..])
  }

  function Members(walk: seq<nat>, top: set<nat>): seq<nat> {
    if walk == [] then []
    else (if walk[0] in top then [walk[0]] else []) + Members(walk[1..], top)
  }

  lemma {:induction false} MembersFrom(walk: seq<nat>, top: set<nat>, b: nat)
    requires b < |walk| && walk[b] in top && forall i | 0 <= i < b :: walk[i] !in top
    ensures Members(walk, top) == [walk[b]] + Members(walk[b + 1..], top)
  {
    if b > 0 {
      MembersFrom(walk[1..], top, b - 1);
      assert walk[1..][b..] == walk[b + 1..];
    }
  }

  lemma {:induction false} MembersEmpty(walk: seq<nat>, top: set<nat>)
    ensures Members(walk, top) == [] <==> forall i | 0 <= i < |walk| :: walk[i] !in top
  {
    if walk != [] {
      MembersEmpty(walk[1..], top);
      assert forall i | 0 < i < |walk| :: walk[i] == walk[1..][i - 1];
    }
  }

  lemma {:induction false} MembersIn(walk: seq<nat>, top: set<nat>, x: nat)
    ensures x in Members(walk, top) <==> x in walk && x in top
  {
    if walk != [] {
      MembersIn(walk[1..], top, x);
    }
  }

  lemma {:induction false} MembersDistinct(walk: seq<nat>, top: set<nat>)
    requires Distinct(walk)
    ensures Distinct(Members(walk, top))
  {
    if walk != [] {
      MembersDistinct(walk[1..], top);
      MembersIn(walk[1..], top, walk[0]);
    }
  }

  lemma {:induction false} DistinctSize(xs: seq<nat>, elems: set<nat>)
    requires Distinct(xs) && forall x :: x in elems <==> x in xs
    ensures |elems| == |xs|
  {
    if xs == [] {
      assert elems == {};
    } else {
      var rest := elems - {xs[0]};
      forall x ensures x in rest <==> x in xs[1..] {
        assert x in xs <==> x == xs[0] || x in xs[1..];
      }
      DistinctSize(xs[1..], rest);
    }
  }

  /** On a ring, Members lists every element of top exactly once. */
  lemma MembersEnumerate(walk: seq<nat>, top: set<nat>)
    requires Distinct(walk) && forall x | x in top :: x in walk
    ensures |Members(walk, top)| == |top| && Distinct(Members(walk, top))
    ensures forall x :: x in Members(walk, top) <==> x in top
  {
    forall x ensures x in Members(walk, top) <==> x in top {
      MembersIn(walk, top, x);
    }
    MembersDistinct(walk, top);
    DistinctSize(Members(walk, top), top);
  }

  lemma CreateInserts(s: Sched, priority: nat, frame: nat)
    requires Wf(s)
    ensures CreateTask(s, priority, frame).ring == Inserted(s.ring, if |s.ring| < SLOTS then [|s.ring|] else [])
  {
    assert s.ring == [s.ring[0]] + s.ring[1..];
  }

  lemma {:induction false} MembersSkip(news: seq<nat>, walk: seq<nat>, top: set<nat>)
    requires forall x | x in news :: x !in top
    ensures Members(news + walk, top) == Members(walk, top)
  {
    if news == [] {
      assert news + walk == walk;
    } else {
      assert (news + walk)[1..] == news[1..] + walk;
      MembersSkip(news[1..], walk, top);
    }
  }

  /** Created tasks come right after the current one and were not in the ring before. */
  lemma InsertedWalk(ring: seq<nat>, news: seq<nat>)
    requires ring != [] && Distinct(Inserted(ring, news))
    ensures Walk(Inserted(ring, news)) == news + Walk(ring)
    ensures forall x | x in news :: x !in ring
  {
    var r := Inserted(ring, news);
    assert r[1..] == news + ring[1..];
    forall x | x in news ensures x !in ring {
      var k :| 0 <= k < |news| && news[k] == x;
      assert r[k + 1] == x;
      forall i | 0 <= i < |ring| ensures ring[i] != x {
        assert r[if i == 0 then 0 else i + |news|] == ring[i];
      }
    }
  }

  lemma TurnWalk(rest: seq<nat>, done: seq<nat>, k: nat)
    requires k <= |rest|
    ensures (rest + done)[k..] + (rest + done)[..k] == rest[k..] + (done + rest[..k])
  {
  }

  lemma FirstInRest(walk: seq<nat>, rest: seq<nat>, done: seq<nat>, top: set<nat>, b: int)
    requires walk == rest + done && FirstIn(walk, top, b) && Members(rest, top) != []
    ensures 0 <= b < |rest| && walk[b] == rest[b]
    ensures Members(rest, top) == [rest[b]] + Members(rest[b + 1..], top)
    ensures walk[b + 1..] + walk[..b + 1] == rest[b + 1..] + (done + rest[..b + 1])
  {
    MembersEmpty(rest, top);
    var k :| 0 <= k < |rest| && rest[k] in top;
    assert walk[k] in top;
    assert forall i | 0 <= i < |rest| :: walk[i] == rest[i];
    MembersFrom(rest, top, b);
    TurnWalk(rest, done, b + 1);
  }

  /** One call chooses the first member of top left in rest and moves the walk past it. */
  lemma RoundRobinStep(s: Sched, esp: nat, rest: seq<nat>, done: seq<nat>) returns (b: nat)
    requires Wf(s) && Walk(s.ring) == rest + done && Members(rest, TopSeen(s, esp)) != []
    ensures b < |rest| && Wf(Schedule(s, esp)) && Schedule(s, esp).ring[0] == rest[b]
    ensures Members(rest, TopSeen(s, esp)) == [rest[b]] + Members(rest[b + 1..], TopSeen(s, esp))
    ensures Walk(Schedule(s, esp).ring) == rest[b + 1..] + (done + rest[..b + 1])
  {
    var top := TopSeen(s, esp);
    var walk := Walk(s.ring);
    ScheduleWf(s, esp);
    var c := ScheduleChoice(s, esp);
    FirstInRest(walk, rest, done, top, c);
    b := c;
  }

  /** Created tasks do not change which members of top are still to come. */
  lemma InsertedAhead(r: seq<nat>, news: seq<nat>, left: seq<nat>, turned: seq<nat>, top: set<nat>)
    requires r != [] && Distinct(Inserted(r, news)) && Walk(r) == left + turned && forall x | x in top :: x in r
    ensures Inserted(r, news)[0] == r[0]
    ensures Walk(Inserted(r, news)) == (news + left) + turned
    ensures Members(news + left, top) == Members(left, top)
  {
    InsertedWalk(r, news);
    assert news + (left + turned) == (news + left) + turned;
    MembersSkip(news, left, top);
  }

  lemma TopInRing(s: Sched, esp: nat)
    requires Wf(s)
    ensures forall x | x in TopSeen(s, esp) :: x in Schedule(s, esp).ring
  {
    ScheduleMembers(s, esp);
  }

  lemma TakeNews(r: seq<nat>, ring: seq<nat>) returns (news: seq<nat>)
    requires r != [] && exists news :: ring == Inserted(r, news)
    ensures ring == Inserted(r, news)
  {
    news :| ring == Inserted(r, news);
  }

  /** From one call to the next: x is chosen, and what is left of top is listed by rest'. */
  lemma RoundRobinNext(s: Sched, esp: nat, s': Sched, rest: seq<nat>, done: seq<nat>)
    returns (x: nat, rest': seq<nat>, done': seq<nat>)
    requires Wf(s) && Follows(s, esp, s') && Walk(s.ring) == rest + done && Members(rest, TopSeen(s, esp)) != []
    ensures s'.ring[0] == x && Walk(s'.ring) == rest' + done'
    ensures Members(rest, TopSeen(s, esp)) == [x] + Members(rest', TopSeen(s, esp))
  {
    var b := RoundRobinStep(s, esp, rest, done);
    TopInRing(s, esp);
    var r, top := Schedule(s, esp).ring, TopSeen(s, esp);
    var news := TakeNews(r, s'.ring);
    var left := rest[b + 1..];
    done' := done + rest[..b + 1];
    InsertedAhead(r, news, left, done', top);
    x, rest' := rest[b], news + left;
  }

  lemma TailTrace(states: seq<Sched>, esps: seq<nat>, top: set<nat>)
    requires CallTrace(states, esps) && esps != []
    requires forall i | 0 <= i < |esps| :: TopSeen(states[i], esps[i]) == top
    ensures CallTrace(states[1..], esps[1..])
    ensures forall i | 0 <= i < |esps[1..]| :: TopSeen(states[1..][i], esps[1..][i]) == top
  {
    var ss, es := states[1..], esps[1..];
    forall i, j | 0 <= i < j == i + 1 < |ss| ensures Follows(ss[i], es[i], ss[j]) {
      assert Follows(states[i + 1], esps[i + 1], states[j + 1]);
    }
    forall i | 0 <= i < |es| ensures TopSeen(ss[i], es[i]) == top {
      assert TopSeen(states[i + 1], esps[i + 1]) == top;
    }
  }

  lemma {:induction false} RoundRobinFrom(states: seq<Sched>, esps: seq<nat>, top: set<nat>,
                                          rest: seq<nat>, done: seq<nat>)
    requires CallTrace(states, esps)
    requires forall i | 0 <= i < |esps| :: TopSeen(states[i], esps[i]) == top
    requires Walk(states[0].ring) == rest + done && |esps| == |Members(rest, top)|
    ensures Chosen(states) == Members(rest, top)
    decreases |esps|
  {
    if esps != [] {
      assert TopSeen(states[0], esps[0]) == top;
      assert Follows(states[0], esps[0], states[1]);
      var x, rest', done' := RoundRobinNext(states[0], esps[0], states[1], rest, done);
      TailTrace(states, esps, top);
      RoundRobinFrom(states[1..], esps[1..], top, rest', done');
    }
  }

  /**
    If the set of READY tasks of highest positive priority stays the same over as
    many calls as it has members, each member is chosen exactly once, in ring
    order starting after the current task.
  */
  lemma RoundRobin(states: seq<Sched>, esps: seq<nat>, top: set<nat>)
    requires CallTrace(states, esps) && |esps| == |top|
    requires forall i | 0 <= i < |esps| :: TopSeen(states[i], esps[i]) == top
    requires top != {}
    ensures Chosen(states) == Members(Walk(states[0].ring), top)
    ensures |Chosen(states)| == |top| && Distinct(Chosen(states))
    ensures forall x :: x in Chosen(states) <==> x in top
  {
    var ring := states[0].ring;
    WalkMembers(ring);
    assert TopSeen(states[0], esps[0]) == top;
    forall x | x in top ensures x in Walk(ring) {
      assert x in ring;
    }
    MembersEnumerate(Walk(ring), top);
    assert Walk(ring) == Walk(ring) + [];
    RoundRobinFrom(states, esps, top, Walk(ring), []);
  }

  // ----------------------------------------------------------------- runs of calls

  /**
    What the task that has the CPU does, and schedule calls: task_sleep(n) is
    StoreTicks(n), StoreSleeping and a Tick raised by software, and a Tick raised
    by the timer may fall before, between or after them.
  */
  datatype Op = Create(priority: nat, frame: nat) | StoreTicks(ticks: nat) | StoreSleeping | Tick(esp: nat)

  ghost function Apply(s: Sched, op: Op): Sched
    requires Wf(s)
  {
    match op
    case Create(priority, frame) => CreateTask(s, priority, frame)
    case StoreTicks(ticks) => SetTicks(s, ticks)
    case StoreSleeping => SetSleeping(s)
    case Tick(esp) => Schedule(s, esp)
  }

  /** What happened to the stacks: a frame was built, or a stack pointer was saved. */
  datatype Event = Built(slot: nat, esp: nat) | Saved(slot: nat, esp: nat)

  ghost function Events(s: Sched, op: Op): seq<Event>
    requires Wf(s)
  {
    match op
    case Create(_, frame) => if |s.ring| < SLOTS then [Built(|s.ring|, frame)] else []
    case Tick(esp) => [Saved(s.ring[0], esp)]
    case _ => []
  }

  function Calls(op: Op): nat {
    if op.Tick? then 1 else 0
  }

  /** The stack pointer of the last time slot lost the CPU, or else its initial frame. */
  function LastSaved(h: seq<Event>, slot: nat): nat {
    if h == [] then 0
    else if h[|h| - 1].slot == slot then h[|h| - 1].esp
    else LastSaved(h[..|h| - 1], slot)
  }

  function BuiltCount(h: seq<Event>): nat {
    if h == [] then 0 else BuiltCount(h[..|h| - 1]) + if h[|h| - 1].Built? then 1 else 0
  }

  function TickSum(pool: seq<Tcb>, n: nat): nat
    requires n <= |pool|
  {
    if n == 0 then 0 else TickSum(pool, n - 1) + pool[n - 1].cpuTicks
  }

  datatype Machine = Machine(s: Sched, h: seq<Event>, calls: nat)

  ghost function Step(m: Machine, op: Op): Machine
    requires Wf(m.s)
  {
    Machine(Apply(m.s, op), m.h + Events(m.s, op), m.calls + Calls(op))
  }

  ghost predicate Inv(m: Machine) {
    && Wf(m.s)
    && |m.s.ring| == BuiltCount(m.h)
    && (forall x | x in m.s.ring :: m.s.pool[x].esp == LastSaved(m.h, x))
    && TickSum(m.s.pool, |m.s.ring|) == m.calls
  }

  function Boot(pool: seq<Tcb>): Machine
    requires |pool| == SLOTS
  {
    Machine(InitTasking(pool), [Built(0, 0)], 0)
  }

  lemma {:induction false} TickSumSame(p: seq<Tcb>, q: seq<Tcb>, n: nat)
    requires n <= |p| == |q| && forall i | 0 <= i < n :: p[i].cpuTicks == q[i].cpuTicks
    ensures TickSum(p, n) == TickSum(q, n)
  {
    if n > 0 {
      TickSumSame(p, q, n - 1);
    }
  }

  lemma {:induction false} TickSumBump(p: seq<Tcb>, n: nat, x: nat)
    requires x < n <= |p|
    ensures TickSum(p[x := p[x].(cpuTicks := p[x].cpuTicks + 1)], n) == TickSum(p, n) + 1
  {
    var q := p[x := p[x].(cpuTicks := p[x].cpuTicks + 1)];
    if x == n - 1 {
      TickSumSame(p, q, n - 1);
    } else {
      TickSumBump(p, n - 1, x);
    }
  }

  lemma HistoryGrows(h: seq<Event>, e: Event)
    ensures BuiltCount(h + [e]) == BuiltCount(h) + if e.Built? then 1 else 0
    ensures forall x :: LastSaved(h + [e], x) == if e.slot == x then e.esp else LastSaved(h, x)
  {
  }

  lemma WakeTicks(s: Sched, esp: nat)
    requires Wf(s)
    ensures TickSum(Woken(s, esp), |s.ring|) == TickSum(s.pool, |s.ring|)
  {
    var pool := Woken(s, esp);
    forall i | 0 <= i < |s.ring| ensures pool[i].cpuTicks == s.pool[i].cpuTicks {}
    TickSumSame(s.pool, pool, |s.ring|);
  }

  lemma ChargeTicks(pool: seq<Tcb>, ring: seq<nat>, n: nat)
    requires ring != [] && ring[0] < n <= |pool|
    ensures TickSum(Charge(pool, ring).pool, n) == TickSum(pool, n) + 1
  {
    TickSumBump(pool, n, ring[0]);
  }

  lemma ScheduleTicks(s: Sched, esp: nat)
    requires Wf(s)
    ensures Wf(Schedule(s, esp)) && |Schedule(s, esp).ring| == |s.ring|
    ensures TickSum(Schedule(s, esp).pool, |s.ring|) == TickSum(s.pool, |s.ring|) + 1
  {
    WakeTicks(s, esp);
    ScheduleWf(s, esp);
    ChargeTicks(Woken(s, esp), Schedule(s, esp).ring, |s.ring|);
  }

  lemma WokenEsp(s: Sched, esp: nat, x: nat)
    requires s.ring != [] && s.ring[0] < |s.pool| && x < |s.pool|
    ensures Woken(s, esp)[x].esp == if x == s.ring[0] then esp else s.pool[x].esp
  {
  }

  lemma ScheduleEsp(s: Sched, esp: nat, x: nat)
    requires Wf(s) && x < |s.pool|
    ensures |Schedule(s, esp).pool| == |s.pool|
    ensures Schedule(s, esp).pool[x].esp == if x == s.ring[0] then esp else s.pool[x].esp
  {
    ScheduleTask(s, esp, x);
    WokenEsp(s, esp, x);
  }

  lemma ScheduleInv(m: Machine, esp: nat)
    requires Inv(m)
    ensures Inv(Machine(Schedule(m.s, esp), m.h + [Saved(m.s.ring[0], esp)], m.calls + 1))
  {
    var s' := Schedule(m.s, esp);
    var h' := m.h + [Saved(m.s.ring[0], esp)];
    ScheduleWf(m.s, esp);
    ScheduleMembers(m.s, esp);
    ScheduleTicks(m.s, esp);
    HistoryGrows(m.h, Saved(m.s.ring[0], esp));
    forall x | x in s'.ring ensures s'.pool[x].esp == LastSaved(h', x) {
      ScheduleEsp(m.s, esp, x);
    }
  }

  lemma StoreInv(m: Machine, ticks: nat)
    requires Inv(m)
    ensures Inv(m.(s := SetTicks(m.s, ticks))) && Inv(m.(s := SetSleeping(m.s)))
  {
    TickSumSame(m.s.pool, SetTicks(m.s, ticks).pool, |m.s.ring|);
    TickSumSame(m.s.pool, SetSleeping(m.s).pool, |m.s.ring|);
  }

  lemma CreateInv(m: Machine, priority: nat, frame: nat)
    requires Inv(m) && |m.s.ring| < SLOTS
    ensures Inv(Step(m, Create(priority, frame)))
  {
    var s := m.s;
    var s' := CreateTask(s, priority, frame);
    CreateWf(s, priority, frame);
    HistoryGrows(m.h, Built(|s.ring|, frame));
    TickSumSame(s.pool, s'.pool, |s.ring|);
    forall x | x in s'.ring && x != |s.ring| ensures x in s.ring {
      assert s.ring == [s.ring[0]] + s.ring[1..];
    }
  }

  lemma StepInv(m: Machine, op: Op)
    requires Inv(m)
    ensures Inv(Step(m, op))
  {
    assert m.h + [] == m.h;
    match op
    case Create(priority, frame) =>
      if |m.s.ring| < SLOTS {
        CreateInv(m, priority, frame);
      }
    case StoreTicks(ticks) => StoreInv(m, ticks);
    case StoreSleeping => StoreInv(m, 0);
    case Tick(esp) => ScheduleInv(m, esp);
  }

  /** m can be reached from init_tasking by the steps in ops. */
  ghost predicate Reaches(pool: seq<Tcb>, ops: seq<Op>, m: Machine)
    requires |pool| == SLOTS
    decreases |ops|
  {
    if ops == [] then m == Boot(pool)
    else exists m0 :: Reaches(pool, ops[..|ops| - 1], m0) && Wf(m0.s) && m == Step(m0, ops[|ops| - 1])
  }

  /**
    In every reachable state the ring is one cycle of exactly the tasks created,
    every task's saved stack pointer is that of the last time it lost the CPU (or
    its initial frame), and the CPU ticks of all tasks add up to the schedule calls.
  */
  lemma {:induction false} ReachableInv(pool: seq<Tcb>, ops: seq<Op>, m: Machine)
    requires |pool| == SLOTS && Reaches(pool, ops, m)
    ensures Inv(m)
    decreases |ops|
  {
    if ops == [] {
      HistoryGrows([], Built(0, 0));
      assert [] + [Built(0, 0)] == [Built(0, 0)];
      assert TickSum(m.s.pool, 1) == TickSum(m.s.pool, 0) + m.s.pool[0].cpuTicks;
    } else {
      var m0 :| Reaches(pool, ops[..|ops| - 1], m0) && Wf(m0.s) && m == Step(m0, ops[|ops| - 1]);
      ReachableInv(pool, ops[..|ops| - 1], m0);
      StepInv(m0, ops[|ops| - 1]);
    }
  }

  lemma ApplyWf(s: Sched, op: Op)
    requires Wf(s)
    ensures Wf(Apply(s, op))
  {
    match op
    case Create(priority, frame) => CreateWf(s, priority, frame);
    case StoreTicks(_) =>
    case StoreSleeping =>
    case Tick(esp) => ScheduleWf(s, esp);
  }

  /** How many of the schedule calls of the run left x with the CPU. */
  ghost function Turns(s: Sched, ops: seq<Op>, x: nat): nat
    requires Wf(s)
    decreases |ops|
  {
    if ops == [] then 0
    else
      ApplyWf(s, ops[0]);
      var s' := Apply(s, ops[0]);
      (if ops[0].Tick? && s'.ring[0] == x then 1 else 0) + Turns(s', ops[1..], x)
  }

  /** cpu_ticks of a task of the ring; a slot that is not yet in use has none. */
  function TicksOf(s: Sched, x: nat): nat {
    if x in s.ring && x < |s.pool| then s.pool[x].cpuTicks else 0
  }

  lemma ApplyTicks(s: Sched, op: Op, x: nat)
    requires Wf(s)
    ensures Wf(Apply(s, op))
    ensures TicksOf(Apply(s, op), x) == TicksOf(s, x) + if op.Tick? && Apply(s, op).ring[0] == x then 1 else 0
  {
    ApplyWf(s, op);
    match op
    case Create(priority, frame) =>
      if x < SLOTS {
        CreateExactly(s, priority, frame, x);
      }
    case StoreTicks(_) =>
    case StoreSleeping =>
    case Tick(esp) =>
      ScheduleMembers(s, esp);
      if x < SLOTS {
        ScheduleExactly(s, esp, x);
      }
  }

  ghost function RunOps(s: Sched, ops: seq<Op>): (s': Sched)
    requires Wf(s)
    ensures Wf(s')
    decreases |ops|
  {
    if ops == [] then s else ApplyWf(s, ops[0]); RunOps(Apply(s, ops[0]), ops[1..])
  }

  lemma {:induction false} TicksGrow(s: Sched, ops: seq<Op>, x: nat)
    requires Wf(s)
    ensures TicksOf(RunOps(s, ops), x) == TicksOf(s, x) + Turns(s, ops, x)
    decreases |ops|
  {
    if ops != [] {
      ApplyTicks(s, ops[0], x);
      TicksGrow(Apply(s, ops[0]), ops[1..], x);
    }
  }

  /** In every run from init_tasking each task's cpu_ticks is the number of schedule calls that left it the CPU. */
  lemma TicksAreTurns(pool: seq<Tcb>, ops: seq<Op>, x: nat)
    requires |pool| == SLOTS
    ensures Wf(InitTasking(pool))
    ensures TicksOf(RunOps(InitTasking(pool), ops), x) == Turns(InitTasking(pool), ops, x)
  {
    TicksGrow(InitTasking(pool), ops, x);
  }

  /** The task that gets the CPU resumes on the stack it was on when it last lost it. */
  lemma ResumesWhereItStopped(m: Machine, esp: nat)
    requires Inv(m)
    ensures var s' := Schedule(m.s, esp);
            && Wf(s')
            && Resumed(s') == LastSaved(m.h + [Saved(m.s.ring[0], esp)], s'.ring[0])
            && TickSum(s'.pool, |s'.ring|) == m.calls + 1
  {
    ScheduleInv(m, esp);
  }

  // ----------------------------------------------------------------------- sleep

  predicate IsStore(op: Op) {
    op.StoreTicks? || op.StoreSleeping?
  }

  /** While x has the CPU it performs none of the stores of task_sleep. */
  ghost predicate Undisturbed(s: Sched, ops: seq<Op>, x: nat)
    requires Wf(s)
    decreases |ops|
  {
    ops == [] ||
    (&& (s.ring[0] == x ==> !IsStore(ops[0]))
     && Wf(Apply(s, ops[0]))
     && Undisturbed(Apply(s, ops[0]), ops[1..], x))
  }

  lemma RunNone(s: Sched)
    requires Wf(s)
    ensures RunOps(s, []) == s
  {
  }

  lemma RunCons(s: Sched, op: Op, ops: seq<Op>)
    requires Wf(s)
    ensures Wf(Apply(s, op)) && RunOps(s, [op] + ops) == RunOps(Apply(s, op), ops)
  {
    ApplyWf(s, op);
    assert ([op] + ops)[1..] == ops;
  }

  /** task_sleep(n), when no timer interrupt falls between its stores. */
  function SleepOps(n: nat, esp: nat): seq<Op> {
    [StoreTicks(n)] + ([StoreSleeping] + [Tick(esp)])
  }

  lemma SleepIsThreeSteps(s: Sched, n: nat, esp: nat)
    requires Wf(s) && n > 0
    ensures RunOps(s, SleepOps(n, esp)) == TaskSleep(s, n, esp)
  {
    var s1 := SetTicks(s, n);
    var s2 := SetSleeping(s1);
    RunCons(s, StoreTicks(n), [StoreSleeping] + [Tick(esp)]);
    RunCons(s1, StoreSleeping, [Tick(esp)]);
    assert [Tick(esp)] == [Tick(esp)] + [];
    RunCons(s2, Tick(esp), []);
  }

  function TotalCalls(ops: seq<Op>): nat {
    if ops == [] then 0 else Calls(ops[0]) + TotalCalls(ops[1..])
  }

  function CallsToWake(ticks: nat): nat {
    if ticks == 0 then 1 else ticks
  }

  /** Task x needs left > 0 schedule calls to wake, or is READY when left is 0.  No ticks wake like one. */
  ghost predicate SleepsFor(s: Sched, x: nat, left: nat) {
    && x in s.ring && x < |s.pool|
    && if left == 0 then s.pool[x].state == Ready
       else s.pool[x].state == Sleeping && left == CallsToWake(s.pool[x].sleepTicks)
  }

  lemma ScheduleCountsDown(s: Sched, esp: nat, x: nat, left: nat)
    requires Wf(s) && SleepsFor(s, x, left) && left > 0
    ensures SleepsFor(Schedule(s, esp), x, left - 1)
  {
    ScheduleMembers(s, esp);
  }

  lemma CreateKeepsTask(s: Sched, priority: nat, frame: nat, x: nat)
    requires Wf(s) && x in s.ring
    ensures x in CreateTask(s, priority, frame).ring && CreateTask(s, priority, frame).pool[x] == s.pool[x]
  {
    assert s.ring == [s.ring[0]] + s.ring[1..];
  }

  lemma ApplyCountsDown(s: Sched, op: Op, x: nat, left: nat)
    requires Wf(s) && SleepsFor(s, x, left) && Calls(op) <= left && (s.ring[0] == x ==> !IsStore(op))
    ensures Wf(Apply(s, op)) && SleepsFor(Apply(s, op), x, left - Calls(op))
  {
    ApplyWf(s, op);
    match op
    case Create(priority, frame) => CreateKeepsTask(s, priority, frame, x);
    case StoreTicks(_) =>
    case StoreSleeping =>
    case Tick(esp) => ScheduleCountsDown(s, esp, x, left);
  }

  /** A sleeping task stays asleep over fewer than left schedule calls and is READY after exactly left of them. */
  lemma {:induction false} WakesExactly(s: Sched, ops: seq<Op>, x: nat, left: nat)
    requires Wf(s) && SleepsFor(s, x, left) && Undisturbed(s, ops, x) && TotalCalls(ops) <= left
    ensures SleepsFor(RunOps(s, ops), x, left - TotalCalls(ops))
    decreases |ops|
  {
    if ops != [] {
      ApplyCountsDown(s, ops[0], x, left);
      WakesExactly(Apply(s, ops[0]), ops[1..], x, left - Calls(ops[0]));
    }
  }

  /** Task x has ticks left in sleep_ticks, and they are counting down. */
  ghost predicate Holds(s: Sched, x: nat, ticks: nat, counting: bool) {
    && x in s.ring && x < |s.pool| && s.pool[x].sleepTicks == ticks
    && (s.pool[x].state == Sleeping <==> counting && ticks > 0)
  }

  /** What is left of n ticks after some schedule calls. */
  function Left(n: nat, calls: nat, counting: bool): nat {
    if !counting then n else if calls < n then n - calls else 0
  }

  lemma ApplyHolds(s: Sched, op: Op, x: nat, ticks: nat, counting: bool)
    requires Wf(s) && Holds(s, x, ticks, counting) && (s.ring[0] == x ==> !IsStore(op))
    ensures Wf(Apply(s, op)) && Holds(Apply(s, op), x, Left(ticks, Calls(op), counting), counting)
  {
    ApplyWf(s, op);
    match op
    case Create(priority, frame) => CreateKeepsTask(s, priority, frame, x);
    case StoreTicks(_) =>
    case StoreSleeping =>
    case Tick(esp) =>
      ScheduleMembers(s, esp);
      ScheduleTask(s, esp, x);
  }

  lemma {:induction false} RunHolds(s: Sched, ops: seq<Op>, x: nat, ticks: nat, counting: bool)
    requires Wf(s) && Holds(s, x, ticks, counting) && Undisturbed(s, ops, x)
    ensures Holds(RunOps(s, ops), x, Left(ticks, TotalCalls(ops), counting), counting)
    decreases |ops|
  {
    if ops != [] {
      ApplyHolds(s, ops[0], x, ticks, counting);
      RunHolds(Apply(s, ops[0]), ops[1..], x, Left(ticks, Calls(ops[0]), counting), counting);
    }
  }

  /**
    task_sleep(n) with anything happening between its two stores and after them.
    From the store at task.c:110 on, a task that was awake is READY after exactly n
    schedule calls, the first of which is the timer's or its own.  For a task that
    had the CPU while SLEEPING the calls between the stores count as well, and one
    more call is needed if they used up all n.
  */
  lemma TaskSleepWakes(s: Sched, n: nat, between: seq<Op>, after: seq<Op>)
    requires Wf(s) && n > 0
    requires Undisturbed(SetTicks(s, n), between, s.ring[0])
    requires RunOps(SetTicks(s, n), between).ring[0] == s.ring[0]
    requires Undisturbed(SetSleeping(RunOps(SetTicks(s, n), between)), after, s.ring[0])
    ensures var left := CallsToWake(Left(n, TotalCalls(between), s.pool[s.ring[0]].state == Sleeping));
            var s' := RunOps(SetSleeping(RunOps(SetTicks(s, n), between)), after);
            TotalCalls(after) <= left ==> SleepsFor(s', s.ring[0], left - TotalCalls(after))
  {
    var x := s.ring[0];
    var counting := s.pool[x].state == Sleeping;
    RunHolds(SetTicks(s, n), between, x, n, counting);
    var left := CallsToWake(Left(n, TotalCalls(between), counting));
    if TotalCalls(after) <= left {
      WakesExactly(SetSleeping(RunOps(SetTicks(s, n), between)), after, x, left);
    }
  }
}
