/** Runs of the calls of process.c, with any reuse of linked slots. */
module ProcessRuns {
  import opened Rings
  import opened ProcessModel
  import opened ProcessList

  datatype Op = DoCreate(pid: nat, priority: nat, ppid: nat, frame: nat) | DoExit(pid: nat)
              | DoSleep(ticks: nat, now: nat) | DoSchedule(esp: nat, now: nat)

  /** The table and its next pointers. */
  datatype World = World(s: Procs, next: seq<nat>)

  /** One process runs, the list is a cycle through the head, and the current process leads to it. */
  ghost predicate Sound(w: World) {
    OneRuns(w.s) && |w.next| == MAX_PROCESSES && Links(w.next, w.s.ring) && Reaches(w.next, w.s.cur)
  }

  /** What process_init leaves. */
  ghost predicate Booted(s: Procs) {
    && Inv(s) && s.ring == [0] && s.cur == 0
    && s.pool[0] == Pcb(0, 0, Ready, 0, 0, 0, 0, 0)
    && forall i | 1 <= i < MAX_PROCESSES :: s.pool[i].state == Unused && s.pool[i].pid == 0
  }

  lemma BootedSound(w: World)
    requires Booted(w.s) && |w.next| == MAX_PROCESSES && w.next[0] == 0
    ensures Sound(w)
  {
    assert Follow(w.next, 0, 0) == 0;
  }

  /** Where the selection pass of process_schedule starts and stops. */
  function Start(w: World): nat
    requires w.s.cur < |w.next|
  {
    w.next[w.s.cur]
  }

  /** A call that returns; process_schedule does exactly if its pass starts on the list (ReturnsIff). */
  ghost predicate Step(a: World, b: World, op: Op) {
    && Sound(a)
    && match op
       case DoCreate(pid, priority, ppid, frame) =>
         && b.s == Create(a.s, pid, priority, ppid, frame)
         && b.next == NextAfter(a.next, a.s.ring, FreeSlot(a.s.pool, 1))
       case DoExit(pid) => b == a.(s := Exit(a.s, pid))
       case DoSleep(ticks, now) => b == a.(s := Sleep(a.s, ticks, now))
       case DoSchedule(esp, now) =>
         Start(a) in a.s.ring && b == a.(s := ScheduleFrom(a.s, Start(a), esp, now))
  }

  /** process_schedule returns exactly if current_proc->next is on the list. */
  lemma ReturnsIff(w: World)
    requires Sound(w)
    ensures PassEnds(w.next, Start(w)) <==> Start(w) in w.s.ring
  {
    SuccessorReaches(w.next, w.s.ring, w.s.cur);
    PassEndsIff(w.next, w.s.ring, Start(w));
  }

  lemma CreateSound(a: World, b: World, pid: nat, priority: nat, ppid: nat, frame: nat)
    requires Step(a, b, DoCreate(pid, priority, ppid, frame))
    ensures Sound(b)
  {
    var slot := FreeSlot(a.s.pool, 1);
    NextAfterReaches(a.next, a.s.ring, slot, a.s.cur);
    if slot < MAX_PROCESSES {
      NextAfterLinks(a.next, a.s.ring, slot);
      LinkLastIsList(a.s.ring, slot);
    }
  }

  lemma ScheduleSound(a: World, b: World, esp: nat, now: nat)
    requires Step(a, b, DoSchedule(esp, now))
    ensures Sound(b) && Inv(b.s)
  {
    ScheduleFromInv(a.s, Start(a), esp, now);
    CycleReaches(a.next, a.s.ring, b.s.cur);
  }

  lemma StepSound(a: World, b: World, op: Op)
    requires Step(a, b, op)
    ensures Sound(b)
  {
    match op
    case DoCreate(pid, priority, ppid, frame) => CreateSound(a, b, pid, priority, ppid, frame);
    case DoExit(pid) =>
    case DoSleep(ticks, now) =>
    case DoSchedule(esp, now) => ScheduleSound(a, b, esp, now);
  }

  ghost predicate Run(run: seq<World>, ops: seq<Op>) {
    && |run| == |ops| + 1 && Sound(run[0])
    && forall i, j | 0 <= i < j == i + 1 < |run| :: Step(run[i], run[j], ops[i])
  }

  /**
    In every run, whatever slots are reused, at most one process is RUNNING and it
    is the current one, and the next process_schedule returns exactly if
    current_proc->next is on the list.
  */
  lemma {:induction false} RunInv(run: seq<World>, ops: seq<Op>, k: nat)
    requires Run(run, ops) && k < |run|
    ensures Sound(run[k])
    ensures PassEnds(run[k].next, Start(run[k])) <==> Start(run[k]) in run[k].s.ring
  {
    if k > 0 {
      RunInv(run, ops, k - 1);
      assert Step(run[k - 1], run[k], ops[k - 1]);
      StepSound(run[k - 1], run[k], ops[k - 1]);
    }
    ReturnsIff(run[k]);
  }

  /**
    The stack pointer of slot x at point k: that of the last process_schedule that
    took the CPU from it, or the frame of a later process_create, or else the first.
  */
  ghost function LastEsp(run: seq<World>, ops: seq<Op>, k: nat, x: nat): nat
    requires Run(run, ops) && k < |run| && x < MAX_PROCESSES
    decreases k
  {
    if k == 0 then run[0].s.pool[x].esp
    else
      var a := run[k - 1];
      match ops[k - 1]
      case DoSchedule(esp, _) => if a.s.cur == x then esp else LastEsp(run, ops, k - 1, x)
      case DoCreate(_, _, _, frame) =>
        if |a.s.pool| == MAX_PROCESSES && FreeSlot(a.s.pool, 1) == x then frame else LastEsp(run, ops, k - 1, x)
      case _ => LastEsp(run, ops, k - 1, x)
  }

  lemma StepEsp(a: World, b: World, op: Op, x: nat)
    requires Step(a, b, op) && x < MAX_PROCESSES
    ensures |b.s.pool| == MAX_PROCESSES
    ensures b.s.pool[x].esp ==
              if op.DoSchedule? && a.s.cur == x then op.esp
              else if op.DoCreate? && FreeSlot(a.s.pool, 1) == x then op.frame
              else a.s.pool[x].esp
  {
    match op
    case DoCreate(pid, priority, ppid, frame) => CreateExactly(a.s, pid, priority, ppid, frame, x);
    case DoExit(pid) => ExitExactly(a.s, pid, x);
    case DoSleep(ticks, now) => SleepExactly(a.s, ticks, now, x);
    case DoSchedule(esp, now) =>
      LapWithin(a.s, Start(a));
      ChooseExactly(a.s, Lap(a.s.ring, Start(a)), esp, now, x);
  }

  lemma {:induction false} RunEsp(run: seq<World>, ops: seq<Op>, k: nat, x: nat)
    requires Run(run, ops) && k < |run| && x < MAX_PROCESSES
    ensures |run[k].s.pool| == MAX_PROCESSES && run[k].s.pool[x].esp == LastEsp(run, ops, k, x)
    decreases k
  {
    if k > 0 {
      RunEsp(run, ops, k - 1, x);
      assert Step(run[k - 1], run[k], ops[k - 1]);
      StepEsp(run[k - 1], run[k], ops[k - 1], x);
    }
  }

  /**
    In every run, whatever slots are reused, process_schedule resumes the process it
    chooses with the stack pointer with which that process last lost the CPU, or
    with its initial frame.
  */
  lemma ResumesWhereItStopped(run: seq<World>, ops: seq<Op>, k: nat)
    requires Run(run, ops) && k < |ops| && ops[k].DoSchedule?
    ensures var s' := run[k + 1].s;
            && s'.cur < |s'.pool| == MAX_PROCESSES && s'.pool[s'.cur].state == Running
            && s'.pool[s'.cur].esp == LastEsp(run, ops, k + 1, s'.cur)
  {
    assert Step(run[k], run[k + 1], ops[k]);
    ScheduleFromInv(run[k].s, Start(run[k]), ops[k].esp, ops[k].now);
    RunEsp(run, ops, k + 1, run[k + 1].s.cur);
  }

  /** The next process_create would take a slot that is on the list. */
  ghost predicate OffersLinked(s: Procs) {
    |s.pool| == MAX_PROCESSES && FreeSlot(s.pool, 1) in s.ring
  }

  /** While no linked slot is reused the current process stays on the list, and every call returns. */
  lemma {:induction false} RunStaysListed(run: seq<World>, ops: seq<Op>, k: nat)
    requires Run(run, ops) && Inv(run[0].s) && k < |run|
    requires forall i | 0 <= i < k && ops[i].DoCreate? :: !OffersLinked(run[i].s)
    ensures Sound(run[k]) && Inv(run[k].s) && PassEnds(run[k].next, Start(run[k]))
  {
    RunInv(run, ops, k);
    if k > 0 {
      RunStaysListed(run, ops, k - 1);
      var a, b := run[k - 1], run[k];
      assert Step(a, b, ops[k - 1]);
      match ops[k - 1]
      case DoCreate(pid, priority, ppid, frame) => CreateInv(a.s, pid, priority, ppid, frame);
      case DoExit(pid) =>
      case DoSleep(ticks, now) =>
      case DoSchedule(esp, now) => ScheduleSound(a, b, esp, now);
    }
    NextOnCycle(run[k].next, run[k].s.ring, run[k].s.cur);
  }

  // ---------------------------------------------------------- a run that gets there

  /** Slots 1..n were created in this order; all others are unused. */
  ghost predicate Populated(s: Procs, n: nat) {
    && Inv(s) && s.cur == 0 && 1 <= n + 1 < MAX_PROCESSES && s.ring == seq(n + 1, i => i)
    && (forall i | 0 <= i <= n :: s.pool[i].pid == i && s.pool[i].state == Ready)
    && (forall i | n < i < MAX_PROCESSES :: s.pool[i].state == Unused)
  }

  lemma BootedIsPopulated(s: Procs)
    requires Booted(s)
    ensures Populated(s, 0)
  {
    assert s.ring == seq(1, i => i);
  }

  lemma PopulateNext(s: Procs, n: nat, priority: nat)
    requires Populated(s, n) && n + 2 < MAX_PROCESSES
    ensures var s' := Create(s, n + 1, priority, 0, 0);
            && Populated(s', n + 1) && s'.pool[n + 1].priority == priority
            && forall i | 0 <= i <= n :: s'.pool[i] == s.pool[i]
  {
    LowestUnused(s.pool, n + 1);
    assert n + 1 !in s.ring;
    CreateInv(s, n + 1, priority, 0, 0);
    assert s.ring + [n + 1] == seq(n + 2, i => i);
  }

  const FOUR: seq<nat> := [0, 1, 2, 3]

  lemma FourMembers()
    ensures forall x: nat :: x in FOUR <==> x <= 3
  {
    assert forall x | x in FOUR :: x == FOUR[0] || x == FOUR[1] || x == FOUR[2] || x == FOUR[3];
    assert FOUR[0] in FOUR && FOUR[1] in FOUR && FOUR[2] in FOUR && FOUR[3] in FOUR;
  }

  lemma FourCut(slot: nat)
    requires slot == 1
    ensures slot in FOUR && FOUR[..Position(FOUR, slot) + 1] == [0, 1]
  {
    assert FOUR[1] in FOUR;
    assert FOUR[..2] == [0, 1];
  }

  /** Idle and processes 1, 2 and 3 of priorities 1, 2 and 1; cur is the current one, and all are READY or RUNNING. */
  ghost predicate Quad(s: Procs, cur: nat) {
    && Inv(s) && s.ring == FOUR && s.cur == cur <= 3
    && (forall i | 0 <= i <= 3 :: s.pool[i].pid == i
                                  && (s.pool[i].state == Ready || (i == cur && s.pool[i].state == Running)))
    && s.pool[0].priority == 0 && s.pool[1].priority == 1 && s.pool[2].priority == 2 && s.pool[3].priority == 1
  }

  /** Three process_create calls after process_init, with the pids that next_pid gives. */
  ghost function Three(s: Procs): Procs
    requires |s.pool| == MAX_PROCESSES
  {
    Create(Create(Create(s, 1, 1, 0, 0), 2, 2, 0, 0), 3, 1, 0, 0)
  }

  lemma ThreeIsQuad(s: Procs)
    requires Booted(s)
    ensures Quad(Three(s), 0)
  {
    BootedIsPopulated(s);
    PopulateNext(s, 0, 1);
    var s1 := Create(s, 1, 1, 0, 0);
    PopulateNext(s1, 1, 2);
    var s2 := Create(s1, 2, 2, 0, 0);
    PopulateNext(s2, 2, 1);
    assert Three(s).ring == FOUR;
  }

  lemma SeenPriority(s: Procs, esp: nat, now: nat, i: nat)
    requires Wf(s) && s.cur < MAX_PROCESSES && i < MAX_PROCESSES
    ensures Seen(s, esp, now)[i].priority == s.pool[i].priority
  {
  }

  lemma StrictTopWins(s: Procs, esp: nat, now: nat, top: nat)
    requires Wf(s) && s.cur < MAX_PROCESSES && top in s.ring && top < MAX_PROCESSES
    requires Seen(s, esp, now)[top].state == Ready
    requires forall x | x in s.ring && x != top ::
               x < MAX_PROCESSES && Seen(s, esp, now)[x].priority < Seen(s, esp, now)[top].priority
    ensures Schedule(s, esp, now).cur == top
  {
    ScheduleChoosesMaximal(s, esp, now);
  }

  /** What the selection pass sees when all four are READY. */
  lemma QuadSeen(s: Procs, cur: nat, esp: nat, now: nat, i: nat)
    requires Quad(s, cur) && i <= 3
    ensures var p := Seen(s, esp, now)[i];
            p.state == Ready && p.priority == s.pool[i].priority && p.pid == i
  {
    SeenReady(s, esp, now, i);
  }

  lemma QuadAfter(s: Procs, cur: nat, esp: nat, now: nat, i: nat)
    requires Quad(s, cur) && i <= 3
    ensures var s' := Schedule(s, esp, now);
            && |s'.pool| == MAX_PROCESSES && s'.pool[i].pid == i && s'.pool[i].priority == s.pool[i].priority
            && s'.pool[i].state == if i == s'.cur then Running else Ready
  {
    QuadSeen(s, cur, esp, now, i);
    ScheduleSlot(s, esp, now, i);
  }

  lemma QuadOthers(s: Procs, cur: nat, esp: nat, now: nat, x: nat)
    requires Quad(s, cur) && x in s.ring && x != 2
    ensures x < MAX_PROCESSES && Seen(s, esp, now)[x].priority < 2
  {
    FourMembers();
    SeenPriority(s, esp, now, x);
  }

  lemma QuadChoice(s: Procs, cur: nat, esp: nat, now: nat)
    requires Quad(s, cur)
    ensures Schedule(s, esp, now).cur == 2
  {
    var top := 2;
    QuadSeen(s, cur, esp, now, top);
    forall x | x in s.ring && x != top ensures x < MAX_PROCESSES && Seen(s, esp, now)[x].priority < 2 {
      QuadOthers(s, cur, esp, now, x);
    }
    StrictTopWins(s, esp, now, top);
  }

  /** The first process_schedule gives the CPU to process 2. */
  lemma QuadSchedule(s: Procs, cur: nat, esp: nat, now: nat)
    requires Quad(s, cur)
    ensures Quad(Schedule(s, esp, now), 2)
  {
    var s' := Schedule(s, esp, now);
    QuadChoice(s, cur, esp, now);
    ScheduleInv(s, esp, now);
    forall i: nat | i <= 3
      ensures s'.pool[i].pid == i && s'.pool[i].priority == s.pool[i].priority
      ensures s'.pool[i].state == if i == 2 then Running else Ready
    {
      QuadAfter(s, cur, esp, now, i);
    }
  }

  /** Process 2 is current and process 1 has exited. */
  ghost predicate Dying(z: Procs) {
    && Inv(z) && z.ring == FOUR && z.cur == 2 && z.pool[1].state == Zombie && z.pool[2].state in {Ready, Running}
    && z.pool[0].priority <= z.pool[2].priority && z.pool[3].priority <= z.pool[2].priority
  }

  lemma QuadExit(s: Procs)
    requires Quad(s, 2)
    ensures Find(s.pool, 1, 0) == 1 && Dying(Exit(s, 1))
  {
    assert s.pool[0].pid == 0 && s.pool[1].pid == 1 && s.pool[1].state == Ready;
    assert s.pool[2].pid == 2 && s.pool[3].pid == 3;
  }

  lemma DyingSeen(z: Procs, esp: nat, now: nat, x: nat)
    requires Dying(z) && x in z.ring && x < MAX_PROCESSES && Seen(z, esp, now)[x].state == Ready
    ensures Seen(z, esp, now)[x].priority <= Seen(z, esp, now)[z.cur].priority
  {
    FourMembers();
    SeenReaped(z, esp, now, 1);
    SeenPriority(z, esp, now, x);
    SeenPriority(z, esp, now, z.cur);
  }

  /** The next process_schedule reaps process 1 and lets process 2 go on. */
  lemma DyingSchedule(z: Procs, esp: nat, now: nat)
    requires Dying(z)
    ensures Schedule(z, esp, now).cur == 2
  {
    SeenReady(z, esp, now, z.cur);
    forall x | x in z.ring && Seen(z, esp, now)[x].state == Ready
      ensures Seen(z, esp, now)[x].priority <= Seen(z, esp, now)[z.cur].priority
    {
      DyingSeen(z, esp, now, x);
    }
    CurrentWinsTies(z, esp, now);
  }

  /** All four are linked, process 2 runs, and the next process_create would take the linked slot 1. */
  ghost predicate Reusable(b: Procs) {
    Inv(b) && b.ring == FOUR && b.cur == 2 && b.pool[2].state == Running && FreeSlot(b.pool, 1) == 1
  }

  lemma DyingReaped(z: Procs, esp: nat, now: nat)
    requires Dying(z)
    ensures Reusable(Schedule(z, esp, now))
  {
    ScheduleInv(z, esp, now);
    DyingSchedule(z, esp, now);
    var slot := FOUR[1];
    ReapedIsOffered(z, esp, now, slot);
  }

  lemma ReusableCut(b: Procs, pid: nat, priority: nat, ppid: nat, frame: nat)
    requires Reusable(b)
    ensures Create(b, pid, priority, ppid, frame).ring == [0, 1]
  {
    FourCut(1);
    CreateCuts(b, 1, pid, priority, ppid, frame);
  }

  /**
    From process_init: processes 1, 2 and 3 are created, process 2 is chosen,
    process 1 exits and is reaped.  The next process_create then takes the linked
    slot 1, and processes 2 and 3 leave the list although both are alive.
  */
  lemma ReuseIsReached(s: Procs, esp: nat, now: nat, pid: nat, priority: nat, ppid: nat, frame: nat)
    returns (a: Procs, b: Procs)
    requires Booted(s)
    ensures Wf(Three(s)) && a == Schedule(Three(s), esp, now) && Quad(a, 2)
    ensures Wf(Exit(a, 1)) && b == Schedule(Exit(a, 1), esp, now) && Reusable(b)
    ensures Create(b, pid, priority, ppid, frame).ring == [0, 1]
  {
    ThreeIsQuad(s);
    QuadSchedule(Three(s), 0, esp, now);
    a := Schedule(Three(s), esp, now);
    QuadExit(a);
    var z := Exit(a, 1);
    DyingReaped(z, esp, now);
    b := Schedule(z, esp, now);
    ReusableCut(b, pid, priority, ppid, frame);
  }

  /** With process 2 current, as it is there, the process_schedule after that process_create loops forever. */
  lemma ReuseHangsScheduler(next: seq<nat>)
    requires Links(next, FOUR)
    ensures var r := NextAfter(next, FOUR, 1);
            2 < |r| && !PassEnds(r, r[2])
  {
    assert FOUR[1] == 1 && FOUR[2] == 2;
    ScheduleEndsIff(next, FOUR, 1, 2);
  }
}
