/** process.c in place: the PCB pool, the next pointers and the walks over the list. */
module ProcessTable {
  import opened Rings
  import opened ProcessModel
  import opened ProcessList
  import opened ProcessRuns

  // ------------------------------------------------------------- the passes so far

  /** The first k processes of the list were refreshed. */
  ghost predicate RefreshedTo(pool: seq<Pcb>, ring: seq<nat>, now: nat, k: nat, ps: seq<Pcb>) {
    k <= |ring| && ps == RefreshAll(pool, ring[..k], now)
  }

  lemma RefreshMore(pool: seq<Pcb>, ring: seq<nat>, now: nat, k: nat, ps: seq<Pcb>)
    requires RefreshedTo(pool, ring, now, k, ps) && k < |ring| && ring[k] < |pool| && ring[k] !in ring[..k]
    ensures |ps| == |pool| && RefreshedTo(pool, ring, now, k + 1, ps[ring[k] := Refresh(ps[ring[k]], now)])
  {
  }

  /** best is the slot selected on the walk so far, -1 for none. */
  ghost predicate Leader(ps: seq<Pcb>, walk: seq<nat>, best: int) {
    && Within(walk, ps) && best < |ps|
    && best == SlotAt(walk, Pick(ps, walk))
  }

  function PrioOf(ps: seq<Pcb>, best: int): nat
    requires best < |ps|
  {
    if best < 0 then 0 else ps[best].priority
  }

  lemma LeaderNext(ps: seq<Pcb>, walk: seq<nat>, k: nat, best: int)
    requires k < |walk| && walk[k] < |ps| && Leader(ps, walk[..k], best)
    ensures var t := walk[k];
            Leader(ps, walk[..k + 1], if ps[t].state == Ready && ps[t].priority >= PrioOf(ps, best) then t else best)
  {
  }

  /** The list from a start on it, as the selection pass visits it. */
  lemma LapLinks(next: seq<nat>, ring: seq<nat>, start: nat)
    requires Links(next, ring) && Distinct(ring) && start in ring
    ensures Links(next, Lap(ring, start)) && Distinct(Lap(ring, start))
  {
    var k := Position(ring, start) - 1;
    RotateLinks(next, ring, k);
    RotateMembers(ring, k);
  }

  // ------------------------------------------------------------------------ the class

  class Table {
    const pool: array<Pcb>
    const next: array<nat>
    var current: nat
    var nextPid: nat
    ghost var ring: seq<nat>

    /** Whatever slots were reused; the current process may have been cut off from the list. */
    ghost predicate Valid()
      reads this, pool, next
    {
      pool.Length == MAX_PROCESSES && next.Length == MAX_PROCESSES && Sound(View())
    }

    ghost function State(): Procs
      reads this, pool
    {
      Procs(pool[..], ring, current)
    }

    ghost function View(): World
      reads this, pool, next
    {
      World(State(), next[..])
    }

    /** process_init */
    constructor (slots: array<Pcb>, links: array<nat>)
      requires slots.Length == MAX_PROCESSES && links.Length == MAX_PROCESSES
      modifies slots, links
      ensures Valid() && pool == slots && next == links && next[..] == old(links[..])[0 := 0]
      ensures Booted(State()) && nextPid == 1
    {
      pool := slots;
      next := links;
      current := 0;
      nextPid := 1;
      ring := [0];
      new;
      for i := 0 to MAX_PROCESSES
        invariant current == 0 && nextPid == 1 && ring == [0] && links[..] == old(links[..])
        invariant forall j | 0 <= j < i :: pool[j].state == Unused && pool[j].pid == 0
      {
        pool[i] := pool[i].(state := Unused, pid := 0);
      }
      pool[0] := Pcb(0, 0, Ready, 0, 0, 0, 0, 0);
      next[0] := 0;
      assert pool[..][0] == pool[0];
      BootedSound(View());
    }

    /** process_create; frame is the initial stack pointer.  The list becomes LinkLast of the slot taken. */
    method CreateProcess(priority: nat, ppid: nat, frame: nat) returns (pid: int)
      requires Valid()
      modifies this, pool, next
      ensures Valid() && Step(old(View()), View(), DoCreate(old(nextPid), priority, ppid, frame))
      ensures pid == if FreeSlot(old(pool[..]), 1) == MAX_PROCESSES then -1 else old(nextPid)
      ensures State() == Create(old(State()), old(nextPid), priority, ppid, frame)
      ensures nextPid == if pid < 0 then old(nextPid) else old(nextPid) + 1
      ensures pid >= 0 ==>
                pool[..] == old(pool[..])[FreeSlot(old(pool[..]), 1) := Pcb(pid, ppid, Ready, priority, frame, 0, 0, 0)]
      ensures pid < 0 ==> pool[..] == old(pool[..])
      ensures next[..] == NextAfter(old(next[..]), old(ring), FreeSlot(old(pool[..]), 1))
    {
      ghost var w := View();
      ghost var op := DoCreate(nextPid, priority, ppid, frame);
      var i := 1;
      while i < MAX_PROCESSES && pool[i].state != Unused
        invariant 1 <= i <= MAX_PROCESSES && FreeSlot(pool[..], 1) == FreeSlot(pool[..], i)
      {
        i := i + 1;
      }
      if i == MAX_PROCESSES {
        return -1;
      }
      pid := nextPid;
      Append(i);
      pool[i] := Pcb(nextPid, ppid, Ready, priority, frame, 0, 0, 0);
      assert pool[..] == w.s.pool[i := pool[i]];
      nextPid := nextPid + 1;
      StepSound(w, View(), op);
    }

    /** process.c:108-109 */
    method LastSlot() returns (t: nat)
      requires next.Length == MAX_PROCESSES && IsList(ring) && Links(next[..], ring)
      ensures t == ring[|ring| - 1]
    {
      t := 0;
      ghost var k := 0;
      while next[t] != 0
        invariant k < |ring| && t == ring[k]
        decreases |ring| - k
      {
        AtNext(next[..], ring, k);
        t := next[t];
        k := k + 1;
      }
      AtNext(next[..], ring, k);
    }

    /** process.c:108-111 */
    method Append(slot: nat)
      requires next.Length == MAX_PROCESSES && IsList(ring) && Links(next[..], ring) && slot < MAX_PROCESSES
      modifies this`ring, next
      ensures ring == LinkLast(old(ring), slot) && next[..] == NextAfter(old(next[..]), old(ring), slot)
    {
      var t := LastSlot();
      ghost var links: seq<nat> := next[..];
      next[t] := slot;
      next[slot] := 0;
      assert next[..] == NextAfter(links, ring, slot);
      ring := LinkLast(ring, slot);
    }

    /** process_exit */
    method ExitProcess(pid: nat)
      requires Valid()
      modifies pool
      ensures Valid() && Step(old(View()), View(), DoExit(pid))
      ensures State() == Exit(old(State()), pid)
      ensures forall x | 0 <= x < MAX_PROCESSES ::
                pool[x] == if x == Find(old(pool[..]), pid, 0) then old(pool[x]).(state := Zombie) else old(pool[x])
    {
      var i := 0;
      while i < MAX_PROCESSES && !(pool[i].pid == pid && pool[i].state != Unused)
        invariant 0 <= i <= MAX_PROCESSES && Find(pool[..], pid, 0) == Find(pool[..], pid, i)
      {
        i := i + 1;
      }
      if i < MAX_PROCESSES {
        pool[i] := pool[i].(state := Zombie);
        assert pool[..] == old(pool[..])[i := pool[i]];
      }
    }

    /** process_sleep, up to the software interrupt. */
    method SleepProcess(ticks: nat, now: nat)
      requires Valid()
      modifies pool
      ensures Valid() && Step(old(View()), View(), DoSleep(ticks, now))
      ensures State() == Sleep(old(State()), ticks, now)
      ensures forall x | 0 <= x < MAX_PROCESSES && (x != current || ticks == 0) :: pool[x] == old(pool[x])
      ensures ticks > 0 ==>
                pool[current] == old(pool[current]).(sleepTicks := ticks, wakeTick := now + ticks, state := Sleeping)
    {
      if ticks == 0 {
        return;
      }
      pool[current] := pool[current].(sleepTicks := ticks, wakeTick := now + ticks, state := Sleeping);
      assert pool[..] == old(pool[..])[current := pool[current]];
    }

    /** process.c:165-173 */
    method RefreshPass(now: nat)
      requires pool.Length == next.Length == MAX_PROCESSES && IsList(ring) && Links(next[..], ring)
      modifies pool
      ensures pool[..] == RefreshAll(old(pool[..]), ring, now)
    {
      ghost var ps, links := pool[..], next[..];
      var t := 0;
      ghost var k := 0;
      while true
        invariant next[..] == links && 0 <= k < |ring| && t == ring[k]
        invariant RefreshedTo(ps, ring, now, k, pool[..])
        decreases |ring| - k
      {
        AtNext(links, ring, k);
        RefreshMore(ps, ring, now, k, pool[..]);
        RefreshOne(t, now);
        t := next[t];
        if t == 0 {
          break;
        }
        k := k + 1;
      }
      assert ring[..|ring|] == ring;
    }

    /** process.c:167-171 */
    method RefreshOne(t: nat, now: nat)
      requires t < pool.Length
      modifies pool
      ensures pool[..] == old(pool[..])[t := Refresh(old(pool[t]), now)]
    {
      if pool[t].state == Sleeping && now >= pool[t].wakeTick {
        pool[t] := pool[t].(state := Ready);
      }
      if pool[t].state == Zombie {
        pool[t] := pool[t].(state := Unused);
      }
      pool[t] := pool[t].(cpuTime := pool[t].cpuTime + 1);
    }

    /** process.c:175-185 along the walk from the current process: best, or -1 for the null pointer. */
    method SelectPass(ghost walk: seq<nat>) returns (best: int)
      requires next.Length == pool.Length && current < next.Length
      requires Links(next[..], walk) && Distinct(walk) && next[current] == walk[0]
      ensures Leader(pool[..], walk, best)
    {
      best := -1;
      var bestPri := 0;
      var stop := next[current];
      var t := stop;
      ghost var ps, links := pool[..], next[..];
      ghost var k := 0;
      while true
        invariant 0 <= k < |walk| && t == walk[k]
        invariant Leader(ps, walk[..k], best) && bestPri == PrioOf(ps, best)
        decreases |walk| - k
      {
        AtNext(links, walk, k);
        LeaderNext(ps, walk, k, best);
        if pool[t].state == Ready && pool[t].priority >= bestPri {
          bestPri := pool[t].priority;
          best := t;
        }
        t := next[t];
        if t == stop {
          break;
        }
        k := k + 1;
      }
      assert walk[..k + 1] == walk;
    }

    /** Both walks terminate exactly when the successor of the current process is on the list. */
    lemma ScheduleReturnsIff()
      requires Valid()
      ensures PassEnds(next[..], next[current]) <==> next[current] in ring
    {
      ReturnsIff(View());
    }

    /** process.c:160-192 when the selection pass visits walk. */
    method ScheduleOn(ghost walk: seq<nat>, esp: nat, now: nat) returns (resumed: nat)
      requires pool.Length == next.Length == MAX_PROCESSES && IsList(ring) && Links(next[..], ring)
      requires current < MAX_PROCESSES && Links(next[..], walk) && Distinct(walk) && next[current] == walk[0]
      requires Within(walk, pool[..])
      modifies this, pool
      ensures State() == Choose(old(State()), walk, esp, now) && resumed == pool[current].esp
    {
      Retire(esp);
      RefreshPass(now);
      var best := SelectPass(walk);
      Switch(if best < 0 then 0 else best);
      resumed := pool[current].esp;
    }

    /** process_schedule, when its selection pass ends; afterwards the current process is on the list. */
    method ScheduleNow(esp: nat, now: nat) returns (resumed: nat)
      requires Valid() && next[current] in ring
      modifies this, pool
      ensures Valid() && Inv(State()) && Step(old(View()), View(), DoSchedule(esp, now))
      ensures resumed == pool[current].esp
      ensures old(Wf(State())) ==> State() == Schedule(old(State()), esp, now)
    {
      ghost var w := View();
      ghost var walk := Lap(ring, next[current]);
      LapLinks(next[..], ring, next[current]);
      LapWithin(w.s, next[current]);
      if Wf(w.s) {
        ScheduleFromNext(w.s, next[..], esp, now);
      }
      resumed := ScheduleOn(walk, esp, now);
      ScheduleSound(w, View(), esp, now);
    }

    /** process.c:160-162 */
    method Retire(esp: nat)
      requires current < pool.Length
      modifies pool
      ensures pool[..] == Preempt(old(State()), esp)
    {
      pool[current] := pool[current].(esp := esp);
      if pool[current].state == Running {
        pool[current] := pool[current].(state := Ready);
      }
    }

    /** process.c:189-190 */
    method Switch(best: nat)
      requires best < pool.Length
      modifies this, pool
      ensures State() == Procs(old(pool[..])[best := old(pool[best]).(state := Running)], old(ring), best)
    {
      current := best;
      pool[current] := pool[current].(state := Running);
    }
  }

  // ----------------------------------------------------- a run that ends in the hang

  method CreateNext(t: Table, priority: nat, ghost n: nat)
    requires t.Valid() && Populated(t.State(), n) && n + 2 < MAX_PROCESSES && t.nextPid == n + 1
    modifies t, t.pool, t.next
    ensures t.Valid() && Populated(t.State(), n + 1) && t.nextPid == n + 2
    ensures t.State() == Create(old(t.State()), n + 1, priority, 0, 0)
  {
    PopulateNext(t.State(), n, priority);
    LowestUnused(t.pool[..], n + 1);
    var _ := t.CreateProcess(priority, 0, 0);
  }

  method CreateThree(t: Table)
    requires t.Valid() && Booted(t.State()) && t.nextPid == 1
    modifies t, t.pool, t.next
    ensures t.Valid() && Quad(t.State(), 0)
  {
    ThreeIsQuad(t.State());
    BootedIsPopulated(t.State());
    CreateNext(t, 1, 0);
    CreateNext(t, 2, 1);
    CreateNext(t, 1, 2);
  }

  method FirstChoice(t: Table, esp: nat, now: nat)
    requires t.Valid() && Quad(t.State(), 0)
    modifies t, t.pool
    ensures t.Valid() && Quad(t.State(), 2)
  {
    NextOnCycle(t.next[..], t.ring, t.current);
    QuadSchedule(t.State(), 0, esp, now);
    var _ := t.ScheduleNow(esp, now);
  }

  method ExitFirst(t: Table)
    requires t.Valid() && Quad(t.State(), 2)
    modifies t.pool
    ensures t.Valid() && Dying(t.State())
  {
    QuadExit(t.State());
    t.ExitProcess(1);
  }

  method ReapFirst(t: Table, esp: nat, now: nat)
    requires t.Valid() && Dying(t.State())
    modifies t, t.pool
    ensures t.Valid() && Reusable(t.State())
  {
    NextOnCycle(t.next[..], t.ring, t.current);
    DyingReaped(t.State(), esp, now);
    var _ := t.ScheduleNow(esp, now);
  }

  method ReuseFirst(t: Table)
    requires t.Valid() && Reusable(t.State())
    modifies t, t.pool, t.next
    ensures t.Valid() && 2 !in t.ring && t.current == 2 && t.pool[2].state == Running
    ensures !PassEnds(t.next[..], t.next[..][t.current])
  {
    ghost var next: seq<nat> := t.next[..];
    var _ := t.CreateProcess(1, 0, 0);
    FourCut(1);
    ReuseHangsScheduler(next);
  }

  /**
    On a fresh table: three processes are created, process 1 exits and is reaped,
    and the next process_create reuses its slot.  The current process, 2, is then
    off the list and the selection pass of the next process_schedule never gets
    back to its starting point.
  */
  method ReuseCutsCurrentOff(slots: array<Pcb>, links: array<nat>, esp: nat, now: nat) returns (t: Table)
    requires slots.Length == MAX_PROCESSES && links.Length == MAX_PROCESSES
    modifies slots, links
    ensures t.Valid() && t.current == 2 && 2 !in t.ring && t.pool[2].state == Running
    ensures !PassEnds(t.next[..], t.next[..][t.current])
  {
    t := new Table(slots, links);
    CreateThree(t);
    FirstChoice(t, esp, now);
    ExitFirst(t);
    ReapFirst(t, esp, now);
    ReuseFirst(t);
  }
}
