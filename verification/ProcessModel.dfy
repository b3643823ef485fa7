/**
  The process table (process.c), as a value.  The circular list is the sequence of
  its slots starting at proc_list_head, which is slot 0, the idle process.
*/
module ProcessModel {
  import opened Rings

  const MAX_PROCESSES: nat := 16

  datatype ProcState = Unused | Ready | Running | Sleeping | Blocked | Zombie

  datatype Pcb = Pcb(pid: nat, ppid: nat, state: ProcState, priority: nat, esp: nat,
                     sleepTicks: nat, cpuTime: nat, wakeTick: nat)

  datatype Procs = Procs(pool: seq<Pcb>, ring: seq<nat>, cur: nat)

  ghost predicate IsList(ring: seq<nat>) {
    && ring != [] && ring[0] == 0 && Distinct(ring)
    && forall i | 0 <= i < |ring| :: ring[i] < MAX_PROCESSES
  }

  ghost predicate Wf(s: Procs) {
    |s.pool| == MAX_PROCESSES && IsList(s.ring) && s.cur in s.ring
  }

  /** At most one process is RUNNING, and it is current_proc, which may be off the list. */
  ghost predicate OneRuns(s: Procs) {
    && |s.pool| == MAX_PROCESSES && IsList(s.ring) && s.cur < MAX_PROCESSES
    && forall i | 0 <= i < MAX_PROCESSES :: s.pool[i].state == Running ==> i == s.cur
  }

  ghost predicate Inv(s: Procs) {
    OneRuns(s) && s.cur in s.ring
  }

  // -------------------------------------------------------------------- scheduling

  /** process.c:167-171 */
  function Refresh(p: Pcb, now: nat): Pcb {
    var woken := if p.state == Sleeping && now >= p.wakeTick then p.(state := Ready) else p;
    var reaped := if woken.state == Zombie then woken.(state := Unused) else woken;
    reaped.(cpuTime := reaped.cpuTime + 1)
  }

  function RefreshAll(pool: seq<Pcb>, ring: seq<nat>, now: nat): (r: seq<Pcb>)
    ensures |r| == |pool|
    ensures forall i | 0 <= i < |pool| :: r[i] == if i in ring then Refresh(pool[i], now) else pool[i]
  {
    seq(|pool|, i requires 0 <= i < |pool| => if i in ring then Refresh(pool[i], now) else pool[i])
  }

  ghost predicate Within(xs: seq<nat>, pool: seq<Pcb>) {
    forall i | 0 <= i < |xs| :: xs[i] < |pool|
  }

  /** process.c:175-185: the position of best in the walk, or -1.  Ties go to the later position. */
  function Pick(pool: seq<Pcb>, walk: seq<nat>): (b: int)
    requires Within(walk, pool)
    ensures -1 <= b < |walk|
    ensures b >= 0 ==> pool[walk[b]].state == Ready
    ensures b >= 0 ==> forall i | 0 <= i < b ::
              pool[walk[i]].state == Ready ==> pool[walk[i]].priority <= pool[walk[b]].priority
    ensures b >= 0 ==> forall i | b < i < |walk| ::
              pool[walk[i]].state == Ready ==> pool[walk[i]].priority < pool[walk[b]].priority
    ensures b < 0 ==> forall i | 0 <= i < |walk| :: pool[walk[i]].state != Ready
  {
    if walk == [] then -1
    else
      var n := |walk| - 1;
      var front := walk[..n];
      assert forall i | 0 <= i < n :: walk[i] == front[i];
      var b := Pick(pool, front);
      var bestPri := if b < 0 then 0 else pool[front[b]].priority;
      if pool[walk[n]].state == Ready && pool[walk[n]].priority >= bestPri then n else b
  }

  ghost function Position(ring: seq<nat>, x: nat): (k: nat)
    requires x in ring
    ensures k < |ring| && ring[k] == x
  {
    var k :| 0 <= k < |ring| && ring[k] == x;
    k
  }

  /** The order of the selection pass: from the successor of current_proc round to current_proc. */
  ghost function WalkFrom(s: Procs): (walk: seq<nat>)
    requires Wf(s)
    ensures |walk| == |s.ring| && walk[|walk| - 1] == s.cur && Within(walk, s.pool)
    ensures forall x :: x in walk <==> x in s.ring
  {
    RotateMembers(s.ring, Position(s.ring, s.cur));
    var walk := Rotate(s.ring, Position(s.ring, s.cur));
    assert forall i | 0 <= i < |walk| :: walk[i] in walk;
    walk
  }

  function Preempt(s: Procs, esp: nat): seq<Pcb>
    requires s.cur < |s.pool|
  {
    var p := s.pool[s.cur].(esp := esp);
    s.pool[s.cur := if p.state == Running then p.(state := Ready) else p]
  }

  /** process.c:160-173: the pool that the selection pass sees. */
  function Seen(s: Procs, esp: nat, now: nat): (pool: seq<Pcb>)
    requires s.cur < |s.pool|
    ensures |pool| == |s.pool|
  {
    RefreshAll(Preempt(s, esp), s.ring, now)
  }

  /** process_schedule when its selection pass visits walk. */
  ghost function Choose(s: Procs, walk: seq<nat>, esp: nat, now: nat): Procs
    requires s.cur < |s.pool| && Within(walk, s.pool)
  {
    var pool := Seen(s, esp, now);
    var b := Pick(pool, walk);
    var best := if b < 0 then 0 else walk[b];
    Procs(pool[best := pool[best].(state := Running)], s.ring, best)
  }

  ghost function Schedule(s: Procs, esp: nat, now: nat): Procs
    requires Wf(s)
  {
    Choose(s, WalkFrom(s), esp, now)
  }

  /** The list from start on: the order of the selection pass when current_proc->next is start. */
  ghost function Lap(ring: seq<nat>, start: nat): (walk: seq<nat>)
    requires start in ring
    ensures |walk| == |ring| && walk[0] == start
    ensures forall x :: x in walk <==> x in ring
  {
    RotateMembers(ring, Position(ring, start) - 1);
    Rotate(ring, Position(ring, start) - 1)
  }

  lemma LapWithin(s: Procs, start: nat)
    requires |s.pool| == MAX_PROCESSES && IsList(s.ring) && start in s.ring
    ensures Within(Lap(s.ring, start), s.pool)
  {
    var walk := Lap(s.ring, start);
    assert forall i | 0 <= i < |walk| :: walk[i] in walk;
  }

  /** process_schedule when current_proc->next is start, whether or not current_proc itself is on the list. */
  ghost function ScheduleFrom(s: Procs, start: nat, esp: nat, now: nat): Procs
    requires |s.pool| == MAX_PROCESSES && IsList(s.ring) && s.cur < MAX_PROCESSES && start in s.ring
  {
    LapWithin(s, start);
    Choose(s, Lap(s.ring, start), esp, now)
  }

  /** While the current process is on the list this is Schedule. */
  lemma ScheduleFromNext(s: Procs, next: seq<nat>, esp: nat, now: nat)
    requires Wf(s) && s.cur < MAX_PROCESSES && Links(next, s.ring)
    ensures s.cur < |next| && next[s.cur] in s.ring
    ensures ScheduleFrom(s, next[s.cur], esp, now) == Schedule(s, esp, now)
  {
    var k := Position(s.ring, s.cur);
    AtNext(next, s.ring, k);
    var to := if k + 1 < |s.ring| then k + 1 else 0;
    assert next[s.cur] == s.ring[to];
    assert Position(s.ring, s.ring[to]) == to;
    assert Lap(s.ring, next[s.cur]) == WalkFrom(s);
  }

  lemma NobodyRuns(s: Procs, esp: nat, now: nat)
    requires OneRuns(s)
    ensures forall i | 0 <= i < MAX_PROCESSES :: Seen(s, esp, now)[i].state != Running
  {
  }

  lemma ChooseInv(s: Procs, walk: seq<nat>, esp: nat, now: nat)
    requires OneRuns(s) && Within(walk, s.pool) && forall x | x in walk :: x in s.ring
    ensures var s' := Choose(s, walk, esp, now);
            && Inv(s') && s'.ring == s.ring
            && forall i | 0 <= i < MAX_PROCESSES :: s'.pool[i].state == Running <==> i == s'.cur
  {
    NobodyRuns(s, esp, now);
    assert s.ring[0] in s.ring;
    assert forall i | 0 <= i < |walk| :: walk[i] in walk;
  }

  /** process_schedule keeps the list, and afterwards exactly the current process is RUNNING. */
  lemma ScheduleInv(s: Procs, esp: nat, now: nat)
    requires Inv(s)
    ensures Inv(Schedule(s, esp, now))
    ensures Schedule(s, esp, now).ring == s.ring
    ensures forall i | 0 <= i < MAX_PROCESSES ::
              Schedule(s, esp, now).pool[i].state == Running <==> i == Schedule(s, esp, now).cur
  {
    ChooseInv(s, WalkFrom(s), esp, now);
  }

  /**
    What process_schedule does to every process: the current one has its stack
    pointer saved, listed ones are charged and woken or reaped, the chosen one runs,
    and nothing else changes.
  */
  lemma ChooseExactly(s: Procs, walk: seq<nat>, esp: nat, now: nat, x: nat)
    requires OneRuns(s) && Within(walk, s.pool) && x < MAX_PROCESSES
    ensures var s' := Choose(s, walk, esp, now);
            && s'.ring == s.ring && |s'.pool| == MAX_PROCESSES
            && var p, p' := s.pool[x], s'.pool[x];
               && p'.pid == p.pid && p'.ppid == p.ppid && p'.priority == p.priority
               && p'.sleepTicks == p.sleepTicks && p'.wakeTick == p.wakeTick
               && p'.esp == (if x == s.cur then esp else p.esp)
               && p'.cpuTime == (if x in s.ring then p.cpuTime + 1 else p.cpuTime)
               && p'.state == (if x == s'.cur then Running
                               else if p.state == Running then Ready
                               else if x in s.ring && p.state == Zombie then Unused
                               else if x in s.ring && p.state == Sleeping && now >= p.wakeTick then Ready
                               else p.state)
  {
  }

  /** best is a READY member of the list of maximal priority, or 0 if no member is READY. */
  ghost predicate Maximal(pool: seq<Pcb>, ring: seq<nat>, best: nat)
    requires Within(ring, pool)
  {
    if forall x | x in ring :: pool[x].state != Ready then best == 0
    else && best in ring && pool[best].state == Ready
         && forall x | x in ring && pool[x].state == Ready :: pool[x].priority <= pool[best].priority
  }

  lemma PickMaximal(pool: seq<Pcb>, walk: seq<nat>)
    requires Within(walk, pool)
    ensures var b := Pick(pool, walk);
            Maximal(pool, walk, if b < 0 then 0 else walk[b])
  {
  }

  /**
    The process chosen is READY and of maximal priority among the READY processes
    of the list; without READY process it is the idle process.
  */
  lemma ScheduleChoosesMaximal(s: Procs, esp: nat, now: nat)
    requires Wf(s)
    ensures s.cur < MAX_PROCESSES && Within(s.ring, Seen(s, esp, now))
    ensures Maximal(Seen(s, esp, now), s.ring, Schedule(s, esp, now).cur)
  {
    PickMaximal(Seen(s, esp, now), WalkFrom(s));
  }

  /** The same from any start on the list, and the process chosen is on the list again. */
  lemma ScheduleFromInv(s: Procs, start: nat, esp: nat, now: nat)
    requires OneRuns(s) && start in s.ring
    ensures var s' := ScheduleFrom(s, start, esp, now);
            && Inv(s') && s'.ring == s.ring && s'.pool[s'.cur].state == Running
            && Within(s.ring, Seen(s, esp, now)) && Maximal(Seen(s, esp, now), s.ring, s'.cur)
  {
    LapWithin(s, start);
    ChooseInv(s, Lap(s.ring, start), esp, now);
    PickMaximal(Seen(s, esp, now), Lap(s.ring, start));
  }

  lemma LastOfEquals(pool: seq<Pcb>, walk: seq<nat>)
    requires walk != [] && Within(walk, pool) && pool[walk[|walk| - 1]].state == Ready
    requires forall x | x in walk && pool[x].state == Ready :: pool[x].priority <= pool[walk[|walk| - 1]].priority
    ensures Pick(pool, walk) == |walk| - 1
  {
  }

  /** Among equals the last in list order after the current process wins, so a top-priority current process stays. */
  lemma CurrentWinsTies(s: Procs, esp: nat, now: nat)
    requires Wf(s) && s.cur < MAX_PROCESSES && Seen(s, esp, now)[s.cur].state == Ready
    requires forall x | x in s.ring && Seen(s, esp, now)[x].state == Ready ::
               Seen(s, esp, now)[x].priority <= Seen(s, esp, now)[s.cur].priority
    ensures Schedule(s, esp, now).cur == s.cur
  {
    LastOfEquals(Seen(s, esp, now), WalkFrom(s));
  }

  /** The states in which consecutive process_schedule calls were entered; other code runs in between. */
  ghost predicate CallTrace(states: seq<Procs>, esps: seq<nat>, nows: seq<nat>) {
    && |states| == |esps| + 1 == |nows| + 1
    && (forall i | 0 <= i < |states| :: Wf(states[i]))
    && (forall i, j | 0 <= i < j == i + 1 < |states| :: states[j].cur == Schedule(states[i], esps[i], nows[i]).cur)
  }

  /** p is RUNNING or READY when the call is made and no READY process outranks it. */
  ghost predicate OnTop(s: Procs, esp: nat, now: nat, p: nat) {
    && Wf(s) && p in s.ring && p < MAX_PROCESSES && s.cur < MAX_PROCESSES && Seen(s, esp, now)[p].state == Ready
    && forall x | x in s.ring && Seen(s, esp, now)[x].state == Ready ::
         Seen(s, esp, now)[x].priority <= Seen(s, esp, now)[p].priority
  }

  /** There is no round robin: while the current process stays READY and unsurpassed it is rechosen forever. */
  lemma {:induction false} EqualsStarve(states: seq<Procs>, esps: seq<nat>, nows: seq<nat>, p: nat, k: nat)
    requires CallTrace(states, esps, nows) && k < |states| && states[0].cur == p
    requires forall i | 0 <= i < |esps| :: OnTop(states[i], esps[i], nows[i], p)
    ensures states[k].cur == p
  {
    if k > 0 {
      EqualsStarve(states, esps, nows, p, k - 1);
      assert states[k].cur == Schedule(states[k - 1], esps[k - 1], nows[k - 1]).cur;
      assert OnTop(states[k - 1], esps[k - 1], nows[k - 1], p);
      CurrentWinsTies(states[k - 1], esps[k - 1], nows[k - 1]);
    }
  }

  // --------------------------------------------------- create, exit and sleep

  /** The lowest unused slot above 0, or MAX_PROCESSES. */
  function FreeSlot(pool: seq<Pcb>, i: nat): (slot: nat)
    requires |pool| == MAX_PROCESSES && 1 <= i <= MAX_PROCESSES
    ensures i <= slot <= MAX_PROCESSES
    ensures slot < MAX_PROCESSES ==> pool[slot].state == Unused
    ensures forall j | i <= j < slot :: pool[j].state != Unused
    decreases |pool| - i
  {
    if i == MAX_PROCESSES || pool[i].state == Unused then i else FreeSlot(pool, i + 1)
  }

  /** process.c:108-111 on the list: linking a slot that is in it already cuts off what follows it. */
  ghost function LinkLast(ring: seq<nat>, slot: nat): seq<nat> {
    if slot in ring then ring[..Position(ring, slot) + 1] else ring + [slot]
  }

  ghost function Create(s: Procs, pid: nat, priority: nat, ppid: nat, frame: nat): Procs
    requires |s.pool| == MAX_PROCESSES
  {
    var slot := FreeSlot(s.pool, 1);
    if slot == MAX_PROCESSES then s
    else s.(pool := s.pool[slot := Pcb(pid, ppid, Ready, priority, frame, 0, 0, 0)], ring := LinkLast(s.ring, slot))
  }

  /** process_create fills the PCB of the slot it found from its arguments and changes no other PCB. */
  lemma CreateExactly(s: Procs, pid: nat, priority: nat, ppid: nat, frame: nat, x: nat)
    requires |s.pool| == MAX_PROCESSES && x < MAX_PROCESSES
    ensures var s' := Create(s, pid, priority, ppid, frame);
            var p := s'.pool[x];
            && s'.cur == s.cur && |s'.pool| == MAX_PROCESSES
            && if x == FreeSlot(s.pool, 1) then
                 && p.pid == pid && p.ppid == ppid && p.priority == priority && p.esp == frame && p.state == Ready
                 && p.sleepTicks == 0 && p.cpuTime == 0 && p.wakeTick == 0
               else p == s.pool[x]
  {
  }

  lemma LinkLastIsList(ring: seq<nat>, slot: nat)
    requires IsList(ring) && slot < MAX_PROCESSES
    ensures IsList(LinkLast(ring, slot)) && slot in LinkLast(ring, slot)
  {
  }

  /** process_create drops no linked process exactly when the slot is not linked already, or is the last one. */
  lemma CreateDropsNobody(ring: seq<nat>, slot: nat)
    requires IsList(ring) && slot < MAX_PROCESSES
    ensures (forall x | x in ring :: x in LinkLast(ring, slot)) <==> slot !in ring || slot == ring[|ring| - 1]
  {
    if slot in ring {
      var k := Position(ring, slot);
      var cut := ring[..k + 1];
      if k == |ring| - 1 {
        assert cut == ring;
      } else {
        var last := ring[|ring| - 1];
        assert last in ring;
        assert last !in cut;
      }
    }
  }

  /** While the slot is not linked, creating a process keeps the invariant and appends it to the list. */
  lemma CreateInv(s: Procs, pid: nat, priority: nat, ppid: nat, frame: nat)
    requires Inv(s) && FreeSlot(s.pool, 1) !in s.ring
    ensures Inv(Create(s, pid, priority, ppid, frame))
    ensures FreeSlot(s.pool, 1) < MAX_PROCESSES ==>
              Create(s, pid, priority, ppid, frame).ring == s.ring + [FreeSlot(s.pool, 1)]
  {
    var slot := FreeSlot(s.pool, 1);
    if slot < MAX_PROCESSES {
      LinkLastIsList(s.ring, slot);
    }
  }

  /** The slot that process_exit(pid) finds, or MAX_PROCESSES. */
  function Find(pool: seq<Pcb>, pid: nat, i: nat): (slot: nat)
    requires |pool| == MAX_PROCESSES && i <= MAX_PROCESSES
    ensures i <= slot <= MAX_PROCESSES
    ensures slot < MAX_PROCESSES ==> pool[slot].pid == pid && pool[slot].state != Unused
    ensures forall j | i <= j < slot :: !(pool[j].pid == pid && pool[j].state != Unused)
    decreases |pool| - i
  {
    if i == MAX_PROCESSES || (pool[i].pid == pid && pool[i].state != Unused) then i else Find(pool, pid, i + 1)
  }

  function Exit(s: Procs, pid: nat): Procs
    requires |s.pool| == MAX_PROCESSES
  {
    var slot := Find(s.pool, pid, 0);
    if slot == MAX_PROCESSES then s else s.(pool := s.pool[slot := s.pool[slot].(state := Zombie)])
  }

  function Sleep(s: Procs, ticks: nat, now: nat): Procs
    requires s.cur < |s.pool|
  {
    if ticks == 0 then s
    else s.(pool := s.pool[s.cur := s.pool[s.cur].(sleepTicks := ticks, wakeTick := now + ticks, state := Sleeping)])
  }

  /** process_exit marks one process and process_sleep the current one; no other field changes. */
  lemma ExitExactly(s: Procs, pid: nat, x: nat)
    requires |s.pool| == MAX_PROCESSES && x < MAX_PROCESSES
    ensures var s' := Exit(s, pid);
            && s'.ring == s.ring && s'.cur == s.cur && |s'.pool| == MAX_PROCESSES
            && s'.pool[x].state == (if x == Find(s.pool, pid, 0) then Zombie else s.pool[x].state)
            && s'.pool[x].(state := Zombie) == s.pool[x].(state := Zombie)
  {
  }

  lemma SleepExactly(s: Procs, ticks: nat, now: nat, x: nat)
    requires s.cur < |s.pool| && x < |s.pool|
    ensures var s' := Sleep(s, ticks, now);
            var p, p' := s.pool[x], s'.pool[x];
            && s'.ring == s.ring && s'.cur == s.cur && |s'.pool| == |s.pool|
            && if x == s.cur && ticks > 0 then
                 && p'.state == Sleeping && p'.sleepTicks == ticks && p'.wakeTick == now + ticks && p'.pid == p.pid
                 && p'.ppid == p.ppid && p'.priority == p.priority && p'.esp == p.esp && p'.cpuTime == p.cpuTime
               else p' == p
  {
  }

  /** Of what the selection saw, process_schedule changes only the state of the process it chooses. */
  lemma ScheduleSlot(s: Procs, esp: nat, now: nat, i: nat)
    requires Wf(s) && s.cur < MAX_PROCESSES && i < MAX_PROCESSES
    ensures var s', p := Schedule(s, esp, now), Seen(s, esp, now)[i];
            |s'.pool| == MAX_PROCESSES && s'.pool[i] == if i == s'.cur then p.(state := Running) else p
  {
  }

  lemma SeenReady(s: Procs, esp: nat, now: nat, i: nat)
    requires Wf(s) && s.cur < MAX_PROCESSES && i < MAX_PROCESSES
    requires s.pool[i].state == Ready || (i == s.cur && s.pool[i].state == Running)
    ensures var p := Seen(s, esp, now)[i];
            p.state == Ready && p.priority == s.pool[i].priority && p.pid == s.pool[i].pid
  {
  }

  /** No process of the list is READY in the selection. */
  ghost predicate NobodyReady(s: Procs, esp: nat, now: nat)
    requires Wf(s) && s.cur < MAX_PROCESSES && Within(s.ring, Seen(s, esp, now))
  {
    forall x | x in s.ring :: Seen(s, esp, now)[x].state != Ready
  }

  /** A process that is not READY is chosen exactly if it is the idle process and nobody is READY. */
  lemma NotReadyChosenIff(s: Procs, esp: nat, now: nat, x: nat)
    requires Wf(s) && s.cur < MAX_PROCESSES && x < MAX_PROCESSES && Seen(s, esp, now)[x].state != Ready
    ensures Within(s.ring, Seen(s, esp, now))
    ensures Schedule(s, esp, now).cur == x <==> x == 0 && NobodyReady(s, esp, now)
    ensures |Schedule(s, esp, now).pool| == MAX_PROCESSES
    ensures Schedule(s, esp, now).cur != x ==> Schedule(s, esp, now).pool[x] == Seen(s, esp, now)[x]
  {
    ScheduleChoosesMaximal(s, esp, now);
    ScheduleSlot(s, esp, now, x);
  }

  ghost predicate Keeps(s: Procs, esp: nat, now: nat, s': Procs, p: nat)
    requires Wf(s)
  {
    p < |Schedule(s, esp, now).pool| == |s'.pool| && s'.pool[p] == Schedule(s, esp, now).pool[p]
  }

  /** Consecutive process_schedule calls between which nobody writes the PCB of p. */
  ghost predicate QuietTrace(states: seq<Procs>, esps: seq<nat>, nows: seq<nat>, p: nat) {
    && |states| == |esps| + 1 == |nows| + 1
    && (forall i | 0 <= i < |states| :: Wf(states[i]) && p in states[i].ring && states[i].cur < MAX_PROCESSES)
    && (forall i, j | 0 <= i < j == i + 1 < |states| :: Keeps(states[i], esps[i], nows[i], states[j], p))
  }

  ghost predicate Asleep(s: Procs, p: nat, wake: nat) {
    p < |s.pool| && s.pool[p].state == Sleeping && s.pool[p].wakeTick == wake
  }

  /** p is passed over as long as it is asleep: it is not the idle process, or somebody is READY. */
  ghost predicate PassedOver(s: Procs, esp: nat, now: nat, p: nat)
    requires Wf(s) && s.cur < MAX_PROCESSES && Within(s.ring, Seen(s, esp, now))
  {
    p > 0 || !NobodyReady(s, esp, now)
  }

  lemma EarlyCall(s: Procs, esp: nat, now: nat, p: nat, wake: nat)
    requires Wf(s) && s.cur < MAX_PROCESSES && p in s.ring && p < MAX_PROCESSES && Asleep(s, p, wake)
    ensures Within(s.ring, Seen(s, esp, now))
    ensures Seen(s, esp, now)[p].state == Ready <==> now >= wake
    ensures now < wake ==> (Schedule(s, esp, now).cur != p <==> PassedOver(s, esp, now, p))
    ensures now < wake && PassedOver(s, esp, now, p) ==> Asleep(Schedule(s, esp, now), p, wake)
  {
    assert Asleep(s, p, wake);
    if now < wake {
      NotReadyChosenIff(s, esp, now, p);
    }
  }

  /** Call i came before the wake time and passed p over. */
  ghost predicate EarlyAt(states: seq<Procs>, esps: seq<nat>, nows: seq<nat>, p: nat, wake: nat, i: nat)
    requires QuietTrace(states, esps, nows, p) && i < |nows|
  {
    nows[i] < wake && Within(states[i].ring, Seen(states[i], esps[i], nows[i]))
    && PassedOver(states[i], esps[i], nows[i], p)
  }

  lemma {:induction false} StaysAsleep(states: seq<Procs>, esps: seq<nat>, nows: seq<nat>, p: nat, wake: nat, k: nat)
    requires QuietTrace(states, esps, nows, p) && k < |states| && p < MAX_PROCESSES && Asleep(states[0], p, wake)
    requires forall i: nat | i < k :: EarlyAt(states, esps, nows, p, wake, i)
    ensures Asleep(states[k], p, wake)
  {
    if k > 0 {
      StaysAsleep(states, esps, nows, p, wake, k - 1);
      assert EarlyAt(states, esps, nows, p, wake, k - 1);
      EarlyCall(states[k - 1], esps[k - 1], nows[k - 1], p, wake);
      assert Keeps(states[k - 1], esps[k - 1], nows[k - 1], states[k], p);
    }
  }

  /**
    Over any number of process_schedule calls, a process that called
    process_sleep(ticks) at time t0 stays SLEEPING with the same wake_tick and is
    not chosen, up to the first call at or after t0 + ticks, which sees it READY.
    Only the idle process is chosen earlier, by a call that finds nobody READY.
  */
  lemma SleepsUntil(s: Procs, ticks: nat, t0: nat, wake: nat,
                    states: seq<Procs>, esps: seq<nat>, nows: seq<nat>, k: nat)
    requires ticks > 0 && wake == t0 + ticks && s.cur < |s.pool| && states != [] && states[0] == Sleep(s, ticks, t0)
    requires QuietTrace(states, esps, nows, s.cur) && k < |nows|
    requires forall i: nat | i < k :: EarlyAt(states, esps, nows, s.cur, wake, i)
    ensures states[k].cur < MAX_PROCESSES && Asleep(states[k], s.cur, wake)
    ensures Seen(states[k], esps[k], nows[k])[s.cur].state == Ready <==> nows[k] >= wake
    ensures nows[k] < wake ==>
              (Schedule(states[k], esps[k], nows[k]).cur != s.cur <==> EarlyAt(states, esps, nows, s.cur, wake, k))
  {
    StaysAsleep(states, esps, nows, s.cur, wake, k);
    EarlyCall(states[k], esps[k], nows[k], s.cur, wake);
  }

  lemma SeenReaped(z: Procs, esp: nat, now: nat, slot: nat)
    requires Wf(z) && z.cur < MAX_PROCESSES && slot < MAX_PROCESSES && slot in z.ring && z.pool[slot].state == Zombie
    ensures Seen(z, esp, now)[slot].state == Unused
  {
  }

  lemma ReapedIsUnused(z: Procs, esp: nat, now: nat, slot: nat)
    requires Wf(z) && z.cur < MAX_PROCESSES && 0 < slot < MAX_PROCESSES && slot in z.ring
    requires z.pool[slot].state == Zombie
    ensures |Schedule(z, esp, now).pool| == MAX_PROCESSES && Schedule(z, esp, now).pool[slot].state == Unused
  {
    SeenReaped(z, esp, now, slot);
    NotReadyChosenIff(z, esp, now, slot);
  }

  lemma LowestUnused(pool: seq<Pcb>, slot: nat)
    requires |pool| == MAX_PROCESSES && 1 <= slot < MAX_PROCESSES && pool[slot].state == Unused
    requires forall j | 1 <= j < slot :: pool[j].state != Unused
    ensures FreeSlot(pool, 1) == slot
  {
  }

  lemma StaysUsed(s: Procs, esp: nat, now: nat, j: nat)
    requires Wf(s) && s.cur < MAX_PROCESSES && j < MAX_PROCESSES
    requires s.pool[j].state != Unused && s.pool[j].state != Zombie
    ensures |Schedule(s, esp, now).pool| == MAX_PROCESSES && Schedule(s, esp, now).pool[j].state != Unused
  {
    assert Seen(s, esp, now)[j].state != Unused;
    ScheduleSlot(s, esp, now, j);
  }

  lemma ReapedIsOffered(z: Procs, esp: nat, now: nat, slot: nat)
    requires Wf(z) && z.cur < MAX_PROCESSES && 0 < slot < MAX_PROCESSES && slot in z.ring
    requires z.pool[slot].state == Zombie
    requires forall j | 1 <= j < slot :: z.pool[j].state != Unused && z.pool[j].state != Zombie
    ensures var s' := Schedule(z, esp, now);
            s'.ring == z.ring && |s'.pool| == MAX_PROCESSES && FreeSlot(s'.pool, 1) == slot
  {
    var pool := Schedule(z, esp, now).pool;
    ReapedIsUnused(z, esp, now, slot);
    forall j | 1 <= j < slot ensures pool[j].state != Unused {
      StaysUsed(z, esp, now, j);
    }
    LowestUnused(pool, slot);
  }

  lemma CreateCuts(s: Procs, slot: nat, pid: nat, priority: nat, ppid: nat, frame: nat)
    requires |s.pool| == MAX_PROCESSES && FreeSlot(s.pool, 1) == slot < MAX_PROCESSES && slot in s.ring
    ensures Create(s, pid, priority, ppid, frame).ring == s.ring[..Position(s.ring, slot) + 1]
  {
  }

  /**
    A process that exits is reaped by the next process_schedule but stays linked.
    If no lower slot is unused or dying, process_create takes that linked slot and
    cuts off every process behind it in the list.
  */
  lemma ReapedSlotCutsList(s: Procs, pid: nat, esp: nat, now: nat, pid': nat, priority: nat, ppid: nat, frame: nat)
    requires Wf(s) && s.cur < MAX_PROCESSES
    requires 0 < Find(s.pool, pid, 0) < MAX_PROCESSES && Find(s.pool, pid, 0) in s.ring
    requires forall j | 1 <= j < Find(s.pool, pid, 0) :: s.pool[j].state != Unused && s.pool[j].state != Zombie
    ensures var slot, s' := Find(s.pool, pid, 0), Schedule(Exit(s, pid), esp, now);
            && s'.ring == s.ring && |s'.pool| == MAX_PROCESSES && FreeSlot(s'.pool, 1) == slot
            && Create(s', pid', priority, ppid, frame).ring == s.ring[..Position(s.ring, slot) + 1]
  {
    var slot := Find(s.pool, pid, 0);
    var z := Exit(s, pid);
    assert s.pool[slot].state != Unused;
    ReapedIsOffered(z, esp, now, slot);
    CreateCuts(Schedule(z, esp, now), slot, pid', priority, ppid, frame);
  }
}
