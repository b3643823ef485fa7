/**
  Blocking pipe traffic (pipe.c) under arbitrary preemption.  Any number of tasks
  call pipe_write_blocking and pipe_read_blocking on one open pipe; the processor
  may switch tasks between any two accesses to the shared structure.
*/
module PipeProtocol {
  import opened Basics
  import opened Locks
  import opened RingBuffer

  const PIPE_BUFFER_SIZE: nat := 256

  datatype Pipe = Pipe(buffer: seq<nat>, readIdx: nat, writeIdx: nat, count: int, active: bool,
                       lock: Mutex, notEmpty: Sem, notFull: Sem)

  /** Where a task is, with the values it holds in registers. */
  datatype Pc =
    | Idle
    | WCheck(v: nat)              // pipe.c:72, load active
    | WWait(v: nat)               // pipe.c:77
    | WRecheck(v: nat)            // pipe.c:47, load active
    | WLock(v: nat)               // pipe.c:51
    | WTest(v: nat)               // pipe.c:53, load count
    | WSlot(v: nat)               // pipe.c:58, load write_idx
    | WStore(v: nat, r: nat)      // pipe.c:58, store buffer
    | WIdx(v: nat)                // pipe.c:59, load write_idx
    | WIdxStore(v: nat, r: nat)   // pipe.c:59, store write_idx
    | WCount(v: nat)              // pipe.c:60, load count
    | WCountStore(v: nat, n: int) // pipe.c:60, store count
    | WUnlock                     // pipe.c:62
    | WPost                       // pipe.c:65
    | WFull                       // pipe.c:54
    | RCheck                      // pipe.c:109, load active
    | RWait                       // pipe.c:114
    | RRecheck                    // pipe.c:84, load active
    | RLock                       // pipe.c:88
    | RTest                       // pipe.c:90, load count
    | RSlot                       // pipe.c:95, load read_idx
    | RLoad(r: nat)               // pipe.c:95, load buffer
    | RIdx(v: nat)                // pipe.c:96, load read_idx
    | RIdxStore(v: nat, r: nat)   // pipe.c:96, store read_idx
    | RCount(v: nat)              // pipe.c:97, load count
    | RCountStore(v: nat, n: int) // pipe.c:97, store count
    | RUnlock(v: nat)             // pipe.c:99
    | RPost(v: nat)               // pipe.c:102
    | REmpty                      // pipe.c:91
    | Returned(e: Error)

  /** The next access of task me at pc. */
  function Exec(p: Pipe, pc: Pc, me: nat): (Pipe, Pc)
    requires |p.buffer| == PIPE_BUFFER_SIZE
  {
    match pc
    case Idle => (p, Idle)
    case Returned(_) => (p, Idle)
    case WCheck(v) => (p, if p.active then WWait(v) else Returned(BadDescriptor))
    case WWait(v) => if p.notFull.count > 0 then (p.(notFull := Take(p.notFull)), WRecheck(v)) else (p, pc)
    case WRecheck(v) => (p, if p.active then WLock(v) else Returned(BadDescriptor))
    case WLock(v) => (p.(lock := Attempt(p.lock, me)), if p.lock.locked then pc else WTest(v))
    case WTest(v) => (p, if p.count >= PIPE_BUFFER_SIZE then WFull else WSlot(v))
    case WSlot(v) => (p, WStore(v, p.writeIdx))
    case WStore(v, r) => (if r < PIPE_BUFFER_SIZE then p.(buffer := p.buffer[r := v]) else p, WIdx(v))
    case WIdx(v) => (p, WIdxStore(v, p.writeIdx))
    case WIdxStore(v, r) => (p.(writeIdx := (r + 1) % PIPE_BUFFER_SIZE), WCount(v))
    case WCount(v) => (p, WCountStore(v, p.count))
    case WCountStore(v, n) => (p.(count := n + 1), WUnlock)
    case WUnlock => (p.(lock := Unlock(p.lock, me)), WPost)
    case WPost => (p.(notEmpty := Post(p.notEmpty)), Returned(Ok))
    case WFull => (p.(lock := Unlock(p.lock, me)), Returned(Busy))
    case RCheck => (p, if p.active then RWait else Returned(Invalid))
    case RWait => if p.notEmpty.count > 0 then (p.(notEmpty := Take(p.notEmpty)), RRecheck) else (p, pc)
    case RRecheck => (p, if p.active then RLock else Returned(Invalid))
    case RLock => (p.(lock := Attempt(p.lock, me)), if p.lock.locked then pc else RTest)
    case RTest => (p, if p.count == 0 then REmpty else RSlot)
    case RSlot => (p, RLoad(p.readIdx))
    case RLoad(r) => (p, RIdx(if r < PIPE_BUFFER_SIZE then p.buffer[r] else 0))
    case RIdx(v) => (p, RIdxStore(v, p.readIdx))
    case RIdxStore(v, r) => (p.(readIdx := (r + 1) % PIPE_BUFFER_SIZE), RCount(v))
    case RCount(v) => (p, RCountStore(v, p.count))
    case RCountStore(v, n) => (p.(count := n - 1), RUnlock(v))
    case RUnlock(v) => (p.(lock := Unlock(p.lock, me)), RPost(v))
    case RPost(_) => (p.(notFull := Post(p.notFull)), Returned(Ok))
    case REmpty => (p.(lock := Unlock(p.lock, me)), Returned(Busy))
  }

  /** The call has taken a token and not yet passed it on. */
  predicate InFlight(pc: Pc) {
    !(pc.Idle? || pc.Returned? || pc.WCheck? || pc.WWait? || pc.RCheck? || pc.RWait?)
  }

  predicate PastInsert(pc: Pc) {
    pc.WUnlock? || pc.WPost?
  }

  predicate BeforeRemove(pc: Pc) {
    || pc.RRecheck? || pc.RLock? || pc.RTest? || pc.RSlot? || pc.RLoad? || pc.RIdx?
    || pc.RIdxStore? || pc.RCount? || pc.RCountStore?
  }

  datatype World = World(p: Pipe, pc: map<nat, Pc>, written: seq<nat>, read: seq<nat>)

  /** pipe_create (pipe.c:14-23), and no call started yet. */
  ghost predicate Init(w: World) {
    && |w.p.buffer| == PIPE_BUFFER_SIZE
    && w.p == Pipe(w.p.buffer, 0, 0, 0, true, UNLOCKED, Sem(0, 1), Sem(1, 1))
    && (forall t | t in w.pc :: w.pc[t] == Idle)
    && w.written == [] && w.read == []
  }

  ghost predicate Step(a: World, b: World, t: nat) {
    && t in a.pc && |a.p.buffer| == PIPE_BUFFER_SIZE
    && if a.pc[t] == Idle then
         && b.p == a.p && b.written == a.written && b.read == a.read
         && (b.pc == a.pc[t := RCheck] || exists v :: b.pc == a.pc[t := WCheck(v)])
       else
         var (p, pc) := Exec(a.p, a.pc[t], t);
         && b.p == p && b.pc == a.pc[t := pc]
         && b.written == a.written + (if a.pc[t].WCountStore? then [a.pc[t].v] else [])
         && b.read == a.read + (if a.pc[t].RCountStore? then [a.pc[t].v] else [])
  }

  // ------------------------------------------------------------------- invariant

  ghost predicate Shape(p: Pipe) {
    && |p.buffer| == PIPE_BUFFER_SIZE && p.readIdx < PIPE_BUFFER_SIZE && p.writeIdx < PIPE_BUFFER_SIZE
    && 0 <= p.count <= 1 && p.active
    && p.notEmpty.max == 1 && p.notFull.max == 1
  }

  /** Indices, count and histories agree, with n items in the buffer. */
  ghost predicate Holds(p: Pipe, n: nat, written: seq<nat>, read: seq<nat>)
    requires Shape(p)
  {
    && p.count == n && p.writeIdx == Wrap(PIPE_BUFFER_SIZE, p.readIdx + n)
    && read + Window(p.buffer, p.readIdx, p.count) == written
  }

  ghost predicate Locked(p: Pipe, me: nat) {
    p.lock == Mutex(true, Some(me))
  }

  ghost predicate Inserted(p: Pipe, v: nat, written: seq<nat>, read: seq<nat>) {
    && Shape(p) && p.count == 0 && p.writeIdx == Wrap(PIPE_BUFFER_SIZE, p.readIdx + 1)
    && p.buffer[p.readIdx] == v && read == written
  }

  ghost predicate Removed(p: Pipe, v: nat, written: seq<nat>, read: seq<nat>) {
    && Shape(p) && p.count == 1 && p.writeIdx == p.readIdx && read + [v] == written
  }

  /** What the one call in flight has established. */
  ghost predicate Flight(p: Pipe, pc: Pc, me: nat, written: seq<nat>, read: seq<nat>)
    requires Shape(p)
  {
    match pc
    case WRecheck(_) => Holds(p, 0, written, read) && p.lock == UNLOCKED
    case WLock(_) => Holds(p, 0, written, read) && p.lock == UNLOCKED
    case WTest(_) => Holds(p, 0, written, read) && Locked(p, me)
    case WSlot(_) => Holds(p, 0, written, read) && Locked(p, me)
    case WStore(_, r) => Holds(p, 0, written, read) && Locked(p, me) && r == p.writeIdx
    case WIdx(v) => Holds(p, 0, written, read) && Locked(p, me) && p.buffer[p.readIdx] == v
    case WIdxStore(v, r) => Holds(p, 0, written, read) && Locked(p, me) && p.buffer[p.readIdx] == v && r == p.writeIdx
    case WCount(v) => Inserted(p, v, written, read) && Locked(p, me)
    case WCountStore(v, n) => Inserted(p, v, written, read) && Locked(p, me) && n == p.count
    case WUnlock => Holds(p, 1, written, read) && Locked(p, me)
    case WPost => Holds(p, 1, written, read) && p.lock == UNLOCKED
    case RRecheck => Holds(p, 1, written, read) && p.lock == UNLOCKED
    case RLock => Holds(p, 1, written, read) && p.lock == UNLOCKED
    case RTest => Holds(p, 1, written, read) && Locked(p, me)
    case RSlot => Holds(p, 1, written, read) && Locked(p, me)
    case RLoad(r) => Holds(p, 1, written, read) && Locked(p, me) && r == p.readIdx
    case RIdx(v) => Holds(p, 1, written, read) && Locked(p, me) && p.buffer[p.readIdx] == v
    case RIdxStore(v, r) => Holds(p, 1, written, read) && Locked(p, me) && p.buffer[p.readIdx] == v && r == p.readIdx
    case RCount(v) => Removed(p, v, written, read) && Locked(p, me)
    case RCountStore(v, n) => Removed(p, v, written, read) && Locked(p, me) && n == p.count
    case RUnlock(_) => Holds(p, 0, written, read) && Locked(p, me)
    case RPost(_) => Holds(p, 0, written, read) && p.lock == UNLOCKED
    case _ => false
  }

  /** The token is in one of the semaphores or with exactly one call. */
  ghost predicate Inv(w: World) {
    && Shape(w.p)
    && w.p.notFull.count >= 0 && w.p.notEmpty.count >= 0
    && (forall s, t | s in w.pc && t in w.pc && InFlight(w.pc[s]) && InFlight(w.pc[t]) :: s == t)
    && (forall t | t in w.pc && InFlight(w.pc[t]) ::
          && w.p.notFull.count == w.p.notEmpty.count == 0
          && Flight(w.p, w.pc[t], t, w.written, w.read))
    && ((forall t | t in w.pc :: !InFlight(w.pc[t])) ==>
          && w.p.notFull.count + w.p.notEmpty.count == 1 && w.p.lock == UNLOCKED
          && Holds(w.p, w.p.notEmpty.count, w.written, w.read))
    && (forall t | t in w.pc && w.pc[t].Returned? :: w.pc[t] == Returned(Ok))
  }

  ghost predicate StepKeeps(p: Pipe, pc: Pc, me: nat, written: seq<nat>, read: seq<nat>)
    requires Shape(p)
  {
    var (p', pc') := Exec(p, pc, me);
    var written' := written + (if pc.WCountStore? then [pc.v] else []);
    var read' := read + (if pc.RCountStore? then [pc.v] else []);
    && Shape(p')
    && if InFlight(pc') then
         && Flight(p', pc', me, written', read')
         && p'.notFull == p.notFull && p'.notEmpty == p.notEmpty
       else
         && pc' == Returned(Ok) && p'.lock == UNLOCKED
         && p'.notFull.count + p'.notEmpty.count == 1 && p'.notFull.count >= 0 && p'.notEmpty.count >= 0
         && Holds(p', p'.notEmpty.count, written', read')
  }

  predicate IsStore(pc: Pc) {
    pc.WStore? || pc.WIdxStore? || pc.WCountStore? || pc.RIdxStore? || pc.RCountStore?
  }

  predicate Reads(pc: Pc) {
    BeforeRemove(pc) || pc.RUnlock? || pc.RPost? || pc.REmpty?
  }

  lemma WriterStep(p: Pipe, pc: Pc, me: nat, written: seq<nat>, read: seq<nat>)
    requires Shape(p) && Flight(p, pc, me, written, read) && p.notFull.count == p.notEmpty.count == 0
    requires !IsStore(pc) && !Reads(pc)
    ensures StepKeeps(p, pc, me, written, read)
  {
    assert written + [] == written && read + [] == read;
  }

  lemma ReaderEnters(p: Pipe, pc: Pc, me: nat, written: seq<nat>, read: seq<nat>)
    requires Shape(p) && Flight(p, pc, me, written, read) && p.notFull.count == p.notEmpty.count == 0
    requires pc.RRecheck? || pc.RLock? || pc.RTest?
    ensures StepKeeps(p, pc, me, written, read)
  {
    assert written + [] == written && read + [] == read;
  }

  lemma ReaderLoads(p: Pipe, pc: Pc, me: nat, written: seq<nat>, read: seq<nat>)
    requires Shape(p) && Flight(p, pc, me, written, read) && p.notFull.count == p.notEmpty.count == 0
    requires pc.RSlot? || pc.RLoad?
    ensures StepKeeps(p, pc, me, written, read)
  {
    assert written + [] == written && read + [] == read;
  }

  lemma ReaderReloads(p: Pipe, pc: Pc, me: nat, written: seq<nat>, read: seq<nat>)
    requires Shape(p) && Flight(p, pc, me, written, read) && p.notFull.count == p.notEmpty.count == 0
    requires pc.RIdx? || pc.RCount?
    ensures StepKeeps(p, pc, me, written, read)
  {
    assert written + [] == written && read + [] == read;
  }

  lemma ReaderLeaves(p: Pipe, pc: Pc, me: nat, written: seq<nat>, read: seq<nat>)
    requires Shape(p) && Flight(p, pc, me, written, read) && p.notFull.count == p.notEmpty.count == 0
    requires pc.RUnlock? || pc.RPost?
    ensures StepKeeps(p, pc, me, written, read)
  {
    assert written + [] == written && read + [] == read;
  }

  lemma InsertStep(p: Pipe, pc: Pc, me: nat, written: seq<nat>, read: seq<nat>)
    requires Shape(p) && Flight(p, pc, me, written, read) && p.notFull.count == p.notEmpty.count == 0
    requires pc.WStore? || pc.WIdxStore? || pc.WCountStore?
    ensures StepKeeps(p, pc, me, written, read)
  {
    assert written + [] == written && read + [] == read;
    if pc.WStore? {
      WindowStore(p.buffer, p.readIdx, 0, pc.v);
    } else if pc.WCountStore? {
      WindowExtend(p.buffer, p.readIdx, 0);
      assert Window(p.buffer, p.readIdx, 1) == [pc.v];
    }
  }

  lemma RemoveStep(p: Pipe, pc: Pc, me: nat, written: seq<nat>, read: seq<nat>)
    requires Shape(p) && Flight(p, pc, me, written, read) && p.notFull.count == p.notEmpty.count == 0
    requires pc.RIdxStore? || pc.RCountStore?
    ensures StepKeeps(p, pc, me, written, read)
  {
    assert written + [] == written && read + [] == read;
    if pc.RIdxStore? {
      WindowDrop(p.buffer, p.readIdx, 1);
      assert Window(p.buffer, p.readIdx, 1) == [pc.v];
    } else {
      assert (read + [pc.v]) + Window(p.buffer, p.readIdx, 0) == written;
    }
  }

  lemma FlightStep(p: Pipe, pc: Pc, me: nat, written: seq<nat>, read: seq<nat>)
    requires Shape(p) && Flight(p, pc, me, written, read) && p.notFull.count == p.notEmpty.count == 0
    ensures StepKeeps(p, pc, me, written, read)
  {
    if pc.WStore? || pc.WIdxStore? || pc.WCountStore? {
      InsertStep(p, pc, me, written, read);
    } else if pc.RIdxStore? || pc.RCountStore? {
      RemoveStep(p, pc, me, written, read);
    } else if pc.RUnlock? || pc.RPost? {
      ReaderLeaves(p, pc, me, written, read);
    } else if pc.RRecheck? || pc.RLock? || pc.RTest? {
      ReaderEnters(p, pc, me, written, read);
    } else if pc.RIdx? || pc.RCount? {
      ReaderReloads(p, pc, me, written, read);
    } else if Reads(pc) {
      ReaderLoads(p, pc, me, written, read);
    } else {
      WriterStep(p, pc, me, written, read);
    }
  }

  lemma FlightInv(a: World, b: World, t: nat)
    requires Inv(a) && Step(a, b, t) && InFlight(a.pc[t])
    ensures Inv(b)
  {
    FlightStep(a.p, a.pc[t], t, a.written, a.read);
    assert forall s | s in b.pc && InFlight(b.pc[s]) :: s == t;
    assert t in b.pc;
  }

  /** A call outside the flight can only take the token. */
  lemma GroundStep(p: Pipe, pc: Pc, me: nat, written: seq<nat>, read: seq<nat>)
    requires Shape(p) && !InFlight(pc)
    ensures var (p', pc') := Exec(p, pc, me);
            && (!InFlight(pc') ==> p' == p && !pc'.Returned?)
            && (InFlight(pc') ==> p.notFull.count > 0 || p.notEmpty.count > 0)
            && (InFlight(pc') && p.notFull.count + p.notEmpty.count == 1
                && p.notFull.count >= 0 && p.notEmpty.count >= 0
                && p.lock == UNLOCKED && Holds(p, p.notEmpty.count, written, read) ==>
                  && p'.notFull.count == p'.notEmpty.count == 0 && Shape(p')
                  && Flight(p', pc', me, written, read))
  {
  }

  lemma TakeInv(a: World, b: World, t: nat)
    requires Inv(a) && Step(a, b, t) && !InFlight(a.pc[t]) && InFlight(b.pc[t])
    ensures Inv(b)
  {
    GroundStep(a.p, a.pc[t], t, a.written, a.read);
    assert a.written + [] == a.written && a.read + [] == a.read;
    assert forall s | s in a.pc :: !InFlight(a.pc[s]);
    assert forall s | s in b.pc && InFlight(b.pc[s]) :: s == t;
    assert t in b.pc;
  }

  lemma MoveOnGround(a: World, t: nat, q: Pc)
    requires Inv(a) && t in a.pc && !InFlight(a.pc[t]) && !InFlight(q) && !q.Returned?
    ensures Inv(a.(pc := a.pc[t := q]))
  {
    var b := a.(pc := a.pc[t := q]);
    assert forall s | s in a.pc :: s in b.pc && (InFlight(a.pc[s]) <==> InFlight(b.pc[s]));
  }

  lemma WaitInv(a: World, b: World, t: nat)
    requires Inv(a) && Step(a, b, t) && !InFlight(a.pc[t]) && !InFlight(b.pc[t])
    ensures Inv(b)
  {
    GroundStep(a.p, a.pc[t], t, a.written, a.read);
    assert a.written + [] == a.written && a.read + [] == a.read;
    MoveOnGround(a, t, b.pc[t]);
    assert b == a.(pc := a.pc[t := b.pc[t]]);
  }

  lemma StepInv(a: World, b: World, t: nat)
    requires Inv(a) && Step(a, b, t)
    ensures Inv(b)
  {
    if InFlight(a.pc[t]) {
      FlightInv(a, b, t);
    } else if InFlight(b.pc[t]) {
      TakeInv(a, b, t);
    } else {
      WaitInv(a, b, t);
    }
  }

  ghost predicate StepAt(run: seq<World>, who: seq<nat>, i: nat)
    requires |run| == |who| + 1 && i < |who|
  {
    Step(run[i], run[i + 1], who[i])
  }

  ghost predicate Steps(run: seq<World>, who: seq<nat>) {
    |run| == |who| + 1 && forall i: nat | i < |who| :: StepAt(run, who, i)
  }

  ghost predicate Run(run: seq<World>, who: seq<nat>) {
    Steps(run, who) && Init(run[0])
  }

  lemma InitInv(w: World)
    requires Init(w)
    ensures Inv(w)
  {
  }

  lemma StepAtInv(run: seq<World>, who: seq<nat>, i: nat, a: World, b: World)
    requires Steps(run, who) && i < |who| && a == run[i] && b == run[i + 1] && Inv(a)
    ensures Inv(b)
  {
    assert StepAt(run, who, i);
    StepInv(a, b, who[i]);
  }

  lemma {:induction false} StepsInv(run: seq<World>, who: seq<nat>, k: nat) returns (w: World)
    requires Steps(run, who) && Inv(run[0]) && k < |run|
    ensures w == run[k] && Inv(w)
  {
    w := run[k];
    if k > 0 {
      var a := StepsInv(run, who, k - 1);
      StepAtInv(run, who, k - 1, a, w);
    }
  }

  // -------------------------------------------------------------------- theorems

  ghost function Where(w: World, here: Pc -> bool): set<nat> {
    set t | t in w.pc && here(w.pc[t])
  }

  lemma Alone(w: World, t: nat, here: Pc -> bool)
    requires Inv(w) && t in w.pc && InFlight(w.pc[t]) && forall pc | here(pc) :: InFlight(pc)
    ensures |Where(w, here)| == if here(w.pc[t]) then 1 else 0
  {
    assert Where(w, here) == if here(w.pc[t]) then {t} else {};
  }

  lemma Nobody(w: World, here: Pc -> bool)
    requires forall t | t in w.pc :: !InFlight(w.pc[t])
    requires forall pc | here(pc) :: InFlight(pc)
    ensures |Where(w, here)| == 0
  {
  }

  lemma FlightCount(p: Pipe, pc: Pc, me: nat, written: seq<nat>, read: seq<nat>)
    requires Shape(p) && Flight(p, pc, me, written, read)
    ensures p.count == (if PastInsert(pc) then 1 else 0) + (if BeforeRemove(pc) then 1 else 0)
    ensures read <= written && |written| == |read| + p.count
  {
  }

  lemma TokenCounts(w: World)
    requires Inv(w)
    ensures w.p.notFull.count + w.p.notEmpty.count + |Where(w, InFlight)| == 1
    ensures w.p.count == w.p.notEmpty.count + |Where(w, PastInsert)| + |Where(w, BeforeRemove)|
  {
    if t :| t in w.pc && InFlight(w.pc[t]) {
      Alone(w, t, InFlight);
      Alone(w, t, PastInsert);
      Alone(w, t, BeforeRemove);
      FlightCount(w.p, w.pc[t], t, w.written, w.read);
    } else {
      Nobody(w, InFlight);
      Nobody(w, PastInsert);
      Nobody(w, BeforeRemove);
    }
  }

  /**
    There is exactly one token, the buffer holds at most one item, and what was
    read is a prefix of what was written, at most one item behind.
  */
  ghost predicate HandsOver(w: World) {
    && w.p.notFull.count + w.p.notEmpty.count + |Where(w, InFlight)| == 1
    && w.p.count == w.p.notEmpty.count + |Where(w, PastInsert)| + |Where(w, BeforeRemove)|
    && 0 <= w.p.count <= 1
    && w.read <= w.written && |w.written| == |w.read| + w.p.count
  }

  lemma InvHandsOver(w: World)
    requires Inv(w)
    ensures HandsOver(w)
  {
    TokenCounts(w);
    if t :| t in w.pc && InFlight(w.pc[t]) {
      FlightCount(w.p, w.pc[t], t, w.written, w.read);
    }
  }

  /** In every interleaving of blocking readers and writers values are handed over one at a time. */
  lemma PipeHandsOver(run: seq<World>, who: seq<nat>, k: nat)
    requires Run(run, who) && k < |run|
    ensures HandsOver(run[k])
  {
    InitInv(run[0]);
    var w := StepsInv(run, who, k);
    InvHandsOver(w);
  }

  /** Neither blocking call ever takes the E_BUSY branch or fails: each call that returns, returns E_OK. */
  lemma NeverBusy(run: seq<World>, who: seq<nat>, k: nat, t: nat)
    requires Run(run, who) && k < |run| && t in run[k].pc
    ensures run[k].pc[t] != WFull && run[k].pc[t] != REmpty
    ensures run[k].pc[t].Returned? ==> run[k].pc[t] == Returned(Ok)
  {
    InitInv(run[0]);
    var w := StepsInv(run, who, k);
    assert InFlight(w.pc[t]) ==> Flight(w.p, w.pc[t], t, w.written, w.read);
  }
}
