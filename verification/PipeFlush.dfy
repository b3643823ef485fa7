/**
  pipe_flush on a pipe that blocking readers and writers use (pipe.c:119-134).  It
  resets the buffer and leaves the semaphores alone, so an item that it discards
  takes the token of the next reader with it.
*/
module PipeFlush {
  import opened Basics
  import opened Locks
  import opened PipeProtocol
  import opened PipeCell

  /**
    The stores of pipe.c:127-129, which happen while nobody else has the lock.  All
    other accesses to these fields are made under the lock, so one step is enough.
  */
  ghost function Flushed(w: World): World {
    w.(p := w.p.(readIdx := 0, writeIdx := 0, count := 0))
  }

  /** The next access of a task, or a flush. */
  datatype Act = Access(t: nat) | Flush

  ghost predicate Move(a: World, b: World, act: Act) {
    match act
    case Access(t) => Step(a, b, t)
    case Flush => a.p.lock == UNLOCKED && b == Flushed(a)
  }

  // ---------------------------------------------------------------- an empty pipe

  lemma EmptyHolds(p: Pipe, written: seq<nat>, read: seq<nat>)
    requires Shape(p) && Holds(p, 0, written, read)
    ensures var p' := p.(readIdx := 0, writeIdx := 0, count := 0);
            Shape(p') && Holds(p', 0, written, read)
  {
  }

  lemma EmptyFlight(p: Pipe, pc: Pc, me: nat, written: seq<nat>, read: seq<nat>)
    requires Shape(p) && Flight(p, pc, me, written, read) && p.lock == UNLOCKED && p.count == 0
    ensures var p' := p.(readIdx := 0, writeIdx := 0, count := 0);
            Shape(p') && Flight(p', pc, me, written, read)
  {
    EmptyHolds(p, written, read);
  }

  lemma EmptyFlushInv(w: World)
    requires Inv(w) && w.p.lock == UNLOCKED && w.p.count == 0
    ensures Inv(Flushed(w))
  {
    if t :| t in w.pc && InFlight(w.pc[t]) {
      EmptyFlight(w.p, w.pc[t], t, w.written, w.read);
    } else {
      EmptyHolds(w.p, w.written, w.read);
    }
  }

  // ------------------------------------------------------------- a pipe with an item

  ghost predicate Fading(p: Pipe, pc: Pc, me: nat) {
    || ((pc.WPost? || pc.RRecheck? || pc.RLock?) && p.lock == UNLOCKED)
    || ((pc.RTest? || pc.REmpty?) && Locked(p, me))
  }

  /** The buffer is empty, no writer has a token, and the last token is on its way to be lost. */
  ghost predicate Poisoned(w: World, written: seq<nat>, read: seq<nat>) {
    && Shape(w.p) && w.p.count == 0 && w.p.notFull.count == 0 && 0 <= w.p.notEmpty.count <= 1
    && w.written == written && w.read == read
    && (forall s, t | s in w.pc && t in w.pc && InFlight(w.pc[s]) && InFlight(w.pc[t]) :: s == t)
    && (forall t | t in w.pc && InFlight(w.pc[t]) :: w.p.notEmpty.count == 0 && Fading(w.p, w.pc[t], t))
    && ((forall t | t in w.pc :: !InFlight(w.pc[t])) ==> w.p.lock == UNLOCKED)
  }

  lemma FlushPoisons(w: World)
    requires Inv(w) && w.p.lock == UNLOCKED && w.p.count == 1
    ensures Poisoned(Flushed(w), w.written, w.read)
  {
    if t :| t in w.pc && InFlight(w.pc[t]) {
      assert Flight(w.p, w.pc[t], t, w.written, w.read);
    }
  }

  /** A call that holds the last token gives it to a reader, or fails with E_BUSY and loses it. */
  lemma FadingStep(p: Pipe, pc: Pc, me: nat)
    requires Shape(p) && p.count == 0 && p.notFull.count == 0 && p.notEmpty.count == 0 && Fading(p, pc, me)
    ensures var (p', pc') := Exec(p, pc, me);
            && Shape(p') && p'.count == 0 && p'.notFull.count == 0 && 0 <= p'.notEmpty.count <= 1
            && (InFlight(pc') ==> p'.notEmpty.count == 0 && Fading(p', pc', me))
            && (!InFlight(pc') ==> p'.lock == UNLOCKED && pc' == if pc.WPost? then Returned(Ok) else Returned(Busy))
            && (p'.notEmpty.count == 1 <==> pc.WPost?)
  {
  }

  lemma PoisonedFlight(a: World, b: World, t: nat, written: seq<nat>, read: seq<nat>)
    requires Poisoned(a, written, read) && Step(a, b, t) && InFlight(a.pc[t])
    ensures Poisoned(b, written, read)
  {
    FadingStep(a.p, a.pc[t], t);
    assert a.written + [] == a.written && a.read + [] == a.read;
    assert forall s | s in b.pc && InFlight(b.pc[s]) :: s == t;
    assert t in b.pc;
  }

  lemma GroundedStep(p: Pipe, pc: Pc, me: nat)
    requires Shape(p) && !InFlight(pc) && p.notFull.count == 0
    ensures var (p', pc') := Exec(p, pc, me);
            && (!InFlight(pc') ==> p' == p)
            && (InFlight(pc') ==> p.notEmpty.count > 0 && pc' == RRecheck && p' == p.(notEmpty := Take(p.notEmpty)))
  {
  }

  lemma PoisonedGround(a: World, b: World, t: nat, written: seq<nat>, read: seq<nat>)
    requires Poisoned(a, written, read) && Step(a, b, t) && !InFlight(a.pc[t])
    ensures Poisoned(b, written, read)
  {
    GroundedStep(a.p, a.pc[t], t);
    assert a.written + [] == a.written && a.read + [] == a.read;
    assert forall s | s in a.pc && s != t :: s in b.pc && b.pc[s] == a.pc[s];
    assert t in b.pc;
    if InFlight(b.pc[t]) {
      assert forall s | s in a.pc :: !InFlight(a.pc[s]);
    } else {
      assert forall s | s in b.pc && InFlight(b.pc[s]) :: s != t;
    }
  }

  lemma PoisonedFlush(a: World, written: seq<nat>, read: seq<nat>)
    requires Poisoned(a, written, read) && a.p.lock == UNLOCKED
    ensures Poisoned(Flushed(a), written, read)
  {
  }

  lemma PoisonedMove(a: World, b: World, act: Act, written: seq<nat>, read: seq<nat>)
    requires Poisoned(a, written, read) && Move(a, b, act)
    ensures Poisoned(b, written, read)
  {
    match act
    case Access(t) =>
      if InFlight(a.pc[t]) {
        PoisonedFlight(a, b, t, written, read);
      } else {
        PoisonedGround(a, b, t, written, read);
      }
    case Flush => PoisonedFlush(a, written, read);
  }

  // -------------------------------------------------------------------- theorems

  ghost predicate MoveAt(run: seq<World>, acts: seq<Act>, i: nat)
    requires |run| == |acts| + 1 && i < |acts|
  {
    Move(run[i], run[i + 1], acts[i])
  }

  ghost predicate Moves(run: seq<World>, acts: seq<Act>) {
    |run| == |acts| + 1 && forall i: nat | i < |acts| :: MoveAt(run, acts, i)
  }

  ghost predicate CleanAt(run: seq<World>, acts: seq<Act>, i: nat)
    requires |run| == |acts| + 1 && i < |acts|
  {
    acts[i] == Flush ==> run[i].p.count == 0
  }

  /** Every flush before point k of the run found the pipe without an item. */
  ghost predicate CleanTo(run: seq<World>, acts: seq<Act>, k: nat)
    requires |run| == |acts| + 1 && k <= |acts|
  {
    forall i: nat | i < k :: CleanAt(run, acts, i)
  }

  ghost predicate Lost(w: World) {
    Poisoned(w, w.written, w.read) && |w.written| == |w.read| + 1
  }

  lemma CleanMove(a: World, b: World, act: Act)
    requires Inv(a) && Move(a, b, act) && (act == Flush ==> a.p.count == 0)
    ensures Inv(b)
  {
    match act
    case Access(t) => StepInv(a, b, t);
    case Flush => EmptyFlushInv(a);
  }

  lemma DirtyFlush(a: World)
    requires Inv(a) && a.p.lock == UNLOCKED && a.p.count != 0
    ensures Lost(Flushed(a))
  {
    FlushPoisons(a);
    InvHandsOver(a);
  }

  lemma CleanNext(run: seq<World>, acts: seq<Act>, k: nat)
    requires |run| == |acts| + 1 && k < |acts|
    ensures CleanTo(run, acts, k + 1) <==> CleanTo(run, acts, k) && CleanAt(run, acts, k)
  {
  }

  lemma NextMove(run: seq<World>, acts: seq<Act>, i: nat, a: World, b: World, before: bool)
    requires Moves(run, acts) && i < |acts| && a == run[i] && b == run[i + 1]
    requires if before then Inv(a) else Lost(a)
    ensures if before && CleanAt(run, acts, i) then Inv(b) else Lost(b)
  {
    assert MoveAt(run, acts, i);
    if !before {
      PoisonedMove(a, b, acts[i], a.written, a.read);
    } else if CleanAt(run, acts, i) {
      CleanMove(a, b, acts[i]);
    } else {
      DirtyFlush(a);
    }
  }

  /** The state at point k: the invariant while all flushes were clean, and a lost token ever after. */
  lemma {:induction false} MovesInv(run: seq<World>, acts: seq<Act>, k: nat) returns (w: World, clean: bool)
    requires Moves(run, acts) && Inv(run[0]) && k <= |acts|
    ensures w == run[k] && clean == CleanTo(run, acts, k)
    ensures if clean then Inv(w) else Lost(w)
  {
    w := run[k];
    if k == 0 {
      clean := true;
    } else {
      var a, before := MovesInv(run, acts, k - 1);
      CleanNext(run, acts, k - 1);
      clean := before && CleanAt(run, acts, k - 1);
      NextMove(run, acts, k - 1, a, w, before);
    }
  }

  /**
    In every interleaving of blocking readers, writers and flushes the handover
    holds at a point exactly when every flush so far found no item in the pipe.
  */
  lemma HandoverSurvivesIff(run: seq<World>, acts: seq<Act>, k: nat)
    requires Moves(run, acts) && Inv(run[0]) && k <= |acts|
    ensures HandsOver(run[k]) <==> CleanTo(run, acts, k)
  {
    var w, clean := MovesInv(run, acts, k);
    if clean {
      InvHandsOver(w);
    }
  }

  /** No token is left and nobody holds one. */
  ghost predicate Stalled(w: World) {
    Shape(w.p) && w.p.notFull.count == w.p.notEmpty.count == 0 && forall t | t in w.pc :: !InFlight(w.pc[t])
  }

  /** Writers stay at their wait, and a call that returns loses the last token unless it is past its insertion. */
  ghost predicate OnlyFails(a: World, b: World, t: nat)
    requires t in a.pc && t in b.pc
  {
    && (a.pc[t].WWait? ==> b.pc[t] == a.pc[t])
    && (b.pc[t].Returned? && !a.pc[t].WPost? ==> b.pc[t] == Returned(Busy) && Stalled(b))
  }

  lemma PoisonedStep(a: World, b: World, t: nat, written: seq<nat>, read: seq<nat>)
    requires Poisoned(a, written, read) && Step(a, b, t)
    ensures t in b.pc && OnlyFails(a, b, t)
  {
    if InFlight(a.pc[t]) {
      FadingStep(a.p, a.pc[t], t);
      assert forall s | s in b.pc && s != t :: s in a.pc && b.pc[s] == a.pc[s];
    } else {
      GroundedStep(a.p, a.pc[t], t);
    }
  }

  /**
    Once a flush has found an item no value is ever written or read again, and no
    writer ever gets past its wait; a call that still returns had inserted its
    value before that flush, or is a reader that returns E_BUSY and loses the last
    token.
  */
  lemma FlushedItemStopsPipe(run: seq<World>, acts: seq<Act>, k: nat)
    requires Moves(run, acts) && Inv(run[0]) && k < |acts| && !CleanTo(run, acts, k)
    ensures run[k + 1].written == run[k].written && run[k + 1].read == run[k].read && run[k].p.notFull.count == 0
    ensures acts[k].Access? ==>
              var t := acts[k].t;
              t in run[k].pc && t in run[k + 1].pc && OnlyFails(run[k], run[k + 1], t)
  {
    var a, _ := MovesInv(run, acts, k);
    assert MoveAt(run, acts, k);
    PoisonedMove(a, run[k + 1], acts[k], a.written, a.read);
    if acts[k].Access? {
      PoisonedStep(a, run[k + 1], acts[k].t, a.written, a.read);
    }
  }

  predicate Waits(pc: Pc) {
    pc.WWait? || pc.RWait?
  }

  lemma StalledMove(a: World, b: World, act: Act, t: nat)
    requires Stalled(a) && Move(a, b, act) && t in a.pc && Waits(a.pc[t])
    ensures Stalled(b) && t in b.pc && b.pc[t] == a.pc[t]
  {
    if act.Access? {
      var s := act.t;
      assert forall x | x in b.pc && x != s :: x in a.pc && b.pc[x] == a.pc[x];
    }
  }

  /** From then on every blocking call waits forever, even if the pipe is flushed again. */
  lemma {:induction false} StalledForever(run: seq<World>, acts: seq<Act>, k: nat, t: nat)
    requires Moves(run, acts) && Stalled(run[0]) && k < |run| && t in run[0].pc && Waits(run[0].pc[t])
    ensures Stalled(run[k]) && t in run[k].pc && run[k].pc[t] == run[0].pc[t]
  {
    if k > 0 {
      StalledForever(run, acts, k - 1, t);
      assert MoveAt(run, acts, k - 1);
      StalledMove(run[k - 1], run[k], acts[k - 1], t);
    }
  }

  /** On a fresh pipe: a blocking write, a flush and a blocking read that returns E_BUSY leave no token. */
  method FlushLosesToken(cells: array<nat>, v: nat) returns (c: Cell, e: Error, e': Error)
    requires cells.Length == PIPE_BUFFER_SIZE
    modifies cells
    ensures c.Valid() && e == Ok && e' == Busy
    ensures c.notFull.count == c.notEmpty.count == 0 && c.Contents() == []
  {
    c := new Cell(cells);
    c.notFull := Take(c.notFull);
    e := c.Write(v);
    c.Flush();
    c.notEmpty := Take(c.notEmpty);
    var lost: nat;
    e', lost := c.Read();
  }
}
