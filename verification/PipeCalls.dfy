/**
  What each call of pipe_write_blocking and pipe_read_blocking does in a run of
  PipeProtocol: which values its own steps append to the histories, and how it ends
  when it runs alone.
*/
module PipeCalls {
  import opened Basics
  import opened Locks
  import opened RingBuffer
  import opened PipeProtocol

  // ----------------------------------------------------------- a call within a run

  /** The values that the steps of t from point i to point k appended to written. */
  ghost function WrittenBy(run: seq<World>, who: seq<nat>, t: nat, i: nat, k: nat): seq<nat>
    requires i <= k < |run| == |who| + 1
    decreases k
  {
    if k == i then []
    else WrittenBy(run, who, t, i, k - 1) + if who[k - 1] == t then Added(run[k - 1].written, run[k].written) else []
  }

  /** The values that the steps of t from point i to point k appended to read. */
  ghost function ReadBy(run: seq<World>, who: seq<nat>, t: nat, i: nat, k: nat): seq<nat>
    requires i <= k < |run| == |who| + 1
    decreases k
  {
    if k == i then []
    else ReadBy(run, who, t, i, k - 1) + if who[k - 1] == t then Added(run[k - 1].read, run[k].read) else []
  }

  /** Task t starts a call at step i and is still in it at point k; other tasks may run in between. */
  ghost predicate InCall(run: seq<World>, who: seq<nat>, t: nat, i: nat, k: nat) {
    && i < k < |run| == |who| + 1 && who[i] == t && t in run[i].pc && run[i].pc[t] == Idle
    && forall m | i < m <= k :: t in run[m].pc && run[m].pc[t] != Idle
  }

  predicate BeforeInsert(p: Pc, v: nat) {
    || p == WCheck(v) || p == WWait(v) || p == WRecheck(v) || p == WLock(v) || p == WTest(v) || p == WSlot(v)
    || p == WIdx(v) || p == WCount(v)
    || (p.WStore? && p.v == v) || (p.WIdxStore? && p.v == v) || (p.WCountStore? && p.v == v)
  }

  predicate BeforeTake(p: Pc) {
    p.RCheck? || p.RWait? || BeforeRemove(p)
  }

  /** A write of v at p has appended v once if it is past its insertion or returned E_OK, and else nothing. */
  predicate WriteLog(p: Pc, v: nat, written: seq<nat>, read: seq<nat>) {
    && read == []
    && if p.WUnlock? || p.WPost? || p == Returned(Ok) then written == [v]
       else (BeforeInsert(p, v) || p == WFull || p.Returned?) && written == []
  }

  predicate ReadLog(p: Pc, written: seq<nat>, read: seq<nat>) {
    && written == []
    && if p.RUnlock? || p.RPost? then read == [p.v]
       else if p == Returned(Ok) then |read| == 1
       else (BeforeTake(p) || p == REmpty || p.Returned?) && read == []
  }

  lemma OwnAppends(a: World, b: World, t: nat)
    requires Step(a, b, t) && a.pc[t] != Idle
    ensures t in b.pc
    ensures Added(a.written, b.written) == if a.pc[t].WCountStore? then [a.pc[t].v] else []
    ensures Added(a.read, b.read) == if a.pc[t].RCountStore? then [a.pc[t].v] else []
  {
  }

  lemma WriterGoesOn(p: Pipe, pc: Pc, me: nat, v: nat)
    requires |p.buffer| == PIPE_BUFFER_SIZE && BeforeInsert(pc, v)
    ensures var pc' := Exec(p, pc, me).1;
            if pc.WCountStore? then pc' == WUnlock
            else BeforeInsert(pc', v) || pc' == WFull || pc' == Returned(BadDescriptor)
  {
  }

  lemma ReaderGoesOn(p: Pipe, pc: Pc, me: nat)
    requires |p.buffer| == PIPE_BUFFER_SIZE && BeforeTake(pc)
    ensures var pc' := Exec(p, pc, me).1;
            if pc.RCountStore? then pc' == RUnlock(pc.v)
            else BeforeTake(pc') || pc' == REmpty || pc' == Returned(Invalid)
  {
  }

  lemma CallEnds(p: Pipe, pc: Pc, me: nat)
    requires |p.buffer| == PIPE_BUFFER_SIZE
    ensures pc == WUnlock ==> Exec(p, pc, me).1 == WPost
    ensures pc == WPost ==> Exec(p, pc, me).1 == Returned(Ok)
    ensures pc == WFull || pc == REmpty ==> Exec(p, pc, me).1 == Returned(Busy)
    ensures pc.RUnlock? ==> Exec(p, pc, me).1 == RPost(pc.v)
    ensures pc.RPost? ==> Exec(p, pc, me).1 == Returned(Ok)
    ensures pc.Returned? ==> Exec(p, pc, me).1 == Idle
  {
  }

  lemma OtherStep(a: World, b: World, s: nat, t: nat)
    requires Step(a, b, s) && s != t && t in a.pc
    ensures t in b.pc && b.pc[t] == a.pc[t]
  {
  }

  lemma StartStep(a: World, b: World, t: nat)
    requires Step(a, b, t) && a.pc[t] == Idle
    ensures Added(a.written, b.written) == [] && Added(a.read, b.read) == []
  {
  }

  lemma OwnStep(a: World, b: World, t: nat)
    requires Step(a, b, t) && a.pc[t] != Idle
    ensures |a.p.buffer| == PIPE_BUFFER_SIZE && t in b.pc && b.pc[t] == Exec(a.p, a.pc[t], t).1
  {
  }

  /** One step of any task s while t is in a call. */
  lemma WriteLogStep(a: World, b: World, s: nat, t: nat, v: nat, written: seq<nat>, read: seq<nat>)
    requires Step(a, b, s) && t in a.pc && a.pc[t] != Idle && WriteLog(a.pc[t], v, written, read)
    requires t in b.pc && b.pc[t] != Idle
    ensures s == t ==> WriteLog(b.pc[t], v, written + Added(a.written, b.written), read + Added(a.read, b.read))
    ensures s != t ==> WriteLog(b.pc[t], v, written, read)
  {
    if s == t {
      OwnStep(a, b, t);
      OwnAppends(a, b, t);
      CallEnds(a.p, a.pc[t], t);
      if BeforeInsert(a.pc[t], v) {
        WriterGoesOn(a.p, a.pc[t], t, v);
      }
    } else {
      OtherStep(a, b, s, t);
    }
  }

  lemma ReadLogStep(a: World, b: World, s: nat, t: nat, written: seq<nat>, read: seq<nat>)
    requires Step(a, b, s) && t in a.pc && a.pc[t] != Idle && ReadLog(a.pc[t], written, read)
    requires t in b.pc && b.pc[t] != Idle
    ensures s == t ==> ReadLog(b.pc[t], written + Added(a.written, b.written), read + Added(a.read, b.read))
    ensures s != t ==> ReadLog(b.pc[t], written, read)
  {
    if s == t {
      OwnStep(a, b, t);
      OwnAppends(a, b, t);
      CallEnds(a.p, a.pc[t], t);
      if BeforeTake(a.pc[t]) {
        ReaderGoesOn(a.p, a.pc[t], t);
      }
    } else {
      OtherStep(a, b, s, t);
    }
  }

  lemma CallStarts(run: seq<World>, who: seq<nat>, t: nat, i: nat)
    requires Run(run, who) && InCall(run, who, t, i, i + 1)
    ensures WrittenBy(run, who, t, i, i + 1) == [] && ReadBy(run, who, t, i, i + 1) == []
  {
    assert StepAt(run, who, i);
    StartStep(run[i], run[i + 1], t);
    assert WrittenBy(run, who, t, i, i) == [] && ReadBy(run, who, t, i, i) == [];
  }

  lemma {:induction false} WriteCall(run: seq<World>, who: seq<nat>, t: nat, v: nat, i: nat, k: nat)
    requires Run(run, who) && InCall(run, who, t, i, k) && run[i + 1].pc[t] == WCheck(v)
    ensures WriteLog(run[k].pc[t], v, WrittenBy(run, who, t, i, k), ReadBy(run, who, t, i, k))
    decreases k
  {
    if k == i + 1 {
      CallStarts(run, who, t, i);
    } else {
      var a, b := run[k - 1], run[k];
      WriteCall(run, who, t, v, i, k - 1);
      var written, read := WrittenBy(run, who, t, i, k - 1), ReadBy(run, who, t, i, k - 1);
      assert written + [] == written && read + [] == read;
      assert StepAt(run, who, k - 1);
      WriteLogStep(a, b, who[k - 1], t, v, written, read);
    }
  }

  lemma {:induction false} ReadCall(run: seq<World>, who: seq<nat>, t: nat, i: nat, k: nat)
    requires Run(run, who) && InCall(run, who, t, i, k) && run[i + 1].pc[t] == RCheck
    ensures ReadLog(run[k].pc[t], WrittenBy(run, who, t, i, k), ReadBy(run, who, t, i, k))
    decreases k
  {
    if k == i + 1 {
      CallStarts(run, who, t, i);
    } else {
      var a, b := run[k - 1], run[k];
      ReadCall(run, who, t, i, k - 1);
      var written, read := WrittenBy(run, who, t, i, k - 1), ReadBy(run, who, t, i, k - 1);
      assert written + [] == written && read + [] == read;
      assert StepAt(run, who, k - 1);
      ReadLogStep(a, b, who[k - 1], t, written, read);
    }
  }

  /**
    In every interleaving, every pipe_write_blocking(v) that returns has written
    exactly v, exactly once, and returned E_OK.
  */
  lemma WriteWritesItsValue(run: seq<World>, who: seq<nat>, t: nat, v: nat, i: nat, k: nat)
    requires Run(run, who) && InCall(run, who, t, i, k) && run[i + 1].pc[t] == WCheck(v)
    ensures run[k].pc[t].Returned? ==> run[k].pc[t] == Returned(Ok) && WrittenBy(run, who, t, i, k) == [v]
    ensures ReadBy(run, who, t, i, k) == []
  {
    WriteCall(run, who, t, v, i, k);
    NeverBusy(run, who, k, t);
  }

  /** Every pipe_read_blocking that returns has read one value, which is the one that it stored for its caller. */
  lemma ReadReadsItsValue(run: seq<World>, who: seq<nat>, t: nat, i: nat, k: nat)
    requires Run(run, who) && InCall(run, who, t, i, k) && run[i + 1].pc[t] == RCheck
    ensures run[k].pc[t].Returned? ==> run[k].pc[t] == Returned(Ok) && |ReadBy(run, who, t, i, k)| == 1
    ensures run[k].pc[t].RPost? ==> ReadBy(run, who, t, i, k) == [run[k].pc[t].v]
    ensures WrittenBy(run, who, t, i, k) == []
  {
    ReadCall(run, who, t, i, k);
    NeverBusy(run, who, k, t);
  }

  // ---------------------------------------------------------------------- progress

  /** How many accesses a call that holds the token still makes. */
  function Rank(pc: Pc): nat {
    match pc
    case Idle => 0
    case Returned(_) => 0
    case WCheck(_) => 0
    case WWait(_) => 0
    case RCheck => 0
    case RWait => 0
    case WRecheck(_) => 11
    case WLock(_) => 10
    case WTest(_) => 9
    case WSlot(_) => 8
    case WStore(_, _) => 7
    case WIdx(_) => 6
    case WIdxStore(_, _) => 5
    case WCount(_) => 4
    case WCountStore(_, _) => 3
    case WUnlock => 2
    case WPost => 1
    case WFull => 1
    case RRecheck => 11
    case RLock => 10
    case RTest => 9
    case RSlot => 8
    case RLoad(_) => 7
    case RIdx(_) => 6
    case RIdxStore(_, _) => 5
    case RCount(_) => 4
    case RCountStore(_, _) => 3
    case RUnlock(_) => 2
    case RPost(_) => 1
    case REmpty => 1
  }

  /** Nothing keeps the call at pc from its next access. */
  predicate Unhindered(p: Pipe, pc: Pc) {
    && |p.buffer| == PIPE_BUFFER_SIZE && p.active && InFlight(pc)
    && (pc.WLock? || pc.RLock? ==> !p.lock.locked)
    && (pc.WTest? ==> p.count < PIPE_BUFFER_SIZE) && (pc.RTest? ==> p.count != 0)
  }

  lemma UnhinderedRank(p: Pipe, pc: Pc, me: nat)
    requires Unhindered(p, pc)
    ensures Rank(Exec(p, pc, me).1) == Rank(pc) - 1
  {
  }

  lemma TokenHolder(w: World, t: nat)
    requires Inv(w) && t in w.pc && InFlight(w.pc[t])
    ensures Unhindered(w.p, w.pc[t])
  {
    assert Flight(w.p, w.pc[t], t, w.written, w.read);
  }

  /** A call that holds the token never waits: each of its own steps takes it one access nearer to its return. */
  lemma TokenHolderNeverWaits(run: seq<World>, who: seq<nat>, k: nat)
    requires Run(run, who) && k < |who| && who[k] in run[k].pc && InFlight(run[k].pc[who[k]])
    ensures who[k] in run[k + 1].pc && Rank(run[k + 1].pc[who[k]]) == Rank(run[k].pc[who[k]]) - 1
  {
    InitInv(run[0]);
    var w := StepsInv(run, who, k);
    var t := who[k];
    TokenHolder(w, t);
    UnhinderedRank(w.p, w.pc[t], t);
    assert StepAt(run, who, k);
    OwnStep(w, run[k + 1], t);
  }
}
