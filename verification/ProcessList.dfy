/**
  The next pointers of the process list when process_create reuses a slot that is
  still linked: which processes stay on the list, and from where a walk gets back
  to its start (process.c:107-111, 175-185).
*/
module ProcessList {
  import opened Rings
  import opened ProcessModel

  // ------------------------------------------------------------------------- walks

  /** The slot reached from start after n next pointers; a value outside the pool is not followed. */
  function Follow(next: seq<nat>, start: nat, n: nat): nat
    decreases n
  {
    if n == 0 || start >= |next| then start else Follow(next, next[start], n - 1)
  }

  /** The selection pass from start gets back to its starting point. */
  ghost predicate PassEnds(next: seq<nat>, start: nat) {
    exists n: nat :: n > 0 && Follow(next, start, n) == start
  }

  /** The walk from start comes to the head of the list. */
  ghost predicate Reaches(next: seq<nat>, start: nat) {
    exists n: nat :: Follow(next, start, n) == 0
  }

  lemma {:induction false} FollowAdd(next: seq<nat>, start: nat, m: nat, n: nat)
    ensures Follow(next, start, m + n) == Follow(next, Follow(next, start, m), n)
    decreases m
  {
    if m > 0 && start < |next| {
      FollowAdd(next, next[start], m - 1, n);
    }
  }

  /** A walk that returns after p pointers returns after every multiple of p. */
  lemma {:induction false} FollowLaps(next: seq<nat>, start: nat, p: nat, laps: nat)
    requires Follow(next, start, p) == start
    ensures Follow(next, start, laps * p) == start
    decreases laps
  {
    if laps > 0 {
      FollowLaps(next, start, p, laps - 1);
      FollowAdd(next, start, (laps - 1) * p, p);
      assert (laps - 1) * p + p == laps * p;
    }
  }

  lemma {:induction false} FollowAlong(next: seq<nat>, ring: seq<nat>, i: nat, n: nat)
    requires Links(next, ring) && i + n < |ring|
    ensures Follow(next, ring[i], n) == ring[i + n]
    decreases n
  {
    if n > 0 {
      FollowAlong(next, ring, i + 1, n - 1);
    }
  }

  /** The last pointer of a cycle leads to its first member. */
  lemma FollowToHead(next: seq<nat>, ring: seq<nat>, i: nat)
    requires Links(next, ring) && i < |ring|
    ensures Follow(next, ring[i], |ring| - i) == ring[0]
  {
    FollowAlong(next, ring, i, |ring| - 1 - i);
    FollowAdd(next, ring[i], |ring| - 1 - i, 1);
    var last := ring[|ring| - 1];
    assert Follow(next, last, 1) == Follow(next, next[last], 0);
  }

  /** On a proper cycle every walk is back at its start after as many steps as the cycle has members. */
  lemma CycleReturns(next: seq<nat>, ring: seq<nat>, i: nat)
    requires Links(next, ring) && i < |ring|
    ensures Follow(next, ring[i], |ring|) == ring[i]
  {
    FollowToHead(next, ring, i);
    FollowAlong(next, ring, 0, i);
    FollowAdd(next, ring[i], |ring| - i, i);
  }

  lemma NextOnCycle(next: seq<nat>, ring: seq<nat>, x: nat)
    requires Links(next, ring) && x in ring
    ensures x < |next| && next[x] in ring
  {
    var i :| 0 <= i < |ring| && ring[i] == x;
    if i + 1 < |ring| {
      assert next[ring[i]] == ring[i + 1];
    }
  }

  /** A walk that is on the cycle stays on it. */
  lemma {:induction false} StaysOnCycle(next: seq<nat>, ring: seq<nat>, x: nat, n: nat)
    requires Links(next, ring) && x in ring
    ensures Follow(next, x, n) in ring
    decreases n
  {
    if n > 0 {
      NextOnCycle(next, ring, x);
      StaysOnCycle(next, ring, next[x], n - 1);
    }
  }

  lemma CycleReaches(next: seq<nat>, ring: seq<nat>, x: nat)
    requires Links(next, ring) && ring[0] == 0 && x in ring
    ensures Reaches(next, x)
  {
    var i :| 0 <= i < |ring| && ring[i] == x;
    FollowToHead(next, ring, i);
  }

  lemma AtLeast(n: nat, p: nat)
    requires p > 0
    ensures n <= n * p
  {
    assert n * p == n + n * (p - 1);
  }

  /**
    From a slot whose walk comes to the head, the selection pass gets back to its
    starting point exactly when that slot is on the list.
  */
  lemma PassEndsIff(next: seq<nat>, ring: seq<nat>, start: nat)
    requires IsList(ring) && Links(next, ring) && Reaches(next, start)
    ensures PassEnds(next, start) <==> start in ring
  {
    if start in ring {
      var i :| 0 <= i < |ring| && ring[i] == start;
      CycleReturns(next, ring, i);
    }
    if PassEnds(next, start) {
      var n: nat :| Follow(next, start, n) == 0;
      var p: nat :| p > 0 && Follow(next, start, p) == start;
      AtLeast(n, p);
      FollowLaps(next, start, p, n);
      FollowAdd(next, start, n, n * p - n);
      StaysOnCycle(next, ring, 0, n * p - n);
    }
  }

  // ---------------------------------------------------------------- process_create

  /** The next pointers once process_create has linked the slot it found (process.c:110-111). */
  function NextAfter(next: seq<nat>, ring: seq<nat>, slot: nat): (r: seq<nat>)
    requires ring != [] && ring[|ring| - 1] < |next|
    ensures |r| == |next|
  {
    if slot >= |next| then next else next[ring[|ring| - 1] := slot][slot := 0]
  }

  lemma NextAfterLinks(next: seq<nat>, ring: seq<nat>, slot: nat)
    requires Links(next, ring) && IsList(ring) && slot < |next|
    ensures Links(NextAfter(next, ring, slot), LinkLast(ring, slot))
  {
  }

  /** Whatever slot is linked, a walk that came to the head still does, perhaps sooner. */
  lemma {:induction false} LinkKeepsReaching(next: seq<nat>, last: nat, slot: nat, x: nat, n: nat)
    requires last < |next| && slot < |next| && Follow(next, x, n) == 0
    ensures Reaches(next[last := slot][slot := 0], x)
    decreases n
  {
    var r := next[last := slot][slot := 0];
    if n == 0 || x >= |next| {
      assert Follow(r, x, 0) == 0;
    } else if x == slot {
      assert Follow(r, x, 1) == Follow(r, 0, 0);
    } else if x == last {
      assert Follow(r, x, 2) == Follow(r, slot, 1) == Follow(r, 0, 0);
    } else {
      LinkKeepsReaching(next, last, slot, next[x], n - 1);
      var m: nat :| Follow(r, next[x], m) == 0;
      assert Follow(r, x, m + 1) == Follow(r, next[x], m);
    }
  }

  lemma NextAfterReaches(next: seq<nat>, ring: seq<nat>, slot: nat, x: nat)
    requires Links(next, ring) && Reaches(next, x)
    ensures Reaches(NextAfter(next, ring, slot), x)
  {
    var n: nat :| Follow(next, x, n) == 0;
    if slot < |next| {
      LinkKeepsReaching(next, ring[|ring| - 1], slot, x, n);
    }
  }

  /** If the walk from x comes to the head, so does the walk from its successor. */
  lemma SuccessorReaches(next: seq<nat>, ring: seq<nat>, x: nat)
    requires IsList(ring) && Links(next, ring) && x < |next| && Reaches(next, x)
    ensures next[x] < |next| && Reaches(next, next[x])
  {
    var n: nat :| Follow(next, x, n) == 0;
    if n > 0 {
      assert Follow(next, next[x], n - 1) == 0;
      assert ring[0] < |next|;
    } else {
      assert ring[0] in ring;
      NextOnCycle(next, ring, x);
      CycleReaches(next, ring, next[x]);
    }
  }

  /**
    Right after process_create reused the linked slot ring[k], process_schedule
    terminates exactly when the current process ring[j] is still in the list, or
    was the last one of the old list.
  */
  lemma ScheduleEndsIff(next: seq<nat>, ring: seq<nat>, k: nat, j: nat)
    requires IsList(ring) && Links(next, ring) && k < |ring| && j < |ring|
    ensures var r := NextAfter(next, ring, ring[k]);
            PassEnds(r, r[ring[j]]) <==> j <= k || j == |ring| - 1
  {
    var r := NextAfter(next, ring, ring[k]);
    var cut := ring[..k + 1];
    NextAfterLinks(next, ring, ring[k]);
    assert LinkLast(ring, ring[k]) == cut;
    CycleReaches(next, ring, ring[j]);
    NextAfterReaches(next, ring, ring[k], ring[j]);
    SuccessorReaches(r, cut, ring[j]);
    PassEndsIff(r, cut, r[ring[j]]);
    var to := if j == k then 0 else if j == |ring| - 1 then k else j + 1;
    assert r[ring[j]] == ring[to];
    if to <= k {
      assert ring[to] == cut[to];
    } else {
      assert ring[to] !in cut;
    }
  }

  /**
    A second reuse can bring the current process back within reach of the list:
    after slots 1 and 3 of a list of five were reused, process 2 is off the list
    and the selection pass that it starts still ends.
  */
  lemma SecondReuseRejoins(next: seq<nat>)
    requires Links(next, [0, 1, 2, 3, 4])
    ensures var once := NextAfter(next, [0, 1, 2, 3, 4], 1);
            var twice := NextAfter(once, [0, 1], 3);
            && Links(once, [0, 1]) && Links(twice, [0, 1, 3])
            && !PassEnds(once, once[2]) && PassEnds(twice, twice[2])
  {
    var five: seq<nat> := [0, 1, 2, 3, 4];
    assert next[five[0]] == five[1] && next[five[2]] == five[3] && next[five[3]] == five[4];
    ScheduleEndsIff(next, five, 1, 2);
    var twice := NextAfter(NextAfter(next, five, 1), [0, 1], 3);
    var three: seq<nat> := [0, 1, 3];
    CycleReturns(twice, three, 2);
  }
}
