/** Circular lists of slots, as sequences and as next pointers (task.c, process.c). */
module Rings {

  ghost predicate Distinct(xs: seq<nat>) {
    forall i, j | 0 <= i < j < |xs| :: xs[i] != xs[j]
  }

  // --------------------------------------------------------------------- rotations

  /** The order in which the selection pass visits the ring: current_task comes last. */
  function Walk(ring: seq<nat>): seq<nat>
    requires ring != []
  {
    ring[1..] + [ring[0]]
  }

  /** The ring seen from the task at position b of the walk. */
  function Rotate(ring: seq<nat>, b: int): seq<nat>
    requires -1 <= b < |ring|
  {
    if b < 0 then ring else ring[b + 1..] + ring[..b + 1]
  }

  lemma RotateHead(ring: seq<nat>, b: int)
    requires 0 <= b < |ring|
    ensures |Rotate(ring, b)| == |ring| && Rotate(ring, b)[0] == Walk(ring)[b]
    ensures Walk(Rotate(ring, b)) == Walk(ring)[b + 1..] + Walk(ring)[..b + 1]
  {
    var r := Rotate(ring, b);
    if b < |ring| - 1 {
      assert r[1..] == ring[b + 2..] + ring[..b + 1];
      assert Walk(ring)[b + 1..] == ring[b + 2..] + [ring[0]];
      assert Walk(ring)[..b + 1] == ring[1..b + 2];
      assert ring[..b + 1] == [ring[0]] + ring[1..b + 1];
      assert ring[1..b + 2] == ring[1..b + 1] + [ring[b + 1]];
    } else {
      assert r == ring;
    }
  }

  lemma RotateMembers(ring: seq<nat>, b: int)
    requires -1 <= b < |ring|
    ensures |Rotate(ring, b)| == |ring|
    ensures forall x :: x in Rotate(ring, b) <==> x in ring
    ensures Distinct(ring) ==> Distinct(Rotate(ring, b))
  {
  }

  lemma WalkMembers(ring: seq<nat>)
    requires ring != []
    ensures |Walk(ring)| == |ring|
    ensures forall x :: x in Walk(ring) <==> x in ring
    ensures Distinct(ring) ==> Distinct(Walk(ring))
  {
  }

  /** The slot at position b of a walk, -1 for none: what the pointer best of a selection pass holds. */
  function SlotAt(walk: seq<nat>, b: int): int
    requires b < |walk|
  {
    if b < 0 then -1 else walk[b]
  }

  // ----------------------------------------------------------------- next pointers

  /** next links the elements of ring into one cycle, in that order. */
  ghost predicate Links(next: seq<nat>, ring: seq<nat>) {
    && ring != []
    && (forall i | 0 <= i < |ring| :: ring[i] < |next|)
    && (forall i, j | 0 <= i < j == i + 1 < |ring| :: next[ring[i]] == ring[j])
    && next[ring[|ring| - 1]] == ring[0]
  }

  lemma RotateLinks(next: seq<nat>, ring: seq<nat>, b: int)
    requires Links(next, ring) && -1 <= b < |ring|
    ensures Links(next, Rotate(ring, b))
  {
  }

  lemma AtNext(next: seq<nat>, ring: seq<nat>, k: nat)
    requires Links(next, ring) && Distinct(ring) && k < |ring|
    ensures k + 1 < |ring| ==> next[ring[k]] == ring[k + 1] != ring[0]
    ensures k + 1 == |ring| ==> next[ring[k]] == ring[0]
    ensures ring[k] !in ring[..k]
  {
  }
}
