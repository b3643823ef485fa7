/** The circular buffer that queue.c and pipe.c share: a window of count cells starting at head. */
module RingBuffer {

  function Wrap(n: nat, x: nat): nat {
    if x < n then x else x - n
  }

  function Window(data: seq<nat>, head: nat, count: nat): (w: seq<nat>)
    requires head < |data| && count <= |data|
    ensures |w| == count
    ensures forall i | 0 <= i < count :: w[i] == data[Wrap(|data|, head + i)]
  {
    seq(count, i requires 0 <= i < count => data[Wrap(|data|, head + i)])
  }

  /** Writing the cell after the window leaves the window alone and extends it by the value. */
  lemma WindowStore(data: seq<nat>, head: nat, count: nat, v: nat)
    requires head < |data| && count < |data|
    ensures var data' := data[Wrap(|data|, head + count) := v];
            && Window(data', head, count) == Window(data, head, count)
            && Window(data', head, count + 1) == Window(data, head, count) + [v]
  {
  }

  lemma WindowExtend(data: seq<nat>, head: nat, count: nat)
    requires head < |data| && count < |data|
    ensures Window(data, head, count + 1) == Window(data, head, count) + [data[Wrap(|data|, head + count)]]
  {
  }

  /** Moving head past the first cell drops its value from the window. */
  lemma WindowDrop(data: seq<nat>, head: nat, count: nat)
    requires head < |data| && 0 < count <= |data|
    ensures Window(data, head, count) == [data[head]] + Window(data, Wrap(|data|, head + 1), count - 1)
  {
  }
}
