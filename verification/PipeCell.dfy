/** pipe.c in place, one call at a time; a null pipe pointer is not part of the model. */
module PipeCell {
  import opened Basics
  import opened Locks
  import opened RingBuffer
  import opened PipeProtocol

  class Cell {
    const buffer: array<nat>
    var readIdx: nat
    var writeIdx: nat
    var count: nat
    var active: bool
    var notEmpty: Sem
    var notFull: Sem

    ghost predicate Valid()
      reads this, buffer
    {
      && buffer.Length == PIPE_BUFFER_SIZE && readIdx < PIPE_BUFFER_SIZE && count <= PIPE_BUFFER_SIZE
      && writeIdx == Wrap(PIPE_BUFFER_SIZE, readIdx + count)
      && notEmpty.max == notFull.max == 1 && 0 <= notEmpty.count <= 1 && 0 <= notFull.count <= 1
    }

    ghost function Contents(): seq<nat>
      requires Valid()
      reads this, buffer
    {
      Window(buffer[..], readIdx, count)
    }

    /** pipe_create */
    constructor (cells: array<nat>)
      requires cells.Length == PIPE_BUFFER_SIZE
      ensures Valid() && buffer == cells && Contents() == [] && active
      ensures notEmpty == Sem(0, 1) && notFull == Sem(1, 1)
    {
      buffer := cells;
      readIdx, writeIdx, count, active := 0, 0, 0, true;
      notEmpty, notFull := Sem(0, 1), Sem(1, 1);
    }

    /** pipe_write: appends and signals not_empty, or refuses and changes nothing. */
    method Write(v: nat) returns (e: Error)
      requires Valid()
      modifies this, buffer
      ensures Valid() && active == old(active) && notFull == old(notFull)
      ensures e == if !active then BadDescriptor else if |old(Contents())| == PIPE_BUFFER_SIZE then Busy else Ok
      ensures Contents() == old(Contents()) + (if e == Ok then [v] else [])
      ensures notEmpty.count == if e == Ok then 1 else old(notEmpty.count)
    {
      if !active {
        return BadDescriptor;
      }
      if count >= PIPE_BUFFER_SIZE {
        return Busy;
      }
      WindowStore(buffer[..], readIdx, count, v);
      ghost var cells := buffer[..];
      buffer[writeIdx] := v;
      assert buffer[..] == cells[writeIdx := v];
      writeIdx := (writeIdx + 1) % PIPE_BUFFER_SIZE;
      count := count + 1;
      notEmpty := Post(notEmpty);
      e := Ok;
    }

    /** pipe_read: removes the oldest value and signals not_full, or refuses and changes nothing. */
    method Read() returns (e: Error, v: nat)
      requires Valid()
      modifies this
      ensures Valid() && active == old(active) && notEmpty == old(notEmpty)
      ensures e == if !active then Invalid else if old(Contents()) == [] then Busy else Ok
      ensures e == Ok ==> old(Contents()) == [v] + Contents()
      ensures e != Ok ==> Contents() == old(Contents())
      ensures notFull.count == if e == Ok then 1 else old(notFull.count)
    {
      v := 0;
      if !active {
        return Invalid, v;
      }
      if count == 0 {
        return Busy, v;
      }
      WindowDrop(buffer[..], readIdx, count);
      v := buffer[readIdx];
      readIdx := (readIdx + 1) % PIPE_BUFFER_SIZE;
      count := count - 1;
      notFull := Post(notFull);
      e := Ok;
    }

    /** pipe_flush empties the buffer and leaves both semaphores as they are. */
    method Flush()
      requires Valid()
      modifies this
      ensures Valid() && Contents() == [] && active == old(active)
      ensures readIdx == writeIdx == count == 0 && notEmpty == old(notEmpty) && notFull == old(notFull)
    {
      readIdx, writeIdx, count := 0, 0, 0;
    }
  }
}
