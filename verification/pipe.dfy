// kernel/src/files/special/pipe.c: a ring buffer between readers and writers that wait.
module Pipes {
  import opened Basics
  import opened PipeSpec

  // How executePipeOperation comes out: with an error and a number of bytes, or the operation is still in the pipe, or
  // lost. WouldBlock is EAGAIN and Interrupted is EINTR.
  datatype Answer = Returns(err: Error, ret: nat) | Waits

  datatype Error = Success | WouldBlock | Interrupted

  // What it returns once the operation is over. One that has moved no byte is taken for interrupted.
  function Completed(written: nat): Answer {
    Returns(if written != 0 then Success else Interrupted, written)
  }

  // Where the byte `i` places behind `pos` is.
  function Wrap(pos: nat, i: nat): (p: nat)
    requires pos < CAPACITY && i <= CAPACITY
    ensures p < CAPACITY
  {
    if pos + i < CAPACITY then pos + i else pos + i - CAPACITY
  }

  function Ring(b: seq<byte>, pos: nat, n: nat): (r: seq<byte>)
    requires |b| == CAPACITY && pos < CAPACITY && n <= CAPACITY
    ensures |r| == n && forall i :: 0 <= i < n ==> r[i] == b[Wrap(pos, i)]
  {
    seq(n, i requires 0 <= i < n => b[Wrap(pos, i)])
  }

  lemma RingRest(b: seq<byte>, pos: nat, n: nat, k: nat)
    requires |b| == CAPACITY && pos < CAPACITY && k <= n <= CAPACITY
    ensures Ring(b, pos, n)[k..] == Ring(b, Wrap(pos, k), n - k)
  {
  }

  lemma RingExtended(b: seq<byte>, c: seq<byte>, pos: nat, n: nat, data: seq<byte>)
    requires |b| == |c| == CAPACITY && pos < CAPACITY && n + |data| <= CAPACITY
    requires forall i :: 0 <= i < |data| ==> c[Wrap(pos, n + i)] == data[i]
    requires forall i :: 0 <= i < n ==> c[Wrap(pos, i)] == b[Wrap(pos, i)]
    ensures Ring(c, pos, n + |data|) == Ring(b, pos, n) + data
  {
    forall i | 0 <= i < n + |data| ensures Ring(c, pos, n + |data|)[i] == (Ring(b, pos, n) + data)[i] {
      if i >= n {
        assert c[Wrap(pos, n + (i - n))] == data[i - n];
      }
    }
  }

  class Pipe {
    const buffer: array<byte>
    var readPos: nat
    var count: nat
    var writeCount: nat
    var readers: seq<Read>
    var writers: seq<Write>
    var readTail: Tail
    var writeTail: Tail
    // The operations of the tasks that have been woken
    var readsDone: seq<Read>
    var writesDone: seq<Write>

    ghost predicate Valid()
      reads this
    {
      buffer.Length == CAPACITY && readPos < CAPACITY && count <= CAPACITY
    }

    ghost function Abs(): (s: State)
      requires Valid()
      reads this, buffer
      ensures |s.buf| == count
    {
      State(Ring(buffer[..], readPos, count), writeCount, readers, writers, readTail, writeTail,
            readsDone, writesDone)
    }

    // createPipeSharedData
    constructor (forWrite: bool)
      ensures Ready() && fresh(buffer) && Abs() == NewPipe(if forWrite then 1 else 0)
    {
      buffer := new byte[CAPACITY](_ => 0);
      readPos, count, readers, writers, readsDone, writesDone := 0, 0, [], [], [], [];
      readTail, writeTail := Nowhere, Nowhere;
      writeCount := if forWrite then 1 else 0;
    }

    // Copying out of the buffer, in two parts if it wraps around.
    method CopyOut(length: nat) returns (data: seq<byte>)
      requires Valid() && length <= count
      ensures data == Ring(buffer[..], readPos, count)[..length]
    {
      if CAPACITY < readPos + length {
        var first := CAPACITY - readPos;
        data := buffer[readPos..CAPACITY] + buffer[..length - first];
      } else {
        data := buffer[readPos..readPos + length];
      }
    }

    method ReadOnce()
      requires Valid() && CanRead(Abs())
      modifies this
      ensures Valid() && Abs() == ReadStep(old(Abs()))
    {
      var op := readers[0];
      var length := Min(count, op.size);
      RingRest(buffer[..], readPos, count, length);
      var data := CopyOut(length);
      readPos := Wrap(readPos, length);
      count := count - length;
      var next := Read(op.size - length, op.got + data);
      if next.size == 0 || writers == [] {
        readers := readers[1..];
        if readers == [] {
          readTail := Nowhere;
        } else {
          // The tail pointer stays, at the operation that has left the list
          readTail := Gone;
        }
        readsDone := readsDone + [next];
      } else {
        readers := [next] + readers[1..];
      }
    }

    // memcpy into the buffer
    method CopyIn(pos: nat, data: seq<byte>)
      requires buffer.Length == CAPACITY && pos + |data| <= CAPACITY
      modifies buffer
      ensures buffer[..] == Splice(old(buffer[..]), pos, data)
    {
      for k := 0 to |data|
        invariant forall i :: 0 <= i < CAPACITY ==>
                  buffer[i] == if pos <= i < pos + k then data[i - pos] else old(buffer[i])
      {
        buffer[pos + k] := data[k];
      }
    }

    // Appending to the bytes in the buffer, in two parts if it wraps around.
    method Append(data: seq<byte>)
      requires Valid() && count + |data| <= CAPACITY && (data != [] ==> count < CAPACITY)
      modifies buffer
      ensures Ring(buffer[..], readPos, count + |data|) == old(Ring(buffer[..], readPos, count)) + data
    {
      ghost var was := buffer[..];
      var writePos := Wrap(readPos, count);
      if CAPACITY < writePos + |data| {
        var first := CAPACITY - writePos;
        CopyIn(writePos, data[..first]);
        CopyIn(0, data[first..]);
      } else {
        CopyIn(writePos, data);
      }
      RingExtended(was, buffer[..], readPos, count, data);
    }

    method WriteOnce()
      requires Valid() && CanWrite(Abs())
      modifies this, buffer
      ensures Valid() && Abs() == WriteStep(old(Abs()))
    {
      var op := writers[0];
      var length := Min(CAPACITY - count, |op.rest|);
      Append(op.rest[..length]);
      count := count + length;
      var next := Write(op.rest[length..], op.sent + op.rest[..length]);
      if next.rest == [] {
        writers := writers[1..];
        if writers == [] {
          writeTail := Nowhere;
        } else {
          writeTail := Gone;
        }
        writesDone := writesDone + [next];
      } else {
        writers := [next] + writers[1..];
      }
    }

    // doOperationOnPipe
    method DoOperation()
      requires Valid() && Ends(Abs())
      modifies this, buffer
      ensures Valid() && Abs() == Settle(old(Abs()))
    {
      ghost var start := Abs();
      while true
        invariant Valid() && Ends(Abs()) && Settle(Abs()) == Settle(start)
        decreases Work(Abs())
      {
        ghost var s := Abs();
        if readers != [] && (count != 0 || writeCount == 0) {
          StepWorks(s);
          ReadOnce();
        } else if writers != [] && count < CAPACITY {
          StepWorks(s);
          WriteOnce();
        } else {
          break;
        }
      }
    }

    method CurrentReadCapacity() returns (capacity: nat)
      requires Valid()
      ensures capacity == ReadCapacity(Abs())
    {
      capacity := count;
      for i := 0 to |writers|
        invariant capacity + WriteSum(writers[i..]) == count + WriteSum(writers)
      {
        capacity := capacity + |writers[i].rest|;
        assert writers[i..][1..] == writers[i + 1..];
      }
    }

    method CurrentWriteCapacity() returns (capacity: nat)
      requires Valid()
      ensures capacity == WriteCapacity(Abs())
    {
      capacity := CAPACITY - count;
      for i := 0 to |readers|
        invariant capacity + ReadSum(readers[i..]) == CAPACITY - count + ReadSum(readers)
      {
        capacity := capacity + readers[i].size;
        assert readers[i..][1..] == readers[i + 1..];
      }
    }

    // What holds whenever the pipe is not in use.
    ghost predicate Ready()
      reads this, buffer
    {
      Valid() && Faithful(Abs()) && Quiescent(Abs()) && TailsOk(Abs())
    }

    // The end of executePipeOperation: the loop runs after an operation has joined its list.
    method Run(ghost s: State)
      requires Valid() && Ends(Abs()) && Faithful(Abs()) && TailsOk(Abs()) && Delivered(Abs()) == Delivered(s)
      modifies this, buffer
      ensures Ready() && Abs() == Settle(old(Abs())) && Delivered(s) <= Delivered(Abs())
    {
      SettleFaithful(Abs());
      SettleTails(Abs());
      DoOperation();
    }

    // executePipeOperation for writing. An operation that waits behind others may have been lost (AddWrite).
    method ExecuteWrite(data: seq<byte>, block: bool) returns (a: Answer)
      requires Ready()
      modifies this, buffer
      ensures Ready() && writeCount == old(writeCount)
      ensures a == if old(ReadCapacity(Abs())) == 0 && writeCount == 0 then Returns(Success, 0)
                   else if |data| > old(WriteCapacity(Abs())) then (if block then Waits else Returns(WouldBlock, 0))
                   else if data != [] then Returns(Success, |data|)
                   else if old(count) < CAPACITY then Returns(Interrupted, 0)
                   else Waits
      ensures if a == Returns(WouldBlock, 0) || (old(ReadCapacity(Abs())) == 0 && writeCount == 0)
              then Abs() == old(Abs())
              else && Ends(AddWrite(old(Abs()), data)) && Abs() == Settle(AddWrite(old(Abs()), data))
                   && (a == Waits <==> writers != [])
      ensures old(Delivered(Abs())) <= Delivered(Abs())
    {
      ghost var s := Abs();
      var readable := CurrentReadCapacity();
      var capacity := CurrentWriteCapacity();
      if readable == 0 && writeCount == 0 {
        a := Returns(Success, 0);
      } else if block || capacity >= |data| {
        WriteOutcome(s, data);
        QueueWrite(data);
        a := if writers == [] then Completed(|writesDone[|writesDone| - 1].sent|) else Waits;
      } else {
        a := Returns(WouldBlock, 0);
      }
    }

    // The operation joins the list, and the loop runs.
    method QueueWrite(data: seq<byte>)
      requires Ready() && Ends(AddWrite(Abs(), data))
      modifies this, buffer
      ensures Ready() && Abs() == Settle(AddWrite(old(Abs()), data)) && old(Delivered(Abs())) <= Delivered(Abs())
    {
      ghost var s := Abs();
      var op := Write(data, []);
      AddFaithful(s, 0, data);
      QueueIff(writers, writeTail, op);
      if writers == [] {
        writers, writeTail := [op], AtHead;
      } else {
        writers := Enqueue(writers, writeTail, op);
      }
      assert Abs() == AddWrite(s, data);
      Run(s);
    }

    method QueueRead(size: nat)
      requires Ready() && Ends(AddRead(Abs(), size))
      modifies this, buffer
      ensures Ready() && Abs() == Settle(AddRead(old(Abs()), size)) && old(Delivered(Abs())) <= Delivered(Abs())
    {
      ghost var s := Abs();
      var op := Read(size, []);
      AddFaithful(s, size, []);
      QueueIff(readers, readTail, op);
      if readers == [] {
        readers, readTail := [op], AtHead;
      } else {
        readers := Enqueue(readers, readTail, op);
      }
      assert Abs() == AddRead(s, size);
      Run(s);
    }

    // executePipeOperation for reading, for the reads that come back from the loop (ReadReturnsIff).
    method ExecuteRead(size: nat, block: bool) returns (a: Answer)
      requires Ready() && (writeCount > 0 || writers == [] || size <= count)
      modifies this, buffer
      ensures Ready() && writeCount == old(writeCount)
      ensures a == if old(ReadCapacity(Abs())) == 0 && writeCount == 0 then Returns(Success, 0)
                   else if old(ReadCapacity(Abs())) == 0 then (if block then Waits else Returns(WouldBlock, 0))
                   else if size == 0 then Returns(Interrupted, 0)
                   else if size <= old(ReadCapacity(Abs())) then Returns(Success, size)
                   else if old(writers) == [] || old(writers[|writers| - 1].rest) != []
                   then Returns(Success, old(ReadCapacity(Abs())))
                   else Waits
      ensures if a == Returns(WouldBlock, 0) || (old(ReadCapacity(Abs())) == 0 && writeCount == 0)
              then Abs() == old(Abs())
              else && Ends(AddRead(old(Abs()), size)) && Abs() == Settle(AddRead(old(Abs()), size))
                   && (a == Waits <==> readers != [])
      ensures old(ReadCapacity(Abs())) > 0 && a != Waits ==> GotNext(old(Abs()), size, Abs())
      ensures old(Delivered(Abs())) <= Delivered(Abs())
    {
      ghost var s := Abs();
      ReadReturnsIff(s, size);
      var capacity := CurrentReadCapacity();
      if capacity == 0 && writeCount == 0 {
        a := Returns(Success, 0);
      } else if block || capacity > 0 {
        ReadOutcome(s, size);
        QueueRead(size);
        a := if readers == [] then Completed(|readsDone[|readsDone| - 1].got|) else Waits;
      } else {
        a := Returns(WouldBlock, 0);
      }
    }

    // freePipeSharedData, for a descriptor for writing: closing the last one ends all reads.
    method CloseForWriting()
      requires Ready() && writeCount > 0
      modifies this, buffer
      ensures Ready() && writeCount == old(writeCount) - 1 && writers == old(writers)
      ensures readers == (if writeCount == 0 then [] else old(readers))
      ensures readsDone == old(readsDone) + if writeCount == 0 then old(readers) else []
      ensures Delivered(Abs()) == old(Delivered(Abs()))
    {
      ghost var s := Abs();
      QuiescentIff(s);
      writeCount := writeCount - 1;
      ghost var t := Abs();
      assert Faithful(t) && Delivered(t) == Delivered(s);
      if writeCount == 0 {
        ReadsEnd(t);
        Run(s);
        StreamEnds(s, Abs());
      }
    }
  }

  // A write of no bytes to a new pipe counts as interrupted.
  method EmptyWriteExample() returns (a: Answer)
    ensures a == Returns(Interrupted, 0)
  {
    var pipe := new Pipe(true);
    a := pipe.ExecuteWrite([], false);
  }

  // A write of five bytes to it succeeds, a read of a pipe that is empty would block, and one that nobody can write to
  // any more is at its end.
  method AnswersExample(data: seq<byte>) returns (a: Answer, b: Answer, c: Answer)
    requires |data| == 5
    ensures a == Returns(Success, 5) && b == Returns(WouldBlock, 0) && c == Returns(Success, 0)
  {
    var pipe := new Pipe(true);
    a := pipe.ExecuteWrite(data, false);
    pipe := new Pipe(true);
    b := pipe.ExecuteRead(1, false);
    pipe := new Pipe(false);
    c := pipe.ExecuteRead(1, true);
  }

  // And so does a read that waits until the last descriptor for writing is closed, not as the end of the file.
  method ClosedReadExample() returns (pipe: Pipe)
    ensures |pipe.readsDone| == 1 && Completed(|pipe.readsDone[0].got|) == Returns(Interrupted, 0)
  {
    pipe := WaitingRead(5);
    pipe.CloseForWriting();
  }

  method WaitingRead(size: nat) returns (pipe: Pipe)
    ensures fresh(pipe) && fresh(pipe.buffer) && pipe.Ready() && pipe.writeCount == 1
    ensures pipe.readers == [Read(size, [])] && pipe.readsDone == []
  {
    pipe := new Pipe(true);
    ReadWaits(size);
    var a := pipe.ExecuteRead(size, true);
    assert pipe.Abs() == Settle(AddRead(NewPipe(1), size));
  }

  lemma ReadWaits(size: nat)
    ensures var s := NewPipe(1); Ends(AddRead(s, size)) && Settle(AddRead(s, size)).readers == [Read(size, [])]
    ensures var s := NewPipe(1); Settle(AddRead(s, size)).readsDone == []
  {
  }

  // What becomes of a write, and of a read that comes back.
  lemma WriteOutcome(s: State, data: seq<byte>)
    requires Quiescent(s) && |s.buf| <= CAPACITY
    ensures Ends(AddWrite(s, data))
    ensures var e := Settle(AddWrite(s, data));
      && (e.writers == [] <==> |data| <= WriteCapacity(s) && (data != [] || |s.buf| < CAPACITY))
      && (e.writers == [] ==> e.writesDone == s.writesDone + [Write([], data)])
  {
    WriteCompletesIff(s, data);
    var t := AddWrite(s, data);
    if Settle(t).writers == [] {
      assert s.writers == [] && t.writers == [Write(data, [])];
      WriteOver(t);
      assert [] + data == data;
    }
  }

  lemma ReadOutcome(s: State, size: nat)
    requires Quiescent(s) && |s.buf| <= CAPACITY && Ends(AddRead(s, size)) && (ReadCapacity(s) > 0 || s.writeCount > 0)
    ensures var e := Settle(AddRead(s, size));
      && (ReadCapacity(s) > 0 ==>
            (e.readers == [] <==>
               size <= ReadCapacity(s) || s.writers == [] || s.writers[|s.writers| - 1].rest != []))
      && (ReadCapacity(s) == 0 ==> e.readers != [])
      && (e.readers == [] ==> GotNext(s, size, e))
  {
    if ReadCapacity(s) > 0 {
      ReadCompletesIff(s, size);
      ServedIsNext(s, size);
    } else {
      assert Quiescent(AddRead(s, size));
    }
  }

  // Nothing has been written in between, and nothing was in the buffer if somebody waited for it.
  lemma StreamEnds(s: State, e: State)
    requires Faithful(s) && Faithful(e) && Consumed(e) == Consumed(s) && Delivered(s) <= Delivered(e)
             && (s.buf == [] || e.buf == s.buf)
    ensures Delivered(e) == Delivered(s)
  {
    if s.buf == [] {
      assert Delivered(s) == Consumed(s) == Delivered(e) + e.buf;
    } else {
      assert |Delivered(e)| == |Delivered(s)|;
    }
  }

  // No descriptor for writing is open any more.
  lemma ReadsEnd(t: State)
    requires t.writeCount == 0 && InOrder(t) && (t.writers == [] || (|t.buf| == CAPACITY && t.readers == []))
    ensures Ends(t) && Settle(t).readers == [] && Settle(t).writers == t.writers
    ensures Consumed(Settle(t)) == Consumed(t) && (t.readers == [] ==> Settle(t) == t)
    ensures t.readers == [] || t.buf == [] ==> Settle(t).readsDone == t.readsDone + t.readers
  {
    if t.writers == [] {
      NoWrites(t);
    }
  }

  lemma {:induction false} NoWrites(s: State)
    requires s.writers == [] && InOrder(s) && Ends(s)
    ensures Settle(s).writers == [] && Consumed(Settle(s)) == Consumed(s) && (s.readers == [] ==> Settle(s) == s)
    ensures s.buf == [] && s.writeCount == 0 ==> Settle(s).readsDone == s.readsDone + s.readers
    decreases Work(s)
  {
    if !Quiescent(s) {
      StepWorks(s);
      ReadStepDelivers(s);
      NoWrites(Step(s));
      if s.buf == [] {
        var op := s.readers[0];
        assert Step(s).readsDone == s.readsDone + [op] by {
          assert op.got + [] == op.got;
        }
        assert s.readers == [op] + s.readers[1..];
      }
    }
  }
}
