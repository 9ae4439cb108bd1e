// The transfer engine of a pipe (kernel/src/files/special/pipe.c) on values.
module PipeSpec {
  import opened Basics

  const CAPACITY: nat := 512

  // An operation that waits: how much is still to be read and what has been, or what is still to be written and what
  // has been.
  datatype Read = Read(size: nat, got: seq<byte>)
  datatype Write = Write(rest: seq<byte>, sent: seq<byte>)

  // Where the pointer to the tail of a list of operations points: nowhere, to the operation at the head of the list,
  // or to one that has left the list.
  datatype Tail = Nowhere | AtHead | Gone

  // The bytes in the buffer, the open descriptors for writing, the operations that wait with the tails of their lists,
  // and those that are over.
  datatype State = State(buf: seq<byte>, writeCount: nat, readers: seq<Read>, writers: seq<Write>,
                         readTail: Tail, writeTail: Tail, readsDone: seq<Read>, writesDone: seq<Write>)

  function NewPipe(writeCount: nat): State {
    State([], writeCount, [], [], Nowhere, Nowhere, [], [])
  }

  // ---- The two kinds of steps

  predicate CanRead(s: State) {
    s.readers != [] && (s.buf != [] || s.writeCount == 0)
  }

  predicate CanWrite(s: State) {
    s.writers != [] && |s.buf| < CAPACITY
  }

  predicate Quiescent(s: State) {
    !CanRead(s) && !CanWrite(s)
  }

  // The tail after the head has left, if the others are `rest`.
  function TailBehind<T>(rest: seq<T>): Tail {
    if |rest| == 0 then Nowhere else Gone
  }

  function ReadStep(s: State): State
    requires CanRead(s)
  {
    var op := s.readers[0];
    var n := Min(|s.buf|, op.size);
    var next := Read(op.size - n, op.got + s.buf[..n]);
    var t := s.(buf := s.buf[n..]);
    if next.size == 0 || s.writers == [] then
      t.(readers := s.readers[1..], readTail := TailBehind(s.readers[1..]), readsDone := s.readsDone + [next])
    else t.(readers := [next] + s.readers[1..])
  }

  function WriteStep(s: State): State
    requires CanWrite(s)
  {
    var op := s.writers[0];
    var n := Min(CAPACITY - |s.buf|, |op.rest|);
    var next := Write(op.rest[n..], op.sent + op.rest[..n]);
    var t := s.(buf := s.buf + op.rest[..n]);
    if next.rest == [] then
      t.(writers := s.writers[1..], writeTail := TailBehind(s.writers[1..]), writesDone := s.writesDone + [next])
    else t.(writers := [next] + s.writers[1..])
  }

  // Reading comes first.
  function Step(s: State): State
    requires !Quiescent(s)
  {
    if CanRead(s) then ReadStep(s) else WriteStep(s)
  }

  // ---- Termination

  function ReadSum(readers: seq<Read>): nat {
    if readers == [] then 0 else readers[0].size + ReadSum(readers[1..])
  }

  function WriteSum(writers: seq<Write>): nat {
    if writers == [] then 0 else |writers[0].rest| + WriteSum(writers[1..])
  }

  function Work(s: State): nat {
    ReadSum(s.readers) + WriteSum(s.writers) + |s.readers| + |s.writers|
  }

  // The loop ends. (It does not if a writer waits although no descriptor for writing is open, and a reader wants more
  // than there is.)
  predicate Ends(s: State) {
    s.writeCount > 0 || s.writers == [] || ReadSum(s.readers) <= |s.buf|
  }

  lemma StepWorks(s: State)
    requires !Quiescent(s)
    ensures Ends(s) <==> Ends(Step(s))
    ensures Ends(s) ==> Work(Step(s)) < Work(s)
  {
    var t := Step(s);
    if CanRead(s) {
      assert t.readers == s.readers[1..] || t.readers[1..] == s.readers[1..];
    } else {
      assert t.writers == s.writers[1..] || t.writers[1..] == s.writers[1..];
    }
  }

  // The loop of doOperationOnPipe.
  function Settle(s: State): (e: State)
    requires Ends(s)
    ensures Quiescent(e) && Ends(e) && e.writeCount == s.writeCount
    decreases Work(s)
  {
    if Quiescent(s) then s
    else
      StepWorks(s);
      Settle(Step(s))
  }

  // `n` rounds of the loop.
  function Rounds(s: State, n: nat): State
    decreases n
  {
    if n == 0 || Quiescent(s) then s else Rounds(Step(s), n - 1)
  }

  lemma {:induction false} Settles(s: State) returns (n: nat)
    requires Ends(s)
    ensures Rounds(s, n) == Settle(s)
    decreases Work(s)
  {
    n := 0;
    if !Quiescent(s) {
      StepWorks(s);
      var m := Settles(Step(s));
      n := m + 1;
    }
  }

  lemma {:induction false} NeverSettles(s: State, n: nat)
    requires !Ends(s)
    ensures !Quiescent(Rounds(s, n))
    decreases n
  {
    if n > 0 && !Quiescent(s) {
      StepWorks(s);
      NeverSettles(Step(s), n - 1);
    }
  }

  // The loop ends exactly if `Ends` holds at its beginning.
  lemma TerminationIff(s: State)
    ensures Ends(s) <==> exists n: nat :: Quiescent(Rounds(s, n))
  {
    if Ends(s) {
      var n := Settles(s);
    } else {
      forall n: nat ensures !Quiescent(Rounds(s, n)) {
        NeverSettles(s, n);
      }
    }
  }

  // ---- The stream of bytes

  function AllGot(readers: seq<Read>): seq<byte> {
    if readers == [] then [] else AllGot(readers[..|readers| - 1]) + readers[|readers| - 1].got
  }

  function AllSent(writers: seq<Write>): seq<byte> {
    if writers == [] then [] else AllSent(writers[..|writers| - 1]) + writers[|writers| - 1].sent
  }

  // Everything that readers have got, and everything that writers have sent, in order.
  function Delivered(s: State): seq<byte> {
    AllGot(s.readsDone) + if s.readers == [] then [] else s.readers[0].got
  }

  function Consumed(s: State): seq<byte> {
    AllSent(s.writesDone) + if s.writers == [] then [] else s.writers[0].sent
  }

  // Only the operation at the head of a list has begun.
  ghost predicate InOrder(s: State) {
    && (forall i :: 1 <= i < |s.readers| ==> s.readers[i].got == [])
    && (forall i :: 1 <= i < |s.writers| ==> s.writers[i].sent == [])
  }

  // What has been read, followed by what is in the buffer, is what has been written.
  ghost predicate Faithful(s: State) {
    InOrder(s) && |s.buf| <= CAPACITY && Delivered(s) + s.buf == Consumed(s)
  }

  lemma AllGotSnoc(readers: seq<Read>, op: Read)
    ensures AllGot(readers + [op]) == AllGot(readers) + op.got
  {
    assert (readers + [op])[..|readers|] == readers;
  }

  lemma AllSentSnoc(writers: seq<Write>, op: Write)
    ensures AllSent(writers + [op]) == AllSent(writers) + op.sent
  {
    assert (writers + [op])[..|writers|] == writers;
  }

  lemma ReadStepDelivers(s: State)
    requires CanRead(s) && InOrder(s)
    ensures InOrder(ReadStep(s)) && Consumed(ReadStep(s)) == Consumed(s)
    ensures Delivered(ReadStep(s)) == Delivered(s) + s.buf[..Min(|s.buf|, s.readers[0].size)]
  {
    var op := s.readers[0];
    var n := Min(|s.buf|, op.size);
    AllGotSnoc(s.readsDone, Read(op.size - n, op.got + s.buf[..n]));
    Associative(AllGot(s.readsDone), op.got, s.buf[..n]);
    ReadStepInOrder(s);
  }

  lemma ReadStepInOrder(s: State)
    requires CanRead(s) && InOrder(s)
    ensures InOrder(ReadStep(s)) && (ReadStep(s).readers != [] && |ReadStep(s).readers| < |s.readers| ==>
            ReadStep(s).readers[0].got == [])
  {
  }

  lemma WriteStepInOrder(s: State)
    requires CanWrite(s) && InOrder(s)
    ensures InOrder(WriteStep(s)) && (WriteStep(s).writers != [] && |WriteStep(s).writers| < |s.writers| ==>
            WriteStep(s).writers[0].sent == [])
  {
  }

  lemma WriteStepConsumes(s: State)
    requires CanWrite(s) && InOrder(s)
    ensures InOrder(WriteStep(s)) && Delivered(WriteStep(s)) == Delivered(s)
    ensures Consumed(WriteStep(s)) == Consumed(s) + s.writers[0].rest[..Min(CAPACITY - |s.buf|, |s.writers[0].rest|)]
  {
    var op := s.writers[0];
    var n := Min(CAPACITY - |s.buf|, |op.rest|);
    AllSentSnoc(s.writesDone, Write(op.rest[n..], op.sent + op.rest[..n]));
    Associative(AllSent(s.writesDone), op.sent, op.rest[..n]);
    WriteStepInOrder(s);
  }

  lemma StepFaithful(s: State)
    requires !Quiescent(s) && Faithful(s)
    ensures Faithful(Step(s)) && Delivered(s) <= Delivered(Step(s)) && Consumed(s) <= Consumed(Step(s))
  {
    if CanRead(s) {
      ReadStepFaithful(s);
    } else {
      WriteStepFaithful(s);
    }
  }

  lemma ReadStepFaithful(s: State)
    requires CanRead(s) && Faithful(s)
    ensures Faithful(ReadStep(s)) && Delivered(s) <= Delivered(ReadStep(s)) && Consumed(s) == Consumed(ReadStep(s))
  {
    ReadStepDelivers(s);
    Regroup(Delivered(s), s.buf, Min(|s.buf|, s.readers[0].size));
  }

  lemma WriteStepFaithful(s: State)
    requires CanWrite(s) && Faithful(s)
    ensures Faithful(WriteStep(s)) && Delivered(s) == Delivered(WriteStep(s)) && Consumed(s) <= Consumed(WriteStep(s))
  {
    WriteStepConsumes(s);
    Associative(Delivered(s), s.buf, s.writers[0].rest[..Min(CAPACITY - |s.buf|, |s.writers[0].rest|)]);
  }

  lemma Regroup(a: seq<byte>, b: seq<byte>, n: nat)
    requires n <= |b|
    ensures a + b[..n] + b[n..] == a + b
  {
  }

  // The loop keeps the stream, and what has been delivered or taken only ever grows at its end.
  lemma {:induction false} SettleFaithful(s: State)
    requires Ends(s) && Faithful(s)
    ensures Faithful(Settle(s)) && Delivered(s) <= Delivered(Settle(s)) && Consumed(s) <= Consumed(Settle(s))
    decreases Work(s)
  {
    if !Quiescent(s) {
      StepWorks(s);
      StepFaithful(s);
      SettleFaithful(Step(s));
    }
  }

  // ---- Which operations are over at once

  // In a quiescent state only readers or only writers wait, for an empty or a full buffer.
  lemma QuiescentIff(s: State)
    requires |s.buf| <= CAPACITY
    ensures Quiescent(s) <==>
              (s.readers != [] ==> s.buf == [] && s.writeCount > 0 && s.writers == [])
                  && (s.writers != [] ==> |s.buf| == CAPACITY && s.readers == [])
  {
  }

  // currentReadCapacity and currentWriteCapacity
  function ReadCapacity(s: State): nat {
    |s.buf| + WriteSum(s.writers)
  }

  function WriteCapacity(s: State): nat
    requires |s.buf| <= CAPACITY
  {
    CAPACITY - |s.buf| + ReadSum(s.readers)
  }

  // ---- Queueing

  // An operation joins a list: the tail is never advanced, so what hangs at the head is replaced, and what would hang
  // at an operation that has left is lost.
  function Enqueue<T>(ops: seq<T>, tail: Tail, op: T): (r: seq<T>) {
    if |ops| == 0 then [op] else if tail.AtHead? then [ops[0], op] else ops
  }

  function TailOfMore<T>(ops: seq<T>, tail: Tail): Tail {
    if |ops| == 0 then AtHead else tail
  }

  function AddWrite(s: State, data: seq<byte>): State {
    s.(writers := Enqueue(s.writers, s.writeTail, Write(data, [])), writeTail := TailOfMore(s.writers, s.writeTail))
  }

  function AddRead(s: State, size: nat): State {
    s.(readers := Enqueue(s.readers, s.readTail, Read(size, [])), readTail := TailOfMore(s.readers, s.readTail))
  }

  predicate TailOk<T>(ops: seq<T>, tail: Tail) {
    |ops| == 0 <==> tail.Nowhere?
  }

  ghost predicate TailsOk(s: State) {
    TailOk(s.readers, s.readTail) && TailOk(s.writers, s.writeTail)
  }

  // The list is a queue exactly up to its second operation.
  lemma QueueIff<T>(ops: seq<T>, tail: Tail, op: T)
    requires TailOk(ops, tail)
    ensures Enqueue(ops, tail, op) == ops + [op] <==> |ops| == 0 || (|ops| == 1 && tail.AtHead?)
    ensures |Enqueue(ops, tail, op)| > |ops| <==> |ops| == 0 || (|ops| == 1 && tail.AtHead?)
    ensures TailOk(Enqueue(ops, tail, op), TailOfMore(ops, tail))
  {
    assert |ops| == 1 ==> ops == [ops[0]];
  }

  lemma {:induction false} SettleTails(s: State)
    requires Ends(s) && TailsOk(s)
    ensures TailsOk(Settle(s))
    decreases Work(s)
  {
    if !Quiescent(s) {
      StepWorks(s);
      SettleTails(Step(s));
    }
  }

  // Operations in a list that have not begun change nothing of the stream.
  lemma AddFaithful(s: State, size: nat, data: seq<byte>)
    requires Faithful(s)
    ensures Faithful(AddRead(s, size)) && Delivered(AddRead(s, size)) == Delivered(s)
    ensures Faithful(AddWrite(s, data)) && Consumed(AddWrite(s, data)) == Consumed(s)
    ensures Delivered(AddWrite(s, data)) == Delivered(s) && Consumed(AddRead(s, size)) == Consumed(s)
  {
  }

  ghost predicate Pending(writers: seq<Write>) {
    forall i :: 0 <= i < |writers| ==> writers[i].rest != []
  }

  // As long as writers wait, what they have left and the capacity for it shrink together.
  lemma {:induction false} WriteBalance(s: State)
    requires Ends(s) && |s.buf| <= CAPACITY
    ensures Settle(s).writers == [] && s.writers != [] ==> WriteSum(s.writers) <= WriteCapacity(s)
    ensures Settle(s).writers != [] ==>
              s.writers != [] && WriteSum(s.writers) == WriteCapacity(s) + WriteSum(Settle(s).writers)
    ensures Pending(s.writers) ==> Pending(Settle(s).writers)
    decreases Work(s)
  {
    if !Quiescent(s) {
      StepWorks(s);
      StepBalance(s);
      WriteBalance(Step(s));
    }
  }

  // One step: what is left to write and the room for it shrink alike, as long as somebody writes.
  lemma StepBalance(s: State)
    requires !Quiescent(s) && |s.buf| <= CAPACITY
    ensures var t := Step(s);
      && |t.buf| <= CAPACITY && (Pending(s.writers) ==> Pending(t.writers)) && (s.writers == [] ==> t.writers == [])
      && (s.writers != [] ==> WriteSum(s.writers) - WriteSum(t.writers) == WriteCapacity(s) - WriteCapacity(t))
  {
    var t := Step(s);
    if CanRead(s) {
      assert t.readers == s.readers[1..] || t.readers[1..] == s.readers[1..];
    } else {
      assert t.writers == s.writers[1..] || t.writers[1..] == s.writers[1..];
    }
  }

  // A write to a quiescent pipe is over at once exactly if the capacity test admits it, unless it is empty and the
  // pipe is full.
  lemma WriteCompletesIff(s: State, data: seq<byte>)
    requires Quiescent(s) && |s.buf| <= CAPACITY
    ensures Ends(AddWrite(s, data))
    ensures Settle(AddWrite(s, data)).writers == [] <==>
              |data| <= WriteCapacity(s) && (data != [] || |s.buf| < CAPACITY)
  {
    var t := AddWrite(s, data);
    if s.writers == [] {
      assert t.writers[1..] == [];
      WriteBalance(t);
      var e := Settle(t);
      if e.writers != [] && data != [] {
        assert Pending(t.writers);
        assert WriteSum(e.writers) > 0;
      }
      if data == [] && |s.buf| < CAPACITY {
        EmptyWrite(s);
      }
    } else {
      assert Quiescent(t);
    }
  }

  // A single writer that is over has sent everything.
  lemma {:induction false} WriteOver(s: State)
    requires Ends(s) && |s.writers| <= 1 && Settle(s).writers == []
    ensures Settle(s).writesDone
         == if s.writers == [] then s.writesDone
            else s.writesDone + [Write([], s.writers[0].sent + s.writers[0].rest)]
    decreases Work(s)
  {
    if !Quiescent(s) {
      StepWorks(s);
      var t := Step(s);
      WriteOver(t);
      if !CanRead(s) {
        var op := s.writers[0];
        var n := Min(CAPACITY - |s.buf|, |op.rest|);
        var next := Write(op.rest[n..], op.sent + op.rest[..n]);
        assert op.rest == op.rest[..n] + op.rest[n..] && s.writers[1..] == [];
        Associative(op.sent, op.rest[..n], op.rest[n..]);
        if next.rest == [] {
          assert op.rest[..n] == op.rest && next == Write([], op.sent + op.rest);
        } else {
          assert t.writers == [next];
        }
      }
    }
  }

  // A write of no bytes to a pipe that is not full.
  lemma EmptyWrite(s: State)
    requires Quiescent(s) && s.writers == [] && |s.buf| < CAPACITY && Ends(AddWrite(s, []))
    ensures Settle(AddWrite(s, [])).writers == []
  {
    var t := AddWrite(s, []);
    assert !CanRead(t) && CanWrite(t);
    var u := Step(t);
    StepWorks(t);
    assert u.writers == [] && u.readers == s.readers && u.buf == s.buf;
    assert Quiescent(u);
  }

  // A read of a quiescent pipe comes back from the loop, finished or not, exactly in these cases.
  lemma ReadReturnsIff(s: State, size: nat)
    requires Quiescent(s) && |s.buf| <= CAPACITY
    ensures Ends(AddRead(s, size)) <==> s.writeCount > 0 || s.writers == [] || size <= |s.buf|
  {
    QuiescentIff(s);
    if s.readers == [] {
      var readers := AddRead(s, size).readers;
      assert readers[1..] == [] && ReadSum(readers) == size;
    }
  }

  // A single read that waits: it is over in the end exactly if there is enough for it, or if it finds bytes when no
  // writer is left.
  lemma {:induction false} ReadEndsIff(s: State)
    requires |s.readers| == 1 && s.writeCount > 0 && (s.readers[0].size > 0 || s.buf != [])
    ensures Settle(s).readers == [] <==> EnoughToEnd(s)
    ensures Settle(s).readers == [] ==> Served(s, Settle(s))
    decreases Work(s)
  {
    if !Quiescent(s) {
      StepWorks(s);
      var t := Step(s);
      if t.readers == [] {
        NoReads(t);
      } else {
        EnoughStep(s);
        ReadEndsIff(t);
      }
    }
  }

  predicate EnoughToEnd(s: State)
    requires |s.readers| == 1
  {
    || s.readers[0].size <= ReadCapacity(s)
    || if s.writers == [] then s.buf != [] else s.writers[|s.writers| - 1].rest != []
  }

  // A step after which the reader still waits.
  lemma EnoughStep(s: State)
    requires |s.readers| == 1 && s.writeCount > 0 && (s.readers[0].size > 0 || s.buf != []) && !Quiescent(s)
    requires Step(s).readers != []
    ensures var t := Step(s);
      && |t.readers| == 1 && t.readsDone == s.readsDone && (EnoughToEnd(t) <==> EnoughToEnd(s))
      && (t.readers[0].size > 0 || t.buf != [])
      && |t.readers[0].got| + Min(t.readers[0].size, ReadCapacity(t))
         == |s.readers[0].got| + Min(s.readers[0].size, ReadCapacity(s))
  {
    var t := Step(s);
    if !CanRead(s) {
      assert t.writers == s.writers[1..] || t.writers[1..] == s.writers[1..];
    }
  }

  // The one reader of `s` is over in `e`, and has got all that it wanted, or all that there was.
  ghost predicate Served(s: State, e: State)
    requires |s.readers| == 1
  {
    && |e.readsDone| == |s.readsDone| + 1 && e.readsDone[..|s.readsDone|] == s.readsDone
    && var op := e.readsDone[|s.readsDone|];
    && |op.got| == |s.readers[0].got| + Min(s.readers[0].size, ReadCapacity(s))
  }

  lemma {:induction false} NoReads(s: State)
    requires Ends(s) && s.readers == []
    ensures Settle(s).readers == [] && Settle(s).readsDone == s.readsDone
    decreases Work(s)
  {
    if !Quiescent(s) {
      StepWorks(s);
      NoReads(Step(s));
    }
  }

  // A read that the capacity test admits is over at once, unless the last of the writers that wait has nothing to
  // write and the others have too little.
  lemma ReadCompletesIff(s: State, size: nat)
    requires Quiescent(s) && |s.buf| <= CAPACITY && Ends(AddRead(s, size)) && ReadCapacity(s) > 0
    ensures s.readers == []
    ensures Settle(AddRead(s, size)).readers == [] <==>
              size <= ReadCapacity(s) || s.writers == [] || s.writers[|s.writers| - 1].rest != []
    ensures Settle(AddRead(s, size)).readers == [] ==> Served(AddRead(s, size), Settle(AddRead(s, size)))
  {
    var t := AddRead(s, size);
    assert s.readers == [] && s.buf != [];
    if s.writeCount > 0 {
      ReadEndsIff(t);
    } else {
      var u := Step(t);
      StepWorks(t);
      NoReads(u);
    }
  }

  // From `s` to `e` a read of `size` bytes has been answered with the next bytes of the stream: with all that it
  // asked for, or with all that there were.
  ghost predicate GotNext(s: State, size: nat, e: State) {
    && |e.readsDone| == |s.readsDone| + 1 && e.readsDone[..|s.readsDone|] == s.readsDone
    && var got := e.readsDone[|s.readsDone|].got;
    && Delivered(e) == Delivered(s) + got && |got| == Min(size, ReadCapacity(s))
  }

  lemma ServedIsNext(s: State, size: nat)
    requires Quiescent(s) && |s.buf| <= CAPACITY && Ends(AddRead(s, size)) && ReadCapacity(s) > 0
    ensures Settle(AddRead(s, size)).readers == [] ==> GotNext(s, size, Settle(AddRead(s, size)))
  {
    ReadCompletesIff(s, size);
    var t := AddRead(s, size);
    var e := Settle(t);
    if e.readers == [] {
      assert t.readers[0] == Read(size, []);
      var op := e.readsDone[|s.readsDone|];
      assert e.readsDone == s.readsDone + [op];
      AllGotSnoc(s.readsDone, op);
    }
  }

  // ---- The cases that are not as one would expect

  function Full(): (buf: seq<byte>)
    ensures |buf| == CAPACITY
  {
    seq(CAPACITY, _ => 0)
  }

  // An empty write to a full pipe is admitted, and waits.
  lemma EmptyWriteWaits()
    ensures var s := State(Full(), 1, [], [], Nowhere, Nowhere, [], []);
      Quiescent(s) && 0 <= WriteCapacity(s) && Settle(AddWrite(s, [])).writers != []
  {
    WriteCompletesIff(State(Full(), 1, [], [], Nowhere, Nowhere, [], []), []);
  }

  // A read of one byte more than there is, behind a writer that has nothing to write, is admitted, and waits.
  lemma ReadBehindEmptyWriterWaits()
    ensures var s := State(Full(), 1, [], [Write([], [])], Nowhere, AtHead, [], []);
      && Quiescent(s) && ReadCapacity(s) > 0 && Ends(AddRead(s, CAPACITY + 1))
      && Settle(AddRead(s, CAPACITY + 1)).readers != []
  {
    var s := State(Full(), 1, [], [Write([], [])], Nowhere, AtHead, [], []);
    assert s.writers[1..] == [];
    ReadCompletesIff(s, CAPACITY + 1);
  }

  // Three writers at a full pipe: the second one is in no list any more.
  lemma LostWriter(x: byte, y: byte, z: byte)
    ensures var s := State(Full(), 1, [], [], Nowhere, Nowhere, [], []);
      var t := Settle(AddWrite(Settle(AddWrite(Settle(AddWrite(s, [x])), [y])), [z]));
      t == TwoWriters(x, z)
  {
    var s := State(Full(), 1, [], [], Nowhere, Nowhere, [], []);
    var a := AddWrite(s, [x]);
    var b := AddWrite(a, [y]);
    assert Quiescent(a) && Quiescent(b) && Quiescent(AddWrite(b, [z]));
  }

  function TwoWriters(x: byte, y: byte): State {
    State(Full(), 1, [], [Write([x], []), Write([y], [])], Nowhere, AtHead, [], [])
  }

  // When the first of two has left, the next one that comes is lost at once.
  lemma LostNext(x: byte, y: byte, z: byte)
    ensures var u := Settle(AddRead(TwoWriters(x, y), 1));
      u.writers == [Write([y], [])] && Settle(AddWrite(u, [z])) == u
  {
    var r := AddRead(TwoWriters(x, y), 1);
    var r1 := Step(r);
    StepWorks(r);
    assert r1.readers == [] && |r1.buf| == CAPACITY - 1 && r1.writers == r.writers;
    var r2 := Step(r1);
    StepWorks(r1);
    assert r2.writers == [Write([y], [])] && r2.writeTail == Gone && r2.readers == [] && |r2.buf| == CAPACITY;
    assert Settle(r) == Settle(r1) && Settle(r1) == Settle(r2) && Settle(r2) == r2;
    assert AddWrite(r2, [z]) == r2;
  }

  // A state from which the loop does not end: no round of it changes anything.
  lemma EndlessExample(n: nat)
    ensures var s := State([], 0, [Read(1, [])], [Write([0], [])], AtHead, AtHead, [], []);
      !Ends(s) && Step(s) == s && !Quiescent(Rounds(s, n))
  {
    var s := State([], 0, [Read(1, [])], [Write([0], [])], AtHead, AtHead, [], []);
    assert s.readers[1..] == [] && ReadSum(s.readers) == 1;
    assert s.readers[0].got + s.buf[..0] == [] && s.buf[0..] == [];
    assert Step(s) == s;
    NeverSettles(s, n);
  }
}
