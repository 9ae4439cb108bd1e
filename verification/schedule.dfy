// kernel/src/task/schedule.c: the ready queue of a hart. One list holds the tasks of all forty priorities, and for
// every priority the last task up to it is remembered.
module ScheduleSpec {
  import opened Basics

  const MAX_PRIORITY: nat := 40
  const LOWEST_PRIORITY: nat := 39

  class Task {
    var priority: nat
    var next: Task?
  }

  datatype Entry = Entry(task: Task, priority: nat)

  predicate Sorted(q: seq<Entry>) {
    forall i, j :: 0 <= i < j < |q| ==> q[i].priority <= q[j].priority
  }

  // How many tasks come first that have at least this priority. (A higher priority is a smaller number.)
  function Upto(q: seq<Entry>, p: nat): (n: nat)
    ensures n <= |q| && (forall i :: 0 <= i < n ==> q[i].priority <= p) && (n < |q| ==> q[n].priority > p)
  {
    if q == [] || q[0].priority > p then 0 else 1 + Upto(q[1..], p)
  }

  function Push(q: seq<Entry>, e: Entry): seq<Entry> {
    var n := Upto(q, e.priority);
    q[..n] + [e] + q[n..]
  }

  // The tasks of one priority, as a queue of its own.
  function Level(q: seq<Entry>, p: nat): seq<Task> {
    if q == [] then [] else (if q[0].priority == p then [q[0].task] else []) + Level(q[1..], p)
  }

  lemma {:induction false} LevelConcat(a: seq<Entry>, b: seq<Entry>, p: nat)
    ensures Level(a + b, p) == Level(a, p) + Level(b, p)
  {
    if a == [] {
      assert a + b == b;
    } else {
      assert (a + b)[1..] == a[1..] + b;
      LevelConcat(a[1..], b, p);
      Associative(if a[0].priority == p then [a[0].task] else [], Level(a[1..], p), Level(b, p));
    }
  }

  lemma {:induction false} LevelEmpty(q: seq<Entry>, p: nat)
    requires forall i :: 0 <= i < |q| ==> q[i].priority != p
    ensures Level(q, p) == []
  {
    if q != [] {
      LevelEmpty(q[1..], p);
    }
  }

  // A task joins the end of the queue of its priority, and the other queues stay as they are.
  lemma PushLevels(q: seq<Entry>, e: Entry, p: nat)
    requires Sorted(q)
    ensures Sorted(Push(q, e))
    ensures Level(Push(q, e), p) == if p == e.priority then Level(q, p) + [e.task] else Level(q, p)
  {
    PushSorted(q, e);
    var n := Upto(q, e.priority);
    var a, b := q[..n], q[n..];
    assert q == a + b;
    LevelConcat(a, b, p);
    LevelInsert(a, e, b, p);
    if p == e.priority {
      NoneBehind(q, p);
    }
  }

  lemma NoneBehind(q: seq<Entry>, p: nat)
    requires Sorted(q)
    ensures Level(q[Upto(q, p)..], p) == []
  {
    var n := Upto(q, p);
    var b := q[n..];
    forall i | 0 <= i < |b| ensures b[i].priority != p {
      assert b[i] == q[n + i] && b[0] == q[n];
    }
    LevelEmpty(b, p);
  }

  lemma LevelInsert(a: seq<Entry>, e: Entry, b: seq<Entry>, p: nat)
    ensures Level(a + [e] + b, p) == Level(a, p) + (if p == e.priority then [e.task] else []) + Level(b, p)
  {
    LevelConcat(a + [e], b, p);
    LevelConcat(a, [e], p);
    assert [e][1..] == [];
  }

  lemma PushAt(q: seq<Entry>, e: Entry, i: nat)
    requires i <= |q|
    ensures var n := Upto(q, e.priority);
      |Push(q, e)| == |q| + 1 && Push(q, e)[i] == if i < n then q[i] else if i == n then e else q[i - 1]
  {
  }

  lemma PushSorted(q: seq<Entry>, e: Entry)
    requires Sorted(q)
    ensures Sorted(Push(q, e))
  {
    var n, r := Upto(q, e.priority), Push(q, e);
    assert forall i :: 0 <= i < |r| ==> r[i] == if i < n then q[i] else if i == n then e else q[i - 1];
    forall i, j | 0 <= i < j < |r| ensures r[i].priority <= r[j].priority {
      if i == n {
        assert q[n].priority <= q[j - 1].priority;
      }
    }
  }

  // The task that is taken is the oldest one of the first queue that is not empty.
  lemma PullLevels(q: seq<Entry>, p: nat)
    requires Sorted(q) && q != []
    ensures Sorted(q[1..])
    ensures Level(q, q[0].priority) == [q[0].task] + Level(q[1..], q[0].priority)
    ensures p < q[0].priority ==> Level(q, p) == []
    ensures p != q[0].priority ==> Level(q[1..], p) == Level(q, p)
  {
    if p < q[0].priority {
      LevelEmpty(q, p);
    }
  }

  // ---- What the remembered tasks are

  lemma UptoIs(q: seq<Entry>, p: nat, n: nat)
    requires Sorted(q) && n <= |q| && (forall i :: 0 <= i < n ==> q[i].priority <= p) && (n < |q| ==> q[n].priority > p)
    ensures Upto(q, p) == n
  {
  }

  lemma PushUpto(q: seq<Entry>, e: Entry, p: nat)
    requires Sorted(q)
    ensures Upto(Push(q, e), p) == if p < e.priority then Upto(q, p) else Upto(q, p) + 1
    ensures p < e.priority ==> Upto(q, p) <= Upto(q, e.priority)
    ensures p >= e.priority ==> Upto(q, p) >= Upto(q, e.priority)
  {
    PushSorted(q, e);
    UptoAcross(q, p, e.priority);
    PushedUpto(q, e, p, if p < e.priority then Upto(q, p) else Upto(q, p) + 1);
  }

  lemma UptoAcross(q: seq<Entry>, p: nat, p': nat)
    requires Sorted(q)
    ensures p < p' ==> Upto(q, p) <= Upto(q, p')
    ensures p >= p' ==> Upto(q, p) >= Upto(q, p')
  {
    if p < p' {
      UptoMonotone(q, p, p');
    } else {
      UptoMonotone(q, p', p);
    }
  }

  lemma PushedUpto(q: seq<Entry>, e: Entry, p: nat, m: nat)
    requires Sorted(q) && Sorted(Push(q, e)) && m == if p < e.priority then Upto(q, p) else Upto(q, p) + 1
    ensures Upto(Push(q, e), p) == m
  {
    UptoAcross(q, p, e.priority);
    var r := Push(q, e);
    if m < |r| {
      PushAt(q, e, m);
    }
    if m > 0 {
      PushAt(q, e, m - 1);
      forall i | 0 <= i < m ensures r[i].priority <= p {
        assert i < m - 1 ==> r[i].priority <= r[m - 1].priority;
      }
    }
    UptoIs(r, p, m);
  }

  lemma PullUpto(q: seq<Entry>, p: nat)
    requires Sorted(q) && q != []
    ensures Upto(q[1..], p) == if Upto(q, p) == 0 then 0 else Upto(q, p) - 1
    ensures Upto(q, p) == 0 <==> p < q[0].priority
  {
    if p < q[0].priority {
      UptoIs(q[1..], p, 0);
    }
  }

  lemma UptoMonotone(q: seq<Entry>, p: nat, p': nat)
    requires Sorted(q) && p <= p'
    ensures Upto(q, p) <= Upto(q, p')
  {
  }
}

module Schedule {
  import opened ScheduleSpec

  class ScheduleQueue {
    var head: Task?
    const tails: array<Task?>
    // The tasks in the list, with the priorities that they have been queued with.
    ghost var queue: seq<Entry>

    ghost function Tasks(): set<Task>
      reads this
    {
      set e | e in queue :: e.task
    }

    // The links of the list.
    ghost predicate Linked(i: nat)
      requires i < |queue|
      reads this, Tasks()
    {
      && queue[i].task.priority == queue[i].priority < MAX_PRIORITY
      && queue[i].task.next == if i + 1 < |queue| then queue[i + 1].task else null
    }

    ghost predicate List()
      reads this, Tasks()
    {
      && head == (if queue == [] then null else queue[0].task)
      && (forall i: nat {:trigger Linked(i)} :: i < |queue| ==> Linked(i))
      && Distinct(queue) && Sorted(queue)
    }

    ghost predicate Valid()
      reads this, tails, Tasks()
    {
      tails.Length == MAX_PRIORITY && List() && forall p :: 0 <= p < MAX_PRIORITY ==> tails[p] == LastOf(queue, p)
    }

    constructor ()
      ensures Valid() && queue == [] && fresh(tails)
    {
      head, queue := null, [];
      tails := new Task?[MAX_PRIORITY](_ => null);
    }

    // pushTaskToQueue
    method PushTask(task: Task)
      requires Valid() && task !in Tasks()
      modifies this, tails, task, Tasks()
      ensures Valid() && task.priority == if old(task.priority) > LOWEST_PRIORITY then LOWEST_PRIORITY
              else old(task.priority)
      ensures queue == Push(old(queue), Entry(task, task.priority))
    {
      if task.priority > LOWEST_PRIORITY {
        task.priority := LOWEST_PRIORITY;
      }
      assert List();
      ghost var was := queue;
      LinkTask(task);
      label linked:
      PushTails(tails, was, task, task.priority);
      forall i: nat | i < |queue| ensures Linked(i) {
        assert old@linked(Linked(i));
      }
    }

    // pullTaskFromQueue
    method PullTask() returns (task: Task?)
      requires Valid()
      modifies this, tails
      ensures Valid()
      ensures task == if old(queue) == [] then null else old(queue)[0].task
      ensures queue == if old(queue) == [] then [] else old(queue)[1..]
    {
      if head == null {
        return null;
      }
      task := head;
      ghost var q := queue;
      assert Linked(0);
      UnlinkHead();
      label unlinked:
      PullTails(tails, q, task);
      forall i: nat | i < |queue| ensures Linked(i) {
        assert old@unlinked(Linked(i));
      }
    }

    method UnlinkHead()
      requires List() && head != null
      modifies this`head, this`queue
      ensures List() && queue == old(queue)[1..]
    {
      ghost var q := queue;
      assert Linked(0);
      head := head.next;
      queue := queue[1..];
      forall i: nat | i < |queue| ensures Linked(i) {
        assert old(Linked(i + 1)) && q[i + 1] == queue[i];
        assert i + 1 < |queue| ==> queue[i + 1] == q[i + 2];
      }
    }

    // The links: the task goes behind the last one of its priority.
    method LinkTask(task: Task)
      requires List() && task !in Tasks() && task.priority < MAX_PRIORITY
      requires tails.Length == MAX_PRIORITY && tails[task.priority] == LastOf(queue, task.priority)
      modifies this`head, this`queue, task`next, Tasks()`next
      ensures List() && queue == Push(old(queue), Entry(task, task.priority))
    {
      ghost var q, e := queue, Entry(task, task.priority);
      Rewire(task);
      queue := Push(queue, e);
      Relinked(q, e);
    }

    lemma Relinked(q: seq<Entry>, e: Entry)
      requires queue == Push(q, e) && Sorted(q) && Distinct(q) && e.priority < MAX_PRIORITY && Rewired(q, e, head)
      ensures List()
    {
      PushSorted(q, e);
      PushDistinct(q, e);
      PushAt(q, e, 0);
      forall i: nat | i < |queue| ensures Linked(i) {
        PushNext(q, e, i);
      }
    }

    // The two pointers that change.
    method Rewire(task: Task)
      requires List() && task !in Tasks() && task.priority < MAX_PRIORITY
      requires tails.Length == MAX_PRIORITY && tails[task.priority] == LastOf(queue, task.priority)
      modifies this`head, task`next, Tasks()`next
      ensures Rewired(queue, Entry(task, task.priority), head)
    {
      var p := task.priority;
      ghost var n := Upto(queue, p);
      forall k: nat | k < |queue|
        ensures queue[k].task.next == NextOf(queue, k) && queue[k].task != task
                && queue[k].task.priority == queue[k].priority < MAX_PRIORITY
      {
        assert Linked(k) && queue[k] in queue;
      }
      if tails[p] == null {
        task.next := head;
        head := task;
      } else {
        assert tails[p] == queue[n - 1].task;
        task.next := tails[p].next;
        tails[p].next := task;
      }
    }
  }

  // The links from the tasks in `q` after `e` has been linked.
  ghost predicate Rewired(q: seq<Entry>, e: Entry, head: Task?)
    reads e.task, set x | x in q :: x.task
  {
    var n := Upto(q, e.priority);
    && head == (if n == 0 then e.task else q[0].task) && e.task.next == (if n < |q| then q[n].task else null)
    && e.task.priority == e.priority
    && forall k: nat {:trigger q[k]} :: k < |q| ==>
         && q[k].task.next == (if k + 1 == n then e.task else NextOf(q, k))
         && q[k].task.priority == q[k].priority < MAX_PRIORITY && q[k].task != e.task
  }

  ghost function NextOf(q: seq<Entry>, i: nat): Task?
    requires i < |q|
  {
    if i + 1 < |q| then q[i + 1].task else null
  }

  lemma PushNext(q: seq<Entry>, e: Entry, i: nat)
    requires i <= |q|
    ensures var n, r := Upto(q, e.priority), Push(q, e);
      && |r| == |q| + 1 && r[i] == (if i < n then q[i] else if i == n then e else q[i - 1])
      && NextOf(r, i) == if i + 1 == n then e.task else if i < n then NextOf(q, i)
                         else if i == n then (if n < |q| then q[n].task else null) else NextOf(q, i - 1)
  {
    PushAt(q, e, i);
    if i < |q| {
      PushAt(q, e, i + 1);
    }
  }

  lemma PushDistinct(q: seq<Entry>, e: Entry)
    requires Distinct(q) && forall k: nat :: k < |q| ==> q[k].task != e.task
    ensures Distinct(Push(q, e))
  {
    var r := Push(q, e);
    forall i, j | 0 <= i < j < |r| ensures r[i].task != r[j].task {
      PushAt(q, e, i);
      PushAt(q, e, j);
    }
  }

  ghost function LastOf(q: seq<Entry>, p: nat): Task? {
    if Upto(q, p) == 0 then null else q[Upto(q, p) - 1].task
  }

  ghost predicate Distinct(q: seq<Entry>) {
    forall i, j :: 0 <= i < j < |q| ==> q[i].task != q[j].task
  }

  lemma SameLast(q: seq<Entry>, p: nat, p': nat)
    requires Distinct(q)
    ensures LastOf(q, p) == LastOf(q, p') <==> Upto(q, p) == Upto(q, p')
  {
    var n, n' := Upto(q, p), Upto(q, p');
    if 0 < n < n' {
      assert q[n - 1].task != q[n' - 1].task;
    } else if 0 < n' < n {
      assert q[n' - 1].task != q[n - 1].task;
    }
  }

  // Who is last changes exactly where the loop of the source stops.
  lemma PushLast(q: seq<Entry>, e: Entry, p: nat)
    requires Sorted(q) && Distinct(q)
    ensures LastOf(Push(q, e), p) == if p >= e.priority && LastOf(q, p) == LastOf(q, e.priority) then e.task
            else LastOf(q, p)
  {
    SameLast(q, p, e.priority);
    if p < e.priority {
      PushLastBefore(q, e, p);
    } else {
      PushLastAfter(q, e, p);
    }
  }

  lemma PushLastBefore(q: seq<Entry>, e: Entry, p: nat)
    requires Sorted(q) && p < e.priority
    ensures LastOf(Push(q, e), p) == LastOf(q, p)
  {
    PushUpto(q, e, p);
    if Upto(q, p) > 0 {
      PushAt(q, e, Upto(q, p) - 1);
    }
  }

  lemma PushLastAfter(q: seq<Entry>, e: Entry, p: nat)
    requires Sorted(q) && p >= e.priority
    ensures LastOf(Push(q, e), p) == if Upto(q, p) == Upto(q, e.priority) then e.task else LastOf(q, p)
  {
    PushUpto(q, e, p);
    PushAt(q, e, Upto(q, p));
  }

  lemma PushedLast(q: seq<Entry>, e: Entry, i: nat, j: nat)
    requires Sorted(q) && Distinct(q) && e.priority < i <= MAX_PRIORITY && j < MAX_PRIORITY
    requires forall k :: e.priority <= k < i ==> LastOf(q, k) == LastOf(q, e.priority)
    requires i < MAX_PRIORITY ==> LastOf(q, i) != LastOf(q, e.priority)
    ensures LastOf(Push(q, e), j) == if e.priority <= j < i then e.task else LastOf(q, j)
  {
    PushLast(q, e, j);
    if i <= j {
      UptoMonotone(q, i, j);
      UptoMonotone(q, e.priority, i);
      SameLast(q, i, e.priority);
      SameLast(q, j, e.priority);
    }
  }

  // The tails once the first task is gone: it was the last one only for priorities where it was the only one.
  lemma PulledLast(q: seq<Entry>, j: nat)
    requires Sorted(q) && Distinct(q) && q != []
    ensures LastOf(q[1..], j) == if LastOf(q, j) == q[0].task then null else LastOf(q, j)
    ensures LastOf(q, j) == q[0].task <==> Upto(q, j) == 1
    ensures j < q[0].priority <==> LastOf(q, j) == null
  {
    PullUpto(q, j);
    var n := Upto(q, j);
    assert n > 1 ==> q[0].task != q[n - 1].task && q[1..][n - 2] == q[n - 1];
  }

  // The second half of pullTaskFromQueue.
  method PullTails(tails: array<Task?>, ghost q: seq<Entry>, ret: Task)
    requires tails.Length == MAX_PRIORITY && Sorted(q) && Distinct(q) && q != [] && q[0].priority < MAX_PRIORITY
    requires ret == q[0].task && ret.priority == q[0].priority
    requires forall j :: 0 <= j < MAX_PRIORITY ==> tails[j] == LastOf(q, j)
    modifies tails
    ensures forall j :: 0 <= j < MAX_PRIORITY ==> tails[j] == LastOf(q[1..], j)
  {
    var p := ret.priority;
    var i := p;
    if tails[p] == ret {
      if p > 0 {
        PulledLast(q, p - 1);
      }
      i := ClearTails(tails, ret, p);
    }
    forall j | 0 <= j < MAX_PRIORITY ensures tails[j] == LastOf(q[1..], j) {
      PulledFrom(q, i, j);
    }
  }

  // Where the task was the last one, there is none now.
  method ClearTails(tails: array<Task?>, ret: Task, p: nat) returns (i: nat)
    requires tails.Length == MAX_PRIORITY && p < MAX_PRIORITY && tails[p] == ret && (p > 0 ==> tails[p - 1] == null)
    modifies tails
    ensures p < i <= MAX_PRIORITY && (i < MAX_PRIORITY ==> old(tails[i]) != ret)
    ensures forall j :: 0 <= j < MAX_PRIORITY ==> tails[j] == if p <= j < i then null else old(tails[j])
    ensures forall j :: p <= j < i ==> old(tails[j]) == ret
  {
    if p == 0 {
      tails[0] := null;
    } else {
      tails[p] := tails[p - 1];
    }
    i := p + 1;
    while i < MAX_PRIORITY && tails[i] == ret
      invariant p < i <= MAX_PRIORITY
      invariant forall j :: 0 <= j < MAX_PRIORITY ==> tails[j] == if p <= j < i then null else old(tails[j])
      invariant forall j :: p <= j < i ==> old(tails[j]) == ret
    {
      tails[i] := tails[i - 1];
      i := i + 1;
    }
  }

  lemma PulledFrom(q: seq<Entry>, i: nat, j: nat)
    requires Sorted(q) && Distinct(q) && q != [] && q[0].priority <= i <= MAX_PRIORITY && j < MAX_PRIORITY
    requires forall k :: q[0].priority <= k < i ==> LastOf(q, k) == q[0].task
    requires i < MAX_PRIORITY ==> LastOf(q, i) != q[0].task
    ensures LastOf(q[1..], j) == if q[0].priority <= j < i then null else LastOf(q, j)
  {
    PulledLast(q, j);
    if i <= j {
      PulledLast(q, i);
      UptoMonotone(q, i, j);
    }
  }

  // The loop of pushTaskToQueue.
  method PushTails(tails: array<Task?>, ghost q: seq<Entry>, task: Task, p: nat)
    requires tails.Length == MAX_PRIORITY && p < MAX_PRIORITY && Sorted(q) && Distinct(q)
    requires forall j :: 0 <= j < MAX_PRIORITY ==> tails[j] == LastOf(q, j)
    modifies tails
    ensures forall j :: 0 <= j < MAX_PRIORITY ==> tails[j] == LastOf(Push(q, Entry(task, p)), j)
  {
    var was := tails[p];
    var i := p;
    while i < MAX_PRIORITY && tails[i] == was
      invariant p <= i <= MAX_PRIORITY
      invariant forall j :: 0 <= j < MAX_PRIORITY ==> tails[j] == if p <= j < i then task else LastOf(q, j)
      invariant forall j :: p <= j < i ==> LastOf(q, j) == LastOf(q, p)
    {
      tails[i] := task;
      i := i + 1;
    }
    forall j | 0 <= j < MAX_PRIORITY ensures tails[j] == LastOf(Push(q, Entry(task, p)), j) {
      PushedLast(q, Entry(task, p), i, j);
    }
  }

  // ---- All harts

  class Hart {
    const queue: ScheduleQueue
    const idle: Task
    var next: Hart?

    constructor (queue: ScheduleQueue, idle: Task)
      ensures this.queue == queue && this.idle == idle && next == null
    {
      this.queue, this.idle, next := queue, idle, null;
    }
  }

  // The harts, from one of them round to itself; no two of them share a queue.
  ghost predicate Ring(ring: seq<Hart>)
    reads ring
  {
    && ring != []
    && (forall i :: 0 <= i < |ring| ==> ring[i].next == ring[if i + 1 < |ring| then i + 1 else 0])
    && (forall i, j :: 0 <= i < j < |ring| ==>
        ring[i] != ring[j] && ring[i].queue != ring[j].queue && ring[i].queue.tails != ring[j].queue.tails)
  }

  // Taking a task from one of the queues does not touch the others.
  method PullAt(hart: Hart, ghost ring: seq<Hart>, ghost i: nat) returns (task: Task?)
    requires Ring(ring) && i < |ring| && ring[i] == hart && forall k :: 0 <= k < |ring| ==> ring[k].queue.Valid()
    modifies hart.queue, hart.queue.tails
    ensures forall k :: 0 <= k < |ring| ==> ring[k].queue.Valid()
    ensures forall k :: 0 <= k < |ring| && k != i ==> ring[k].queue.queue == old(ring[k].queue.queue)
    ensures task == if old(hart.queue.queue) == [] then null else old(hart.queue.queue)[0].task
    ensures hart.queue.queue == if task == null then old(hart.queue.queue) else old(hart.queue.queue)[1..]
  {
    task := hart.queue.PullTask();
    forall k | 0 <= k < |ring| ensures ring[k].queue.Valid() {
      if k != i {
        assert old(ring[k].queue.Valid());
        assert ring[k].queue != hart.queue && ring[k].queue.tails != hart.queue.tails;
        forall j: nat | j < |ring[k].queue.queue| ensures ring[k].queue.Linked(j) {
          assert old(ring[k].queue.Linked(j));
        }
      }
    }
  }

  // pullTaskForHart: the first task of the first queue that is not empty, or the idle task if all of them are.
  method PullTaskForHart(hart: Hart, ghost ring: seq<Hart>) returns (task: Task, ghost at_: nat)
    requires Ring(ring) && ring[0] == hart && forall k :: 0 <= k < |ring| ==> ring[k].queue.Valid()
    modifies set h | h in ring :: h.queue
    modifies set h | h in ring :: h.queue.tails
    ensures forall k :: 0 <= k < |ring| ==> ring[k].queue.Valid()
    ensures at_ <= |ring| && forall k :: 0 <= k < at_ ==> old(ring[k].queue.queue) == []
    ensures at_ == |ring| ==> task == hart.idle
    ensures at_ < |ring| ==> old(ring[at_].queue.queue) != [] && task == old(ring[at_].queue.queue)[0].task
    ensures forall k :: 0 <= k < |ring| ==>
              ring[k].queue.queue == if k == at_ then old(ring[k].queue.queue)[1..] else old(ring[k].queue.queue)
  {
    at_ := 0;
    var current := hart;
    while true
      invariant at_ < |ring| && current == ring[at_]
      invariant forall k :: 0 <= k < |ring| ==> ring[k].queue.Valid() && ring[k].queue.queue == old(ring[k].queue.queue)
      invariant forall k :: 0 <= k < at_ ==> old(ring[k].queue.queue) == []
      decreases |ring| - at_
    {
      var found := PullAt(current, ring, at_);
      if found != null {
        return found, at_;
      }
      current := current.next;
      at_ := at_ + 1;
      if current == hart {
        break;
      }
    }
    return hart.idle, at_;
  }
}
