// kernel/src/task/tasklock.c as a protocol: every step is one access to the shared fields of the lock, and the steps of
// any number of tasks are interleaved in any order.
module TaskLock {
  import opened Basics

  type Task = nat

  // Where a task is. A number in a constructor is a value of num_locks that has been loaded and not yet stored.
  datatype Pc =
    | Outside
    | LockCheck      // line 87
    | LockSpin       // line 67
    | LockTest       // line 68
    | LockRelease    // line 70
    | Enqueue        // lines 25-28
    | WaitRelease    // line 29
    | Asleep         // line 30
    | IncLoad        // lines 94, 119
    | IncStore(loaded: int)
    | TryCheck       // line 103
    | TrySpin        // line 105
    | TryTest        // line 106
    | TryRelease(result: bool) // line 115
    | DecLoad        // line 131
    | DecStore(loaded: int)
    | UnlockTest     // line 132
    | UnlockSpin     // line 137
    | UnlockClear    // line 138
    | Drain          // lines 139-144
    | UnlockRelease  // line 145

  // The lock, and for every task where it is and how many of its calls to lock have not been undone.
  datatype State = State(
    spin: Option<Task>, lockedBy: Option<Task>, numLocks: int, waitQueue: seq<Task>,
    pcs: map<Task, Pc>, depths: map<Task, nat>)
  {
    function Pc(t: Task): Pc {
      if t in pcs then pcs[t] else Outside
    }

    function Depth(t: Task): nat {
      if t in depths then depths[t] else 0
    }

    function Go(t: Task, p: Pc): State {
      this.(pcs := pcs[t := p])
    }
  }

  // initTaskLock
  function Init(): State {
    State(None, None, 0, [], map[], map[])
  }

  // Which call a task begins when it is outside.
  datatype Call = Lock | TryLock | Unlock

  // One step of task `t`, if it can take one. Unlocking is for tasks that have locked.
  function Next(s: State, t: Task, call: Call): Option<State> {
    var p := s.Pc(t);
    if p.Outside? then
      match call
      case Lock => Some(s.Go(t, LockCheck))
      case TryLock => Some(s.Go(t, TryCheck))
      case Unlock => if s.Depth(t) > 0 then Some(s.Go(t, DecLoad)) else None
    else if Unlocking(p) then UnlockStep(s, t)
    else LockStep(s, t)
  }

  predicate Unlocking(p: Pc) {
    p.DecLoad? || p.DecStore? || p.UnlockTest? || p.UnlockSpin? || p.UnlockClear? || p.Drain? || p.UnlockRelease?
  }

  // lockTaskLock, lockOrWaitTaskLock, waitForTaskLock and tryLockingTaskLock
  function LockStep(s: State, t: Task): Option<State>
    requires !s.Pc(t).Outside? && !Unlocking(s.Pc(t))
  {
    match s.Pc(t)
    case LockCheck => Some(s.Go(t, if s.lockedBy == Some(t) then IncLoad else LockSpin))
    case LockSpin => if s.spin == None then Some(s.(spin := Some(t)).Go(t, LockTest)) else None
    case LockTest =>
      if s.lockedBy == None then Some(s.(lockedBy := Some(t)).Go(t, LockRelease)) else Some(s.Go(t, Enqueue))
    case LockRelease => Some(s.(spin := None).Go(t, IncLoad))
    case Enqueue => Some(s.(waitQueue := [t] + s.waitQueue).Go(t, WaitRelease))
    case WaitRelease => Some(s.(spin := None).Go(t, Asleep))
    case Asleep => None
    case IncLoad => Some(s.Go(t, IncStore(s.numLocks)))
    case IncStore(n) => Some(s.(numLocks := n + 1, depths := s.depths[t := s.Depth(t) + 1]).Go(t, Outside))
    case TryCheck => Some(s.Go(t, if s.lockedBy == Some(t) then IncLoad else TrySpin))
    case TrySpin => if s.spin == None then Some(s.(spin := Some(t)).Go(t, TryTest)) else None
    case TryTest =>
      if s.lockedBy == None then Some(s.(lockedBy := Some(t)).Go(t, TryRelease(true)))
          else Some(s.Go(t, TryRelease(false)))
    case TryRelease(result) => Some(s.(spin := None).Go(t, if result then IncLoad else Outside))
  }

  // unlockTaskLock
  function UnlockStep(s: State, t: Task): Option<State>
    requires Unlocking(s.Pc(t))
  {
    match s.Pc(t)
    case DecLoad => Some(s.Go(t, DecStore(s.numLocks)))
    case DecStore(n) =>
      Some(s.(numLocks := n - 1, depths := s.depths[t := if s.Depth(t) > 0 then s.Depth(t) - 1 else 0]).Go(t,
          UnlockTest))
    case UnlockTest => Some(s.Go(t, if s.numLocks == 0 then UnlockSpin else Outside))
    case UnlockSpin => if s.spin == None then Some(s.(spin := Some(t)).Go(t, UnlockClear)) else None
    case UnlockClear => Some(s.(lockedBy := None).Go(t, Drain))
    case Drain =>
      if s.waitQueue == [] then Some(s.Go(t, UnlockRelease))
      else Some(s.(waitQueue := s.waitQueue[1..]).Go(s.waitQueue[0], LockSpin))
    case UnlockRelease => Some(s.(spin := None).Go(t, Outside))
  }

  // ---- The invariant

  predicate HoldsSpin(p: Pc) {
    p.LockTest? || p.LockRelease? || p.Enqueue? || p.WaitRelease? || p.TryTest? || p.TryRelease? || p.UnlockClear?
        || p.Drain? || p.UnlockRelease?
  }

  predicate Waiting(p: Pc) {
    p.WaitRelease? || p.Asleep?
  }

  // The places that only the owner reaches, and only other tasks; elsewhere the owner is the task that has locked.
  predicate Owns(p: Pc, depth: nat) {
    if p.LockRelease? || p.IncLoad? || p.IncStore? || p.DecLoad? || p.DecStore? || p.UnlockTest? || p.UnlockSpin?
        || p.UnlockClear? then true
    else if p.TryRelease? then p.result
    else if p.Outside? || p.LockCheck? || p.TryCheck? then depth > 0
    else false
  }

  // How often a task can have locked when it is at `p`.
  predicate DepthOk(p: Pc, depth: nat) {
    if p.DecLoad? || p.DecStore? then depth > 0
    else p.Outside? || p.LockCheck? || p.TryCheck? || p.IncLoad? || p.IncStore? || p.UnlockTest? || depth == 0
  }

  ghost predicate TaskOk(s: State, t: Task) {
    HoldOk(s, t) && QueueOk(s, t)
  }

  ghost predicate HoldOk(s: State, t: Task) {
    && (s.spin == Some(t) <==> HoldsSpin(s.Pc(t)))
    && (s.lockedBy == Some(t) <==> Owns(s.Pc(t), s.Depth(t)))
    && DepthOk(s.Pc(t), s.Depth(t))
    && (s.lockedBy == Some(t) ==> s.numLocks == s.Depth(t))
    && (s.Pc(t).IncStore? || s.Pc(t).DecStore? ==> s.Pc(t).loaded == s.numLocks)
  }

  ghost predicate QueueOk(s: State, t: Task) {
    && (t in s.waitQueue <==> Waiting(s.Pc(t)))
    && (s.Pc(t) == UnlockRelease ==> s.waitQueue == [])
    && ((s.Pc(t).Drain? || s.Pc(t).UnlockRelease?) ==> s.lockedBy == None)
    && ((s.Pc(t).Enqueue? || s.Pc(t).WaitRelease?) ==> s.lockedBy != None)
  }

  ghost predicate Inv(s: State) {
    && (forall t {:trigger TaskOk(s, t)} :: TaskOk(s, t))
    && (forall i, j :: 0 <= i < j < |s.waitQueue| ==> s.waitQueue[i] != s.waitQueue[j])
    && (s.lockedBy == None ==> s.numLocks == 0)
    && (s.lockedBy == None && s.waitQueue != [] ==> s.spin.Some? && s.Pc(s.spin.value) == Drain)
  }

  lemma InitInv()
    ensures Inv(Init())
  {
  }

  lemma NextInv(s: State, t: Task, call: Call)
    requires Inv(s) && Next(s, t, call).Some?
    ensures Inv(Next(s, t, call).value)
  {
    var n := Next(s, t, call).value;
    forall u ensures TaskOk(n, u) {
      if u == t {
        OwnStep(s, t, call);
      } else {
        OthersStep(s, t, call, u);
      }
    }
    WholeStep(s, t, call);
  }

  // The facts about the whole lock.
  lemma WholeStep(s: State, t: Task, call: Call)
    requires Inv(s) && Next(s, t, call).Some?
    ensures var n := Next(s, t, call).value;
      && (forall i, j :: 0 <= i < j < |n.waitQueue| ==> n.waitQueue[i] != n.waitQueue[j])
      && (n.lockedBy == None ==> n.numLocks == 0)
      && (n.lockedBy == None && n.waitQueue != [] ==> n.spin.Some? && n.Pc(n.spin.value) == Drain)
  {
    assert TaskOk(s, t);
    assert s.spin.Some? ==> TaskOk(s, s.spin.value);
    if s.waitQueue != [] {
      assert TaskOk(s, s.waitQueue[0]);
    }
  }

  lemma OwnStep(s: State, t: Task, call: Call)
    requires Inv(s) && Next(s, t, call).Some?
    ensures TaskOk(Next(s, t, call).value, t)
  {
    OwnHold(s, t, call);
    OwnQueue(s, t, call);
  }

  lemma OwnHold(s: State, t: Task, call: Call)
    requires Inv(s) && Next(s, t, call).Some?
    ensures HoldOk(Next(s, t, call).value, t)
  {
    assert TaskOk(s, t);
    if Unlocking(s.Pc(t)) {
      OwnHoldUnlocking(s, t);
    } else if !s.Pc(t).Outside? {
      OwnHoldLocking(s, t);
    }
  }

  lemma OwnHoldLocking(s: State, t: Task)
    requires Inv(s) && !s.Pc(t).Outside? && !Unlocking(s.Pc(t)) && LockStep(s, t).Some?
    ensures HoldOk(LockStep(s, t).value, t)
  {
    assert TaskOk(s, t);
  }

  lemma OwnHoldUnlocking(s: State, t: Task)
    requires Inv(s) && Unlocking(s.Pc(t)) && UnlockStep(s, t).Some?
    ensures HoldOk(UnlockStep(s, t).value, t)
  {
    assert TaskOk(s, t);
    if s.Pc(t) == Drain && s.waitQueue != [] {
      assert TaskOk(s, s.waitQueue[0]);
    }
  }

  lemma OwnQueue(s: State, t: Task, call: Call)
    requires Inv(s) && Next(s, t, call).Some?
    ensures QueueOk(Next(s, t, call).value, t)
  {
    assert TaskOk(s, t);
    Queued(s, t, call, t);
  }

  lemma OthersStep(s: State, t: Task, call: Call, u: Task)
    requires Inv(s) && Next(s, t, call).Some? && u != t
    ensures TaskOk(Next(s, t, call).value, u)
  {
    assert TaskOk(s, t) && TaskOk(s, u);
    Queued(s, t, call, u);
    if Unlocking(s.Pc(t)) {
      OthersUnlocking(s, t, u);
    } else if !s.Pc(t).Outside? {
      OthersLocking(s, t, u);
    }
  }

  lemma OthersLocking(s: State, t: Task, u: Task)
    requires Inv(s) && !s.Pc(t).Outside? && !Unlocking(s.Pc(t)) && LockStep(s, t).Some? && u != t
    ensures TaskOk(LockStep(s, t).value, u)
  {
    assert TaskOk(s, t) && TaskOk(s, u);
    Queued(s, t, Lock, u);
  }

  lemma OthersUnlocking(s: State, t: Task, u: Task)
    requires Inv(s) && Unlocking(s.Pc(t)) && UnlockStep(s, t).Some? && u != t
    ensures TaskOk(UnlockStep(s, t).value, u)
  {
    assert TaskOk(s, t) && TaskOk(s, u);
    Queued(s, t, Lock, u);
  }

  lemma Queued(s: State, t: Task, call: Call, u: Task)
    requires Inv(s) && Next(s, t, call).Some?
    ensures var n := Next(s, t, call).value;
      u in n.waitQueue <==> if s.Pc(t) == Enqueue && u == t then true
                            else if s.Pc(t) == Drain && s.waitQueue != [] && u == s.waitQueue[0] then false
                            else u in s.waitQueue
  {
    if s.waitQueue != [] {
      assert s.waitQueue == [s.waitQueue[0]] + s.waitQueue[1..];
    }
  }

  // ---- Every run

  // The states of a run, and who took each step.
  ghost predicate IsRun(run: seq<State>, who: seq<Task>) {
    && |run| == |who| + 1 && run[0] == Init()
    && forall i {:trigger IsStep(run, who, i)} :: 0 <= i < |who| ==> IsStep(run, who, i)
  }

  ghost predicate IsStep(run: seq<State>, who: seq<Task>, i: int)
    requires 0 <= i < |who| && |run| == |who| + 1
  {
    exists call :: Next(run[i], who[i], call) == Some(run[i + 1])
  }

  lemma {:induction false} RunInv(run: seq<State>, who: seq<Task>, i: nat)
    requires IsRun(run, who) && i < |run|
    ensures Inv(run[i])
  {
    if i == 0 {
      InitInv();
    } else {
      RunInv(run, who, i - 1);
      assert IsStep(run, who, i - 1);
      var call :| Next(run[i - 1], who[i - 1], call) == Some(run[i]);
      NextInv(run[i - 1], who[i - 1], call);
    }
  }

  // At most one task has locked and not unlocked; num_locks is how often.
  lemma MutualExclusion(run: seq<State>, who: seq<Task>, i: nat, t: Task, u: Task)
    requires IsRun(run, who) && i < |run| && run[i].Depth(t) > 0
    ensures run[i].lockedBy == Some(t) && run[i].numLocks == run[i].Depth(t)
    ensures u != t ==> run[i].Depth(u) == 0
  {
    RunInv(run, who, i);
    assert TaskOk(run[i], t) && TaskOk(run[i], u);
  }

  // The checks outside of the spin lock (lines 87 and 103) find the task's own name exactly when it has locked, and no
  // step of another task changes what they find. The assertion of line 130 holds.
  lemma OwnerCheckSound(run: seq<State>, who: seq<Task>, i: nat, t: Task)
    requires IsRun(run, who) && i < |run|
             && (run[i].Pc(t).LockCheck? || run[i].Pc(t).TryCheck? || run[i].Pc(t).DecLoad?)
    ensures run[i].lockedBy == Some(t) <==> run[i].Depth(t) > 0
    ensures run[i].Pc(t) == DecLoad ==> run[i].lockedBy == Some(t)
  {
    RunInv(run, who, i);
    assert TaskOk(run[i], t);
  }

  lemma OwnerCheckStable(s: State, t: Task, u: Task, call: Call)
    requires Inv(s) && u != t && Next(s, u, call).Some?
    ensures Next(s, u, call).value.lockedBy == Some(t) <==> s.lockedBy == Some(t)
    ensures Next(s, u, call).value.Depth(t) == s.Depth(t)
    ensures s.lockedBy == Some(t) ==> Next(s, u, call).value.numLocks == s.numLocks
  {
    assert TaskOk(s, u) && TaskOk(s, t);
  }

  // The owner is not asleep, so whoever sleeps while the spin lock is free waits for a task that can go on.
  lemma NoLostWakeup(run: seq<State>, who: seq<Task>, i: nat, t: Task)
    requires IsRun(run, who) && i < |run|
    ensures run[i].Pc(t) == Asleep <==> t in run[i].waitQueue && run[i].spin != Some(t)
    ensures run[i].spin == None && run[i].waitQueue != [] ==>
              exists o: Task :: run[i].lockedBy == Some(o) && o !in run[i].waitQueue && CanGoOn(run[i], o)
    ensures run[i].spin.Some? ==> CanGoOn(run[i], run[i].spin.value)
  {
    var s := run[i];
    RunInv(run, who, i);
    assert TaskOk(s, t);
    if s.spin == None && s.waitQueue != [] {
      var o := s.lockedBy.value;
      assert TaskOk(s, o);
      assert CanGoOn(s, o);
    }
    if s.spin.Some? {
      assert TaskOk(s, s.spin.value);
      assert Next(s, s.spin.value, Lock).Some?;
    }
  }

  // The task can take a step of its call, or is outside and may unlock.
  ghost predicate CanGoOn(s: State, t: Task) {
    if s.Pc(t) == Outside then Next(s, t, Unlock).Some? else Next(s, t, Lock).Some?
  }

  lemma SleeperStep(s: State, u: Task, call: Call, t: Task)
    requires Next(s, u, call).Some? && s.Pc(t) == Asleep
    ensures Next(s, u, call).value.Pc(t) == Asleep || Next(s, u, call).value.Pc(t) == LockSpin
  {
    assert u != t;
    if Unlocking(s.Pc(u)) {
      assert UnlockStep(s, u).Some?;
    }
  }

  // Nobody is asleep when the lock is given back, so every sleeper has been woken before.
  lemma {:induction false} SleepersWoken(run: seq<State>, who: seq<Task>, i: nat, j: nat, t: Task, u: Task)
    requires IsRun(run, who) && i < j < |run| && run[i].Pc(t) == Asleep && run[j].Pc(u) == UnlockRelease
    ensures exists k: nat :: i < k <= j && run[k].Pc(t) == LockSpin
    decreases j - i
  {
    assert IsStep(run, who, i);
    var call :| Next(run[i], who[i], call) == Some(run[i + 1]);
    RunInv(run, who, i);
    SleeperStep(run[i], who[i], call, t);
    RunInv(run, who, j);
    assert TaskOk(run[j], t) && TaskOk(run[j], u);
    if run[i + 1].Pc(t) == Asleep {
      SleepersWoken(run, who, i + 1, j, t, u);
    }
  }

  // ---- The lock as its callers see it: a recursive mutex

  datatype Mutex = Free | Held(holder: Task, times: nat)

  function Abs(s: State): Mutex {
    if s.lockedBy.Some? && s.numLocks > 0 then Held(s.lockedBy.value, s.numLocks) else Free
  }

  predicate Locks(m: Mutex, n: Mutex, t: Task) {
    match m
    case Free => n == Held(t, 1)
    case Held(u, k) => u == t && n == Held(t, k + 1)
  }

  // Every step is the locking or the unlocking of a recursive mutex by the task that takes the step, or changes
  // nothing.
  lemma StepIsAtomic(s: State, t: Task, call: Call)
    requires Inv(s) && Next(s, t, call).Some?
    ensures var m, n := Abs(s), Abs(Next(s, t, call).value);
      if s.Pc(t).IncStore? then Locks(m, n, t) else if s.Pc(t).DecStore? then Locks(n, m, t) else m == n
  {
    assert TaskOk(s, t);
    assert s.lockedBy.Some? ==> TaskOk(s, s.lockedBy.value);
  }

  // So every run of the protocol is a run of the mutex.
  lemma RunRefinesMutex(run: seq<State>, who: seq<Task>, i: nat)
    requires IsRun(run, who) && i < |who|
    ensures Abs(run[0]) == Free
    ensures var m, n := Abs(run[i]), Abs(run[i + 1]); m == n || Locks(m, n, who[i]) || Locks(n, m, who[i])
  {
    RunInv(run, who, i);
    assert IsStep(run, who, i);
    var call :| Next(run[i], who[i], call) == Some(run[i + 1]);
    StepIsAtomic(run[i], who[i], call);
  }

  // ---- What a call does to its task

  // Task `t` begins a call with step `i` and comes back with step `j - 1`.
  ghost predicate IsCall(run: seq<State>, who: seq<Task>, t: Task, call: Call, i: nat, j: nat) {
    && IsRun(run, who) && i < j < |run| && who[i] == t && Next(run[i], t, call) == Some(run[i + 1])
    && run[i].Pc(t) == Outside && run[j].Pc(t) == Outside
    && forall k :: i < k < j ==> run[k].Pc(t) != Outside
  }

  // Where a task can be that has begun the call when it had locked `d` times, and has not come back.
  predicate During(call: Call, p: Pc, d: nat, depth: nat) {
    match call
    case Lock =>
      depth == d && (p.LockCheck? || p.LockSpin? || p.LockTest? || p.LockRelease? || p.Enqueue? || p.WaitRelease?
                     || p.Asleep? || p.IncLoad? || p.IncStore?)
    case TryLock =>
      depth == d && (p.TryCheck? || p.TrySpin? || p.TryTest? || p.TryRelease? || p.IncLoad? || p.IncStore?)
    case Unlock =>
      if p.DecLoad? || p.DecStore? then depth == d && d > 0
      else depth + 1 == d && Unlocking(p)
  }

  // How often it has locked when it comes back.
  predicate Done(call: Call, d: nat, depth: nat) {
    match call
    case Lock => depth == d + 1
    case TryLock => depth == d + 1 || depth == d
    case Unlock => depth + 1 == d
  }

  lemma CallBegins(s: State, t: Task, call: Call)
    requires s.Pc(t) == Outside && Next(s, t, call).Some?
    ensures var n := Next(s, t, call).value; During(call, n.Pc(t), s.Depth(t), n.Depth(t))
  {
  }

  // A step of any task while the call goes on.
  lemma CallGoesOn(s: State, u: Task, other: Call, t: Task, call: Call, d: nat)
    requires Inv(s) && Next(s, u, other).Some? && s.Pc(t) != Outside && During(call, s.Pc(t), d, s.Depth(t))
    ensures var n := Next(s, u, other).value;
      if n.Pc(t) == Outside then Done(call, d, n.Depth(t)) else During(call, n.Pc(t), d, n.Depth(t))
  {
    if u != t {
      OtherTask(s, u, other, t);
    } else if Unlocking(s.Pc(t)) {
      UnlockGoesOn(s, t, call, d);
    } else {
      LockGoesOn(s, t, call, d);
    }
  }

  // A step of another task can only wake the task.
  lemma OtherTask(s: State, u: Task, other: Call, t: Task)
    requires Inv(s) && Next(s, u, other).Some? && u != t
    ensures var n := Next(s, u, other).value;
      n.Depth(t) == s.Depth(t) && (n.Pc(t) == s.Pc(t) || (s.Pc(t) == Asleep && n.Pc(t) == LockSpin))
  {
    assert TaskOk(s, u) && TaskOk(s, t);
  }

  lemma LockGoesOn(s: State, t: Task, call: Call, d: nat)
    requires !s.Pc(t).Outside? && !Unlocking(s.Pc(t)) && LockStep(s, t).Some? && During(call, s.Pc(t), d, s.Depth(t))
    ensures var n := LockStep(s, t).value;
      if n.Pc(t) == Outside then Done(call, d, n.Depth(t)) else During(call, n.Pc(t), d, n.Depth(t))
  {
  }

  lemma UnlockGoesOn(s: State, t: Task, call: Call, d: nat)
    requires Inv(s) && Unlocking(s.Pc(t)) && UnlockStep(s, t).Some? && During(call, s.Pc(t), d, s.Depth(t))
    ensures var n := UnlockStep(s, t).value;
      if n.Pc(t) == Outside then Done(call, d, n.Depth(t)) else During(call, n.Pc(t), d, n.Depth(t))
  {
    assert TaskOk(s, t);
  }

  lemma {:induction false} CallSoFar(run: seq<State>, who: seq<Task>, t: Task, call: Call, i: nat, j: nat, k: nat)
    requires IsCall(run, who, t, call, i, j) && i < k < j
    ensures During(call, run[k].Pc(t), run[i].Depth(t), run[k].Depth(t))
    decreases k
  {
    if k == i + 1 {
      CallBegins(run[i], t, call);
    } else {
      CallSoFar(run, who, t, call, i, j, k - 1);
      CallStep(run, who, t, call, k - 1, run[i].Depth(t));
    }
  }

  lemma CallStep(run: seq<State>, who: seq<Task>, t: Task, call: Call, k: nat, d: nat)
    requires IsRun(run, who) && k < |who| && run[k].Pc(t) != Outside
    requires During(call, run[k].Pc(t), d, run[k].Depth(t))
    ensures var n := run[k + 1];
      if n.Pc(t) == Outside then Done(call, d, n.Depth(t)) else During(call, n.Pc(t), d, n.Depth(t))
  {
    RunInv(run, who, k);
    assert IsStep(run, who, k);
    var other :| Next(run[k], who[k], other) == Some(run[k + 1]);
    CallGoesOn(run[k], who[k], other, t, call, d);
  }

  // In every run a call of lock comes back with the lock, held once more often; a call of tryLock with the same or
  // without a change; and a call of unlock has undone one call.
  lemma CallEffect(run: seq<State>, who: seq<Task>, t: Task, call: Call, i: nat, j: nat)
    requires IsCall(run, who, t, call, i, j)
    ensures var d, depth := run[i].Depth(t), run[j].Depth(t);
      && (call == Lock ==> depth == d + 1 && run[j].lockedBy == Some(t))
      && (call == TryLock ==> depth == d || (depth == d + 1 && run[j].lockedBy == Some(t)))
      && (call == Unlock ==> depth == d - 1)
  {
    CallBegins(run[i], t, call);
    CallSoFar(run, who, t, call, i, j, j - 1);
    CallStep(run, who, t, call, j - 1, run[i].Depth(t));
    RunInv(run, who, j);
    assert TaskOk(run[j], t);
  }

  // Only lock waits: tryLock and unlock never join the queue and never sleep.
  lemma OnlyLockWaits(run: seq<State>, who: seq<Task>, t: Task, call: Call, i: nat, j: nat, k: nat)
    requires IsCall(run, who, t, call, i, j) && i <= k <= j && call != Lock
    ensures run[k].Pc(t) != Enqueue && run[k].Pc(t) != WaitRelease && run[k].Pc(t) != Asleep
    ensures t !in run[k].waitQueue
  {
    if i < k < j {
      CallSoFar(run, who, t, call, i, j, k);
    }
    RunInv(run, who, k);
    assert TaskOk(run[k], t);
  }

  // A call of tryLock that comes back without the lock has found it taken by another task.
  lemma {:induction false} TryLockFails(run: seq<State>, who: seq<Task>, t: Task, i: nat, j: nat)
    requires IsCall(run, who, t, TryLock, i, j) && run[j].Depth(t) == run[i].Depth(t)
    ensures exists k: nat, u: Task :: i < k < j && u != t && run[k].lockedBy == Some(u)
  {
    var k := TryReleased(run, who, t, i, j, j - 1);
    RunInv(run, who, k);
    assert TaskOk(run[k], t);
    var u := run[k].lockedBy.value;
    assert u != t && run[k].lockedBy == Some(u);
  }

  // Going back from the end of the call to the test that has failed.
  lemma {:induction false} TryReleased(run: seq<State>, who: seq<Task>, t: Task, i: nat, j: nat, m: nat)
    returns (k: nat)
    requires IsCall(run, who, t, TryLock, i, j) && i <= m < j
    requires run[m + 1].Depth(t) == run[i].Depth(t)
    requires run[m + 1].Pc(t) == Outside || run[m + 1].Pc(t) == TryRelease(false)
    ensures i < k < j && run[k].Pc(t) == TryTest && run[k].lockedBy != None
    decreases m
  {
    if m == i {
      assert false;
    } else {
      CallSoFar(run, who, t, TryLock, i, j, m);
      TryRunStep(run, who, t, m);
      if run[m].Pc(t) == TryRelease(false) {
        k := TryReleased(run, who, t, i, j, m - 1);
      } else {
        k := m;
      }
    }
  }

  lemma TryRunStep(run: seq<State>, who: seq<Task>, t: Task, m: nat)
    requires IsRun(run, who) && m < |who| && During(TryLock, run[m].Pc(t), run[m].Depth(t), run[m].Depth(t))
    ensures var s, n := run[m], run[m + 1];
      n.Depth(t) == s.Depth(t) && (n.Pc(t) == Outside || n.Pc(t) == TryRelease(false)) ==>
        s.Pc(t) == TryRelease(false) || (s.Pc(t) == TryTest && s.lockedBy != None)
  {
    RunInv(run, who, m);
    assert IsStep(run, who, m);
    var other :| Next(run[m], who[m], other) == Some(run[m + 1]);
    TryStep(run[m], who[m], other, t);
  }

  lemma TryStep(s: State, u: Task, other: Call, t: Task)
    requires Inv(s) && Next(s, u, other).Some? && During(TryLock, s.Pc(t), s.Depth(t), s.Depth(t))
    ensures var n := Next(s, u, other).value;
      n.Depth(t) == s.Depth(t) && (n.Pc(t) == Outside || n.Pc(t) == TryRelease(false)) ==>
        s.Pc(t) == TryRelease(false) || (s.Pc(t) == TryTest && s.lockedBy != None)
  {
    if u != t {
      OtherTask(s, u, other, t);
    }
  }

  // `n` steps of one task.
  function Steps(s: State, t: Task, call: Call, n: nat): Option<State> {
    if n == 0 then Some(s)
    else
      match Steps(s, t, call, n - 1)
      case None => None
      case Some(r) => Next(r, t, call)
  }

  lemma OneMoreStep(s: State, t: Task, call: Call, n: nat, r: State, q: State)
    requires Steps(s, t, call, n) == Some(r) && Next(r, t, call) == Some(q)
    ensures Steps(s, t, call, n + 1) == Some(q)
  {
    assert Steps(s, t, call, n + 1) == Next(r, t, call);
  }

  // Task 0 holds the lock.
  function Taken(): State {
    State(None, Some(0), 1, [], map[], map[0 := 1])
  }

  // Both lock and tryLock come to the test under the spin lock in three steps.
  lemma ReachesTest(call: Call, first: Pc, second: Pc, test: Pc) returns (s: State)
    requires (call == Lock && first == LockCheck && second == LockSpin && test == LockTest)
             || (call == TryLock && first == TryCheck && second == TrySpin && test == TryTest)
    ensures Steps(Taken(), 1, call, 3) == Some(s)
    ensures s.Pc(1) == test && s.lockedBy == Some(0) && s.spin == Some(1) && s.waitQueue == [] && s.Depth(1) == 0
  {
    var s0 := Taken();
    var s1 := s0.Go(1, first);
    OneMoreStep(s0, 1, call, 0, s0, s1);
    var s2 := s1.Go(1, second);
    OneMoreStep(s0, 1, call, 1, s1, s2);
    s := s2.(spin := Some(1)).Go(1, test);
    OneMoreStep(s0, 1, call, 2, s2, s);
  }

  // Task 1 falls asleep in lock.
  lemma LockSleepsExample()
    ensures exists s :: Steps(Taken(), 1, Lock, 6) == Some(s) && s.Pc(1) == Asleep && s.waitQueue == [1]
  {
    var s3 := ReachesTest(Lock, LockCheck, LockSpin, LockTest);
    var s4 := s3.Go(1, Enqueue);
    OneMoreStep(Taken(), 1, Lock, 3, s3, s4);
    var s5 := s4.(waitQueue := [1] + s4.waitQueue).Go(1, WaitRelease);
    OneMoreStep(Taken(), 1, Lock, 4, s4, s5);
    var s6 := s5.(spin := None).Go(1, Asleep);
    OneMoreStep(Taken(), 1, Lock, 5, s5, s6);
    assert s6.Pc(1) == Asleep && s6.waitQueue == [1];
  }

  // It comes back without the lock from tryLock.
  lemma TryFailsExample()
    ensures exists s :: Steps(Taken(), 1, TryLock, 5) == Some(s) && s.Pc(1) == Outside && s.Depth(1) == 0
  {
    var s3 := ReachesTest(TryLock, TryCheck, TrySpin, TryTest);
    var s4 := s3.Go(1, TryRelease(false));
    OneMoreStep(Taken(), 1, TryLock, 3, s3, s4);
    var s5 := s4.(spin := None).Go(1, Outside);
    OneMoreStep(Taken(), 1, TryLock, 4, s4, s5);
    assert s5.Pc(1) == Outside && s5.Depth(1) == 0;
  }

  lemma TakenInv()
    ensures Inv(Taken())
  {
    forall t ensures TaskOk(Taken(), t) {
    }
  }

  // A call of tryLocking that gives up has found the lock taken by another task.
  lemma TryFailsOnlyIfTaken(s: State, t: Task, call: Call)
    requires Inv(s) && s.Pc(t) == TryTest
    ensures Next(s, t, call).value.Pc(t) == TryRelease(false) <==> exists u: Task :: u != t && s.lockedBy == Some(u)
  {
    assert TaskOk(s, t);
    if s.lockedBy.Some? {
      assert s.lockedBy == Some(s.lockedBy.value);
    }
  }
}
