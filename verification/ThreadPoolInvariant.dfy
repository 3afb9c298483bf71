/** What every step of the thread pool keeps. */
module ThreadPoolInvariant {
  import opened ThreadPool

  // ---------- locks ----------

  predicate HoldsGlobal(pc: LoopPc) {
    pc.PostHold? || pc.CancelWantLoop? || pc.CancelHold?
  }

  predicate HoldsLoop(pc: LoopPc) {
    pc.CancelHold? || pc.CancelPut? || pc.DrainHold?
  }

  ghost predicate GlobalInv(s: State) {
    && (forall i :: 0 <= i < |s.workers| ==> (s.workers[i].Check? <==> s.mutex == ByWorker(i)))
    && (s.mutex.ByWorker? ==> s.mutex.i < |s.workers|)
    && (forall l :: 0 <= l < |s.loops| ==> (HoldsGlobal(s.loops[l].pc) <==> s.mutex == ByLoop(l)))
    && (s.mutex.ByLoop? ==> s.mutex.l < |s.loops|)
    && (s.cleanup.Hold? <==> s.mutex == ByCleanup)
  }

  /** The owner of the loop mutex l is where its program counter says so. */
  ghost predicate LockOk(s: State, l: nat)
    requires l < |s.loops| == |s.locks|
  {
    match s.locks[l]
    case Free => true
    case ByWorker(i) =>
      i < |s.workers| && s.workers[i].Publish? && s.workers[i].id < |s.items| && s.items[s.workers[i].id].loop == l
    case ByLoop(k) => k == l && HoldsLoop(s.loops[l].pc)
    case ByCleanup => false
  }

  ghost predicate LocksInv(s: State) {
    && |s.locks| == |s.loops|
    && (forall l {:trigger s.locks[l]} {:trigger LockOk(s, l)} :: 0 <= l < |s.loops| ==> LockOk(s, l))
    && (forall l :: 0 <= l < |s.loops| && HoldsLoop(s.loops[l].pc) ==> s.locks[l] == ByLoop(l))
    && (forall i :: 0 <= i < |s.workers| && s.workers[i].Publish? ==>
          Known(s, s.workers[i].id) && s.locks[s.items[s.workers[i].id].loop] == ByWorker(i))
  }

  // ---------- wakeups ----------

  /** Workers that idle_threads counts: in cond_wait, whether or not a signal has reached them. */
  ghost function Idlers(ws: seq<Worker>): nat {
    if ws == [] then 0 else Idlers(ws[1..]) + if ws[0].Asleep? || ws[0].Woken? then 1 else 0
  }

  /** Workers that will look at the queue before they sleep again. */
  ghost function OnTheWay(ws: seq<Worker>): nat {
    if ws == [] then 0 else OnTheWay(ws[1..]) + if ws[0].Top? || ws[0].Woken? || ws[0].Check? then 1 else 0
  }

  ghost predicate SomeAsleep(ws: seq<Worker>) {
    exists i :: 0 <= i < |ws| && ws[i].Asleep?
  }

  /** While any worker sleeps, every queued entry has a worker on the way to it. */
  ghost predicate WakeInv(s: State) {
    s.idle == Idlers(s.workers) && (SomeAsleep(s.workers) ==> |s.wq| <= OnTheWay(s.workers))
  }

  // ---------- shutdown ----------

  /** The exit message, once posted, is in the queue for good, and at its head once a worker has exited. */
  ghost predicate ExitInv(s: State) {
    && (Exit in s.wq <==> s.cleanup.Joining? || s.cleanup.Joined?)
    && (forall i :: 0 <= i < |s.workers| && s.workers[i].Exited? ==> s.wq != [] && s.wq[0] == Exit)
  }

  /** Behind the exit message stand exactly the items posted after it. */
  ghost predicate LateInv(s: State) {
    forall k {:trigger s.wq[k]} :: 0 <= k < |s.wq| && s.wq[k].Work? && s.wq[k].id < |s.items| ==>
      (s.items[s.wq[k].id].late <==> Exit in s.wq[..k])
  }

  // ---------- where the items are ----------

  ghost predicate NoDup<T>(q: seq<T>) {
    forall i, j :: 0 <= i < j < |q| ==> q[i] != q[j]
  }

  ghost predicate QueueInv(s: State) {
    && NoDup(s.wq)
    && (forall k {:trigger s.wq[k]} :: 0 <= k < |s.wq| && s.wq[k].Work? ==>
          Known(s, s.wq[k].id) && s.items[s.wq[k].id].at == Global)
  }

  predicate Holds(w: Worker) {
    w.Picked? || w.Busy? || w.Finished? || w.Publish?
  }

  ghost predicate WorkersInv(s: State) {
    forall i :: 0 <= i < |s.workers| && Holds(s.workers[i]) ==>
      Known(s, s.workers[i].id) && s.items[s.workers[i].id].at == Held(i)
  }

  ghost predicate PcOk(s: State, l: nat)
    requires l < |s.loops|
  {
    match s.loops[l].pc
    case Idle => true
    case PostWant(id) => At(s, l, id, Posting)
    case PostHold(id) => At(s, l, id, Posting)
    case CancelWant(id) => Cancelable(s, l, id)
    case CancelWantLoop(id) => Cancelable(s, l, id)
    case CancelHold(id) => Cancelable(s, l, id)
    case CancelMark(id) => At(s, l, id, InCancel)
    case CancelRewant(id) => At(s, l, id, InCancel)
    case CancelPut(id) => At(s, l, id, InCancel)
    case DrainWant => s.loops[l].batch == []
    case DrainHold => s.loops[l].batch == []
  }

  ghost predicate At(s: State, l: nat, id: nat, at: Place) {
    Known(s, id) && s.items[id].loop == l && s.items[id].at == at
  }

  /** What a caller of uv_cancel may pass; being on the loop's thread, the item is not on its way in or out. */
  ghost predicate Cancelable(s: State, l: nat, id: nat) {
    && Known(s, id) && s.items[id].loop == l
    && !s.items[id].at.Delivered? && !s.items[id].at.Posting? && !s.items[id].at.InCancel?
  }

  ghost predicate PcInv(s: State) {
    forall l {:trigger s.loops[l]} {:trigger PcOk(s, l)} :: 0 <= l < |s.loops| ==> PcOk(s, l)
  }

  ghost predicate ListOk(s: State, l: nat)
    requires l < |s.loops|
  {
    var x := s.loops[l];
    && NoDup(x.queue) && NoDup(x.batch)
    && (forall k {:trigger x.queue[k]} :: 0 <= k < |x.queue| ==> At(s, l, x.queue[k], OnLoop))
    && (forall k {:trigger x.batch[k]} :: 0 <= k < |x.batch| ==> At(s, l, x.batch[k], InBatch))
  }

  ghost predicate ListsInv(s: State) {
    forall l {:trigger s.loops[l]} {:trigger ListOk(s, l)} :: 0 <= l < |s.loops| ==> ListOk(s, l)
  }

  ghost predicate LogInv(s: State) {
    && (forall k {:trigger s.log[k]} :: 0 <= k < |s.log| ==>
          s.log[k].0 < |s.items| && s.items[s.log[k].0].at == Delivered)
    && (forall j, k {:trigger s.log[j], s.log[k]} :: 0 <= j < k < |s.log| ==> s.log[j].0 != s.log[k].0)
  }

  // ---------- what the items' fields say ----------

  ghost predicate Fresh(w: Item) {
    w.work.User? && w.starts == 0 && w.finishes == 0 && !w.cancelOk
  }

  ghost predicate Ran(w: Item) {
    w.work.Null? && w.starts == 1 && w.finishes == 1 && !w.cancelOk && !w.late
  }

  ghost predicate Stopped(w: Item) {
    w.work.Cancelled? && w.starts == 0 && w.finishes == 0 && w.cancelOk
  }

  ghost predicate ItemOk(s: State, id: nat)
    requires id < |s.items|
  {
    var w := s.items[id];
    && w.loop < |s.loops| == |s.locks|
    && match w.at
       case Posting =>
         Fresh(w) && !w.late && (s.loops[w.loop].pc == PostWant(id) || s.loops[w.loop].pc == PostHold(id))
       case Global => Fresh(w) && !w.selfLinked && Work(id) in s.wq
       case Held(i) =>
         && w.selfLinked && w.work.User? && !w.late && !w.cancelOk && i < |s.workers|
         && ((s.workers[i] == Picked(id) && w.starts == 0 && w.finishes == 0)
             || (s.workers[i] == Busy(id) && w.starts == 1 && w.finishes == 0)
             || ((s.workers[i] == Finished(id) || s.workers[i] == Publish(id)) && w.starts == 1 && w.finishes == 1))
       case InCancel =>
         && !w.selfLinked && w.starts == 0 && w.finishes == 0 && w.cancelOk
         && ((s.loops[w.loop].pc == CancelMark(id) && !w.work.Null?)
             || ((s.loops[w.loop].pc == CancelRewant(id) || s.loops[w.loop].pc == CancelPut(id)) && w.work.Cancelled?))
       case OnLoop => !w.selfLinked && (Ran(w) || Stopped(w)) && id in s.loops[w.loop].queue
       case InBatch => !w.selfLinked && (Ran(w) || Stopped(w)) && id in s.loops[w.loop].batch
       case Delivered =>
         && !w.selfLinked && (Ran(w) || Stopped(w))
         && (id, if w.work.Cancelled? then Canceled else Success) in s.log
  }

  ghost predicate ItemsInv(s: State) {
    forall id {:trigger s.items[id]} {:trigger ItemOk(s, id)} :: 0 <= id < |s.items| ==> ItemOk(s, id)
  }

  /** A completed item never waits on a loop that does not know of it. */
  ghost predicate AsyncInv(s: State) {
    forall l {:trigger s.loops[l]} :: 0 <= l < |s.loops| && s.loops[l].queue != [] ==>
      s.loops[l].pending || s.loops[l].pc.DrainWant? || s.loops[l].pc.DrainHold?
  }

  ghost predicate Inv(s: State) {
    && |s.workers| > 0
    && GlobalInv(s) && LocksInv(s) && WakeInv(s) && ExitInv(s) && LateInv(s)
    && QueueInv(s) && WorkersInv(s) && PcInv(s) && ListsInv(s) && LogInv(s) && ItemsInv(s) && AsyncInv(s)
  }

  lemma InitInv(s: State)
    requires Init(s)
    ensures Inv(s)
  {
    AllTop(s.workers);
  }

  lemma {:induction false} AllTop(ws: seq<Worker>)
    requires forall i :: 0 <= i < |ws| ==> ws[i] == Top
    ensures Idlers(ws) == 0
  {
    if ws != [] {
      AllTop(ws[1..]);
    }
  }

  // ---------- steps keep the locks ----------

  lemma WorkerKeepsGlobal(s: State, i: nat, step: WorkerStep)
    requires GlobalInv(s) && WorkerEnabled(s, i, step)
    ensures GlobalInv(WorkerApply(s, i, step))
  {
  }

  lemma LoopTakesGlobal(s: State, l: nat, step: LoopStep)
    requires GlobalInv(s) && LoopEnabled(s, l, step) && (step.PostLock? || step.CancelLock? || step.CancelLockLoop?)
    ensures GlobalInv(LoopApply(s, l, step))
  {
  }

  lemma LoopDropsGlobal(s: State, l: nat, step: LoopStep)
    requires GlobalInv(s) && LoopEnabled(s, l, step) && (step.Post? || step.CancelTest?)
    ensures GlobalInv(LoopApply(s, l, step))
  {
  }

  lemma LoopKeepsGlobal(s: State, l: nat, step: LoopStep)
    requires GlobalInv(s) && LoopEnabled(s, l, step)
    ensures GlobalInv(LoopApply(s, l, step))
  {
    if step.PostLock? || step.CancelLock? || step.CancelLockLoop? {
      LoopTakesGlobal(s, l, step);
    } else if step.Post? || step.CancelTest? {
      LoopDropsGlobal(s, l, step);
    }
  }

  lemma CleanupKeepsGlobal(s: State, step: CleanupStep)
    requires GlobalInv(s) && CleanupEnabled(s, step)
    ensures GlobalInv(CleanupApply(s, step))
  {
  }

  lemma WorkerTakesLock(s: State, i: nat)
    requires LocksInv(s) && WorkerEnabled(s, i, LockLoop)
    ensures LocksInv(WorkerApply(s, i, LockLoop))
  {
  }

  lemma WorkerDropsLock(s: State, i: nat)
    requires LocksInv(s) && WorkerEnabled(s, i, Finish)
    ensures LocksInv(WorkerApply(s, i, Finish))
  {
  }

  /** Between those two a worker does nothing a loop mutex could notice. */
  lemma WorkerLeavesLocks(s: State, i: nat, step: WorkerStep)
    requires LocksInv(s) && WorkerEnabled(s, i, step) && !step.LockLoop? && !step.Finish?
    ensures LocksInv(WorkerApply(s, i, step))
  {
    hide LocksInv;
    var s' := WorkerApply(s, i, step);
    assert s'.locks == s.locks && s'.loops == s.loops && !s.workers[i].Publish?;
    SameOwners(s, s');
  }

  lemma SameOwners(s: State, s': State)
    requires LocksInv(s) && s'.locks == s.locks && |s'.loops| == |s.loops|
    requires forall k :: 0 <= k < |s.loops| ==> (HoldsLoop(s'.loops[k].pc) <==> HoldsLoop(s.loops[k].pc))
    requires |s'.items| >= |s.items| && forall k :: 0 <= k < |s.items| ==> s'.items[k].loop == s.items[k].loop
    requires |s'.workers| == |s.workers|
    requires forall i :: 0 <= i < |s.workers| && (s.workers[i].Publish? || s'.workers[i].Publish?) ==>
               s'.workers[i] == s.workers[i]
    ensures LocksInv(s')
  {
    forall l | 0 <= l < |s'.loops|
      ensures LockOk(s', l)
    {
      assert LockOk(s, l);
    }
  }

  lemma WorkerKeepsLocks(s: State, i: nat, step: WorkerStep)
    requires LocksInv(s) && WorkerEnabled(s, i, step)
    ensures LocksInv(WorkerApply(s, i, step))
  {
    hide LocksInv;
    if step.LockLoop? {
      WorkerTakesLock(s, i);
    } else if step.Finish? {
      WorkerDropsLock(s, i);
    } else {
      WorkerLeavesLocks(s, i, step);
    }
  }

  /** Steps that touch no item and no queue. */
  predicate Quiet(step: LoopStep) {
    step.PostLock? || step.Cancel? || step.CancelLock? || step.CancelLockLoop? || step.CancelRelock?
    || step.Drain? || step.DrainLock?
  }

  /** Steps that move an item in or out. */
  predicate Moving(step: LoopStep) {
    step.Submit? || step.Post? || step.Deliver?
  }

  /** A quiet step writes one program counter, the mutexes and one pending flag. */
  lemma QuietFrame(s: State, l: nat, step: LoopStep)
    requires LoopEnabled(s, l, step) && Quiet(step)
    ensures var s' := LoopApply(s, l, step);
      && s'.items == s.items && s'.wq == s.wq && s'.workers == s.workers && s'.log == s.log && s'.cleanup == s.cleanup
      && |s'.loops| == |s.loops| && |s'.locks| == |s.locks|
      && s'.loops[l].queue == s.loops[l].queue && s'.loops[l].batch == s.loops[l].batch
      && forall k :: 0 <= k < |s.loops| && k != l ==> s'.loops[k] == s.loops[k]
  {
  }

  lemma LoopTakesLock(s: State, l: nat, step: LoopStep)
    requires LocksInv(s) && LoopEnabled(s, l, step) && (step.CancelLockLoop? || step.CancelRelock? || step.DrainLock?)
    ensures LocksInv(LoopApply(s, l, step))
  {
  }

  lemma QuietKeepsLocks(s: State, l: nat, step: LoopStep)
    requires LocksInv(s) && LoopEnabled(s, l, step) && Quiet(step)
    ensures LocksInv(LoopApply(s, l, step))
  {
    if step.CancelLockLoop? || step.CancelRelock? || step.DrainLock? {
      LoopTakesLock(s, l, step);
    } else {
      QuietFrame(s, l, step);
      assert LoopApply(s, l, step).locks == s.locks;
    }
  }

  lemma MovingKeepsLocks(s: State, l: nat, step: LoopStep)
    requires LocksInv(s) && LoopEnabled(s, l, step) && Moving(step)
    ensures LocksInv(LoopApply(s, l, step))
  {
    hide LocksInv;
    SameOwners(s, LoopApply(s, l, step));
  }

  lemma TestKeepsLocks(s: State, l: nat)
    requires LocksInv(s) && LoopEnabled(s, l, CancelTest)
    ensures LocksInv(LoopApply(s, l, CancelTest))
  {
    hide Remove;
  }

  lemma FlagKeepsLocks(s: State, l: nat)
    requires LocksInv(s) && LoopEnabled(s, l, CancelFlag)
    ensures LocksInv(LoopApply(s, l, CancelFlag))
  {
    hide LocksInv;
    SameOwners(s, LoopApply(s, l, CancelFlag));
  }

  lemma InsertKeepsLocks(s: State, l: nat, step: LoopStep)
    requires LocksInv(s) && LoopEnabled(s, l, step) && (step.CancelInsert? || step.DrainSplit?)
    ensures LocksInv(LoopApply(s, l, step))
  {
  }

  lemma CleanupKeepsLocks(s: State, step: CleanupStep)
    requires LocksInv(s) && CleanupEnabled(s, step)
    ensures LocksInv(CleanupApply(s, step))
  {
  }

  // ---------- no lost wakeup ----------

  ghost function Idles(w: Worker): nat {
    if w.Asleep? || w.Woken? then 1 else 0
  }

  ghost function Comes(w: Worker): nat {
    if w.Top? || w.Woken? || w.Check? then 1 else 0
  }

  lemma {:induction false} CountUpdate(ws: seq<Worker>, i: nat, w: Worker)
    requires i < |ws|
    ensures Idlers(ws[i := w]) == Idlers(ws) - Idles(ws[i]) + Idles(w)
    ensures OnTheWay(ws[i := w]) == OnTheWay(ws) - Comes(ws[i]) + Comes(w)
  {
    if i == 0 {
      assert ws[i := w][1..] == ws[1..];
    } else {
      assert ws[i := w][1..] == ws[1..][i - 1 := w];
      CountUpdate(ws[1..], i - 1, w);
    }
  }

  lemma {:induction false} SleeperIdles(ws: seq<Worker>, i: nat)
    requires i < |ws| && ws[i].Asleep?
    ensures Idlers(ws) > 0
  {
    if i > 0 {
      SleeperIdles(ws[1..], i - 1);
    }
  }

  /** What a signal that may have been sent does to the counts. */
  lemma SignalCounts(ws: seq<Worker>, j: nat)
    requires CanSignal(ws, j)
    ensures Idlers(Signal(ws, j)) == Idlers(ws)
    ensures SomeAsleep(ws) ==> OnTheWay(Signal(ws, j)) == OnTheWay(ws) + 1
    ensures !SomeAsleep(ws) ==> Signal(ws, j) == ws
    ensures SomeAsleep(Signal(ws, j)) ==> SomeAsleep(ws)
  {
    if SomeAsleep(ws) {
      CountUpdate(ws, j, Woken);
    }
  }

  lemma StillAsleep(ws: seq<Worker>, i: nat, w: Worker)
    requires i < |ws| && !w.Asleep?
    ensures SomeAsleep(ws[i := w]) ==> SomeAsleep(ws)
  {
  }

  lemma WorkerKeepsWake(s: State, i: nat, step: WorkerStep)
    requires WakeInv(s) && WorkerEnabled(s, i, step)
    ensures WakeInv(WorkerApply(s, i, step))
  {
    var s' := WorkerApply(s, i, step);
    if step.Quit? {
      SignalCounts(s.workers, step.j);
      CountUpdate(Signal(s.workers, step.j), i, Exited);
      StillAsleep(Signal(s.workers, step.j), i, Exited);
    } else {
      CountUpdate(s.workers, i, s'.workers[i]);
      if !step.Sleep? {
        StillAsleep(s.workers, i, s'.workers[i]);
      }
    }
  }

  lemma RemoveLength<T>(q: seq<T>, x: T)
    ensures |Remove(q, x)| <= |q|
  {
  }

  lemma LoopKeepsWake(s: State, l: nat, step: LoopStep)
    requires WakeInv(s) && LoopEnabled(s, l, step)
    ensures WakeInv(LoopApply(s, l, step))
  {
    if step.Post? {
      PostWakes(s, step.j);
    } else if step.CancelTest? {
      RemoveLength(s.wq, Work(s.loops[l].pc.id));
    }
  }

  /** post: without a worker that idle_threads counts nobody sleeps, and otherwise the signal reaches a sleeper. */
  lemma PostWakes(s: State, j: nat)
    requires WakeInv(s) && (s.idle > 0 ==> CanSignal(s.workers, j))
    ensures var ws := if s.idle > 0 then Signal(s.workers, j) else s.workers;
      s.idle == Idlers(ws) && (SomeAsleep(ws) ==> |s.wq| + 1 <= OnTheWay(ws))
  {
    if s.idle > 0 {
      SignalCounts(s.workers, j);
    } else if SomeAsleep(s.workers) {
      var k :| 0 <= k < |s.workers| && s.workers[k].Asleep?;
      SleeperIdles(s.workers, k);
    }
  }

  lemma CleanupKeepsWake(s: State, step: CleanupStep)
    requires WakeInv(s) && CleanupEnabled(s, step)
    ensures WakeInv(CleanupApply(s, step))
  {
    if step.ShutdownPost? {
      PostWakes(s, step.j);
    }
  }

  // ---------- shutdown ----------

  lemma {:induction false} RemoveMember<T>(q: seq<T>, x: T, e: T)
    requires e != x
    ensures e in Remove(q, x) <==> e in q
  {
    if q != [] {
      RemoveMember(q[1..], x, e);
    }
  }

  lemma WorkerKeepsExit(s: State, i: nat, step: WorkerStep)
    requires ExitInv(s) && WorkerEnabled(s, i, step)
    ensures ExitInv(WorkerApply(s, i, step))
  {
    if step.Take? {
      assert s.wq == [s.wq[0]] + s.wq[1..];
    }
  }

  lemma LoopKeepsExit(s: State, l: nat, step: LoopStep)
    requires ExitInv(s) && LoopEnabled(s, l, step)
    ensures ExitInv(LoopApply(s, l, step))
  {
    if step.CancelTest? {
      RemoveMember(s.wq, Work(s.loops[l].pc.id), Exit);
    }
  }

  lemma CleanupKeepsExit(s: State, step: CleanupStep)
    requires ExitInv(s) && CleanupEnabled(s, step)
    ensures ExitInv(CleanupApply(s, step))
  {
  }

  // ---------- loops and their async handles ----------

  lemma LoopKeepsAsync(s: State, l: nat, step: LoopStep)
    requires AsyncInv(s) && LoopEnabled(s, l, step)
    ensures AsyncInv(LoopApply(s, l, step))
  {
  }

  lemma WorkerKeepsAsync(s: State, i: nat, step: WorkerStep)
    requires AsyncInv(s) && WorkerEnabled(s, i, step)
    ensures AsyncInv(WorkerApply(s, i, step))
  {
  }

  // ---------- the queues and the record of places ----------

  lemma WorkerKeepsQueue(s: State, i: nat, step: WorkerStep)
    requires QueueInv(s) && WorkersInv(s) && WorkerEnabled(s, i, step)
    ensures QueueInv(WorkerApply(s, i, step))
  {
  }

  lemma WorkerKeepsWorkers(s: State, i: nat, step: WorkerStep)
    requires QueueInv(s) && WorkersInv(s) && WorkerEnabled(s, i, step)
    ensures WorkersInv(WorkerApply(s, i, step))
  {
  }

  /** A worker moves items from the global queue into its hands, and from there to their loops. */
  ghost predicate Worked(w: Item, w': Item) {
    && w'.loop == w.loop
    && (w'.at == w.at || (w.at.Global? && w'.at.Held?) || (w.at.Held? && w'.at.OnLoop?))
  }

  lemma WorkerFrame(s: State, i: nat, step: WorkerStep)
    requires QueueInv(s) && WorkersInv(s) && WorkerEnabled(s, i, step)
    ensures var s' := WorkerApply(s, i, step);
      && |s'.loops| == |s.loops| && |s'.locks| == |s.locks| && |s'.items| == |s.items|
      && (forall k :: 0 <= k < |s.loops| ==>
            s'.loops[k].pc == s.loops[k].pc && s'.loops[k].batch == s.loops[k].batch)
      && (forall x :: 0 <= x < |s.items| ==> Worked(s.items[x], s'.items[x]))
  {
  }

  lemma WorkerKeepsPc(s: State, i: nat, step: WorkerStep)
    requires QueueInv(s) && WorkersInv(s) && PcInv(s) && WorkerEnabled(s, i, step)
    ensures PcInv(WorkerApply(s, i, step))
  {
    hide WorkerApply, QueueInv, WorkersInv;
    WorkerFrame(s, i, step);
    forall l | 0 <= l < |s.loops|
      ensures PcOk(WorkerApply(s, i, step), l)
    {
      assert PcOk(s, l);
    }
  }

  /** A loop's lists stay in order while the loop and the items on its lists stay as they are. */
  lemma SameList(s: State, s': State, l: nat)
    requires l < |s.loops| && ListOk(s, l)
    requires |s'.loops| == |s.loops| && |s'.locks| == |s.locks| && |s'.items| >= |s.items|
    requires s'.loops[l].queue == s.loops[l].queue && s'.loops[l].batch == s.loops[l].batch
    requires forall x {:trigger s.items[x]} ::
               0 <= x < |s.items| && s.items[x].loop == l && (s.items[x].at.OnLoop? || s.items[x].at.InBatch?) ==>
                 s'.items[x].loop == l && s'.items[x].at == s.items[x].at
    ensures ListOk(s', l)
  {
    hide NoDup;
  }

  /** An item that joins the end of a loop's list. */
  lemma LongerList(s: State, s': State, l: nat, id: nat)
    requires l < |s.loops| && ListOk(s, l)
    requires |s'.loops| == |s.loops| && |s'.locks| == |s.locks| && |s'.items| == |s.items|
    requires At(s', l, id, OnLoop) && !s.items[id].at.OnLoop? && !s.items[id].at.InBatch?
    requires s'.loops[l].queue == s.loops[l].queue + [id] && s'.loops[l].batch == s.loops[l].batch
    requires forall x {:trigger s'.items[x]} :: 0 <= x < |s.items| && x != id ==> s'.items[x] == s.items[x]
    ensures ListOk(s', l)
  {
  }

  lemma FinishKeepsLists(s: State, i: nat)
    requires QueueInv(s) && WorkersInv(s) && ListsInv(s) && WorkerEnabled(s, i, Finish)
    ensures ListsInv(WorkerApply(s, i, Finish))
  {
    hide ListOk;
    var s' := WorkerApply(s, i, Finish);
    var id := s.workers[i].id;
    LongerList(s, s', s.items[id].loop, id);
    forall l | 0 <= l < |s.loops| && l != s.items[id].loop
      ensures ListOk(s', l)
    {
      SameList(s, s', l);
    }
  }

  lemma WorkerKeepsLists(s: State, i: nat, step: WorkerStep)
    requires QueueInv(s) && WorkersInv(s) && ListsInv(s) && WorkerEnabled(s, i, step)
    ensures ListsInv(WorkerApply(s, i, step))
  {
    hide ListOk, QueueInv, WorkersInv;
    if step.Finish? {
      FinishKeepsLists(s, i);
    } else {
      var s' := WorkerApply(s, i, step);
      WorkerFrame(s, i, step);
      assert s'.loops == s.loops;
      forall l | 0 <= l < |s.loops|
        ensures ListOk(s', l)
      {
        SameList(s, s', l);
      }
    }
  }

  lemma WorkerKeepsLate(s: State, i: nat, step: WorkerStep)
    requires LateInv(s) && QueueInv(s) && WorkersInv(s) && WorkerEnabled(s, i, step)
    ensures LateInv(WorkerApply(s, i, step))
  {
    if step.Take? {
      TailPrefixes(s.wq);
    }
  }

  lemma WorkerKeepsLog(s: State, i: nat, step: WorkerStep)
    requires QueueInv(s) && WorkersInv(s) && LogInv(s) && WorkerEnabled(s, i, step)
    ensures LogInv(WorkerApply(s, i, step))
  {
  }

  lemma WorkerKeepsItem(s: State, i: nat, step: WorkerStep, x: nat)
    requires WorkersInv(s) && ItemsInv(s) && WorkerEnabled(s, i, step) && !step.Take? && x < |s.items|
    ensures ItemOk(WorkerApply(s, i, step), x)
  {
    assert ItemOk(s, x);
  }

  lemma WorkerKeepsItems(s: State, i: nat, step: WorkerStep)
    requires WorkersInv(s) && ItemsInv(s) && WorkerEnabled(s, i, step) && !step.Take?
    ensures ItemsInv(WorkerApply(s, i, step))
  {
    hide WorkersInv, ItemOk;
    forall x | 0 <= x < |s.items|
      ensures ItemOk(WorkerApply(s, i, step), x)
    {
      WorkerKeepsItem(s, i, step, x);
    }
  }

  lemma QuietKeepsQueue(s: State, l: nat, step: LoopStep)
    requires QueueInv(s) && PcInv(s) && ListsInv(s) && LoopEnabled(s, l, step) && Quiet(step)
    ensures QueueInv(LoopApply(s, l, step))
  {
    hide LoopApply;
    QuietFrame(s, l, step);
  }

  lemma MovingKeepsQueue(s: State, l: nat, step: LoopStep)
    requires QueueInv(s) && PcInv(s) && ListsInv(s) && LoopEnabled(s, l, step) && Moving(step)
    ensures QueueInv(LoopApply(s, l, step))
  {
  }

  lemma OtherKeepsQueue(s: State, l: nat, step: LoopStep)
    requires QueueInv(s) && PcInv(s) && ListsInv(s) && LoopEnabled(s, l, step) && !Quiet(step) && !Moving(step)
    requires !step.CancelTest?
    ensures QueueInv(LoopApply(s, l, step))
  {
  }

  lemma QuietKeepsWorkers(s: State, l: nat, step: LoopStep)
    requires WorkersInv(s) && PcInv(s) && ListsInv(s) && LoopEnabled(s, l, step) && Quiet(step)
    ensures WorkersInv(LoopApply(s, l, step))
  {
    hide LoopApply;
    QuietFrame(s, l, step);
  }

  lemma MovingKeepsWorkers(s: State, l: nat, step: LoopStep)
    requires WorkersInv(s) && PcInv(s) && ListsInv(s) && LoopEnabled(s, l, step) && Moving(step)
    ensures WorkersInv(LoopApply(s, l, step))
  {
  }

  lemma OtherKeepsWorkers(s: State, l: nat, step: LoopStep)
    requires WorkersInv(s) && PcInv(s) && ListsInv(s) && LoopEnabled(s, l, step) && !Quiet(step) && !Moving(step)
    requires !step.CancelTest?
    ensures WorkersInv(LoopApply(s, l, step))
  {
  }

  lemma CancelKeepsPc(s: State, l: nat, step: LoopStep)
    requires PcInv(s) && ListsInv(s) && ItemsInv(s) && LoopEnabled(s, l, step) && step.Cancel?
    ensures PcInv(LoopApply(s, l, step))
  {
  }

  lemma QuietKeepsPc(s: State, l: nat, step: LoopStep)
    requires PcInv(s) && LoopEnabled(s, l, step) && Quiet(step) && !step.Cancel?
    ensures PcInv(LoopApply(s, l, step))
  {
    QuietFrame(s, l, step);
    assert PcOk(s, l);
    forall k | 0 <= k < |s.loops|
      ensures PcOk(LoopApply(s, l, step), k)
    {
      assert PcOk(s, k);
    }
  }

  lemma MovingKeepsPc(s: State, l: nat, step: LoopStep)
    requires PcInv(s) && ListsInv(s) && ItemsInv(s) && LoopEnabled(s, l, step) && Moving(step)
    ensures PcInv(LoopApply(s, l, step))
  {
  }

  lemma OtherKeepsPc(s: State, l: nat, step: LoopStep)
    requires PcInv(s) && ListsInv(s) && ItemsInv(s) && LoopEnabled(s, l, step) && !Quiet(step) && !Moving(step)
    requires !step.CancelTest?
    ensures PcInv(LoopApply(s, l, step))
  {
  }

  lemma QuietKeepsLists(s: State, l: nat, step: LoopStep)
    requires ListsInv(s) && PcInv(s) && LoopEnabled(s, l, step) && Quiet(step)
    ensures ListsInv(LoopApply(s, l, step))
  {
    hide LoopApply, ListOk;
    QuietFrame(s, l, step);
    forall k | 0 <= k < |s.loops|
      ensures ListOk(LoopApply(s, l, step), k)
    {
      SameList(s, LoopApply(s, l, step), k);
    }
  }

  lemma EntryKeepsLists(s: State, l: nat, step: LoopStep)
    requires ListsInv(s) && PcInv(s) && LoopEnabled(s, l, step) && (step.Submit? || step.Post?)
    ensures ListsInv(LoopApply(s, l, step))
  {
    hide ListOk;
    var s' := LoopApply(s, l, step);
    assert PcOk(s, l);
    forall k | 0 <= k < |s.loops|
      ensures ListOk(s', k)
    {
      SameList(s, s', k);
    }
  }

  lemma DeliverKeepsList(s: State, l: nat)
    requires l < |s.loops| && ListOk(s, l) && LoopEnabled(s, l, Deliver)
    ensures ListOk(LoopApply(s, l, Deliver), l)
  {
  }

  lemma DeliverKeepsLists(s: State, l: nat)
    requires ListsInv(s) && LoopEnabled(s, l, Deliver)
    ensures ListsInv(LoopApply(s, l, Deliver))
  {
    hide ListOk;
    var s' := LoopApply(s, l, Deliver);
    DeliverKeepsList(s, l);
    BatchedHere(s, l);
    forall k | 0 <= k < |s.loops| && k != l
      ensures ListOk(s', k)
    {
      SameList(s, s', k);
    }
  }

  lemma BatchedHere(s: State, l: nat)
    requires l < |s.loops| && ListOk(s, l) && s.loops[l].batch != []
    ensures At(s, l, s.loops[l].batch[0], InBatch)
  {
  }

  lemma FlagKeepsLists(s: State, l: nat)
    requires ListsInv(s) && PcInv(s) && LoopEnabled(s, l, CancelFlag)
    ensures ListsInv(LoopApply(s, l, CancelFlag))
  {
    hide ListOk;
    assert PcOk(s, l);
    forall k | 0 <= k < |s.loops|
      ensures ListOk(LoopApply(s, l, CancelFlag), k)
    {
      SameList(s, LoopApply(s, l, CancelFlag), k);
    }
  }

  lemma InsertKeepsLists(s: State, l: nat)
    requires ListsInv(s) && PcInv(s) && LoopEnabled(s, l, CancelInsert)
    ensures ListsInv(LoopApply(s, l, CancelInsert))
  {
    hide ListOk;
    var s' := LoopApply(s, l, CancelInsert);
    assert PcOk(s, l);
    LongerList(s, s', l, s.loops[l].pc.id);
    forall k | 0 <= k < |s.loops| && k != l
      ensures ListOk(s', k)
    {
      SameList(s, s', k);
    }
  }

  lemma SplitKeepsLists(s: State, l: nat, step: LoopStep)
    requires ListsInv(s) && PcInv(s) && LoopEnabled(s, l, step) && step.DrainSplit?
    ensures ListsInv(LoopApply(s, l, step))
  {
  }

  lemma QuietKeepsLog(s: State, l: nat, step: LoopStep)
    requires LogInv(s) && PcInv(s) && ListsInv(s) && LoopEnabled(s, l, step) && Quiet(step)
    ensures LogInv(LoopApply(s, l, step))
  {
    hide LoopApply;
    QuietFrame(s, l, step);
  }

  lemma MovingKeepsLog(s: State, l: nat, step: LoopStep)
    requires LogInv(s) && PcInv(s) && ListsInv(s) && LoopEnabled(s, l, step) && Moving(step)
    ensures LogInv(LoopApply(s, l, step))
  {
  }

  lemma OtherKeepsLog(s: State, l: nat, step: LoopStep)
    requires LogInv(s) && PcInv(s) && ListsInv(s) && LoopEnabled(s, l, step) && !Quiet(step) && !Moving(step)
    requires !step.CancelTest?
    ensures LogInv(LoopApply(s, l, step))
  {
  }

  lemma QuietKeepsItem(s: State, l: nat, step: LoopStep, x: nat)
    requires ItemsInv(s) && LoopEnabled(s, l, step) && Quiet(step) && x < |s.items|
    ensures ItemOk(LoopApply(s, l, step), x)
  {
    QuietFrame(s, l, step);
    assert ItemOk(s, x);
  }

  lemma QuietKeepsItems(s: State, l: nat, step: LoopStep)
    requires ItemsInv(s) && LoopEnabled(s, l, step) && Quiet(step)
    ensures ItemsInv(LoopApply(s, l, step))
  {
    hide ItemOk;
    forall x | 0 <= x < |s.items|
      ensures ItemOk(LoopApply(s, l, step), x)
    {
      QuietKeepsItem(s, l, step, x);
    }
  }

  lemma SubmitKeepsItems(s: State, l: nat, step: LoopStep)
    requires PcInv(s) && ItemsInv(s) && LoopEnabled(s, l, step) && step.Submit?
    ensures ItemsInv(LoopApply(s, l, step))
  {
  }

  lemma PostKeepsItems(s: State, l: nat, step: LoopStep)
    requires PcInv(s) && ItemsInv(s) && LoopEnabled(s, l, step) && step.Post?
    ensures ItemsInv(LoopApply(s, l, step))
  {
  }

  lemma DeliverKeepsItem(s: State, l: nat, x: nat)
    requires ListsInv(s) && ItemsInv(s) && LoopEnabled(s, l, Deliver) && x < |s.items|
    ensures ItemOk(LoopApply(s, l, Deliver), x)
  {
    hide NoDup;
    assert ListOk(s, l);
    assert ItemOk(s, x) && ItemOk(s, s.loops[l].batch[0]);
    assert s.loops[l].batch == [s.loops[l].batch[0]] + s.loops[l].batch[1..];
  }

  lemma DeliverKeepsItems(s: State, l: nat)
    requires ListsInv(s) && ItemsInv(s) && LoopEnabled(s, l, Deliver)
    ensures ItemsInv(LoopApply(s, l, Deliver))
  {
    hide ListsInv, ItemOk;
    forall x | 0 <= x < |s.items|
      ensures ItemOk(LoopApply(s, l, Deliver), x)
    {
      DeliverKeepsItem(s, l, x);
    }
  }

  lemma StopKeepsItem(s: State, l: nat, step: LoopStep, x: nat)
    requires PcInv(s) && ItemsInv(s) && LoopEnabled(s, l, step) && (step.CancelFlag? || step.CancelInsert?)
    requires x < |s.items|
    ensures ItemOk(LoopApply(s, l, step), x)
  {
    assert PcOk(s, l);
    assert ItemOk(s, x);
  }

  lemma StopKeepsItems(s: State, l: nat, step: LoopStep)
    requires PcInv(s) && ItemsInv(s) && LoopEnabled(s, l, step) && (step.CancelFlag? || step.CancelInsert?)
    ensures ItemsInv(LoopApply(s, l, step))
  {
    hide PcInv, ItemOk;
    forall x | 0 <= x < |s.items|
      ensures ItemOk(LoopApply(s, l, step), x)
    {
      StopKeepsItem(s, l, step, x);
    }
  }

  lemma QueuedOnLoop(s: State, l: nat, x: nat)
    requires ListsInv(s) && l < |s.loops| && x in s.loops[l].queue
    ensures At(s, l, x, OnLoop)
  {
    var q := s.loops[l].queue;
    var k :| 0 <= k < |q| && q[k] == x;
    assert At(s, l, q[k], OnLoop);
  }

  /** What uv__work_done's split writes. */
  lemma SplitFrame(s: State, l: nat, x: nat)
    requires LoopEnabled(s, l, DrainSplit) && x < |s.items|
    ensures var s' := LoopApply(s, l, DrainSplit);
      && s'.wq == s.wq && s'.workers == s.workers && s'.log == s.log
      && |s'.loops| == |s.loops| == |s'.locks| && |s'.items| == |s.items|
      && s'.items[x] == (if x in s.loops[l].queue then s.items[x].(at := InBatch) else s.items[x])
      && s'.loops[l] == Loop(Idle, [], s.loops[l].queue, s.loops[l].pending)
      && forall k :: 0 <= k < |s.loops| && k != l ==> s'.loops[k] == s.loops[k]
  {
  }

  lemma SplitKeepsItem(s: State, l: nat, x: nat)
    requires PcInv(s) && ListsInv(s) && ItemsInv(s) && LoopEnabled(s, l, DrainSplit) && x < |s.items|
    ensures ItemOk(LoopApply(s, l, DrainSplit), x)
  {
    hide ListsInv, LoopApply;
    SplitFrame(s, l, x);
    assert ItemOk(s, x) && PcOk(s, l);
    if x in s.loops[l].queue {
      QueuedOnLoop(s, l, x);
    }
  }

  lemma SplitKeepsItems(s: State, l: nat)
    requires PcInv(s) && ListsInv(s) && ItemsInv(s) && LoopEnabled(s, l, DrainSplit)
    ensures ItemsInv(LoopApply(s, l, DrainSplit))
  {
    hide PcInv, ListsInv, ItemOk;
    forall x | 0 <= x < |s.items|
      ensures ItemOk(LoopApply(s, l, DrainSplit), x)
    {
      SplitKeepsItem(s, l, x);
    }
  }

  lemma QuietKeepsLate(s: State, l: nat, step: LoopStep)
    requires LateInv(s) && QueueInv(s) && PcInv(s) && ListsInv(s) && ExitInv(s) && LoopEnabled(s, l, step)
    requires Quiet(step)
    ensures LateInv(LoopApply(s, l, step))
  {
    hide LoopApply;
    QuietFrame(s, l, step);
  }

  lemma MovingKeepsLate(s: State, l: nat, step: LoopStep)
    requires LateInv(s) && QueueInv(s) && PcInv(s) && ListsInv(s) && ExitInv(s) && LoopEnabled(s, l, step)
    requires Moving(step)
    ensures LateInv(LoopApply(s, l, step))
  {
    PrefixesAppend(s.wq, Work(if step.Post? then s.loops[l].pc.id else 0));
  }

  lemma OtherKeepsLate(s: State, l: nat, step: LoopStep)
    requires LateInv(s) && QueueInv(s) && PcInv(s) && ListsInv(s) && ExitInv(s) && LoopEnabled(s, l, step)
    requires !Quiet(step) && !Moving(step) && !step.CancelTest?
    ensures LateInv(LoopApply(s, l, step))
  {
  }

  // ---------- the cancel test ----------

  lemma {:induction false} RemoveAt<T>(q: seq<T>, x: T) returns (k: nat)
    ensures x !in q ==> Remove(q, x) == q
    ensures x in q ==> k < |q| && q[k] == x && Remove(q, x) == q[..k] + q[k + 1..]
  {
    k := 0;
    if q != [] && q[0] != x {
      var k' := RemoveAt(q[1..], x);
      k := k' + 1;
      assert q == [q[0]] + q[1..];
      if x in q {
        Shift(q, k');
      }
    }
  }

  lemma Shift<T>(q: seq<T>, k: nat)
    requires k + 1 < |q|
    ensures [q[0]] + (q[1..][..k] + q[1..][k + 1..]) == q[..k + 1] + q[k + 2..]
  {
  }

  lemma RemoveFacts<T>(q: seq<T>, x: T)
    requires NoDup(q)
    ensures NoDup(Remove(q, x)) && x !in Remove(q, x)
    ensures forall e :: e != x ==> (e in Remove(q, x) <==> e in q)
  {
    var k := RemoveAt(q, x);
  }

  /** Where the item is when the test passes: still queued, or cancelled before. */
  lemma TestedPlace(s: State, l: nat)
    requires PcInv(s) && ItemsInv(s) && l < |s.loops| == |s.locks| && s.loops[l].pc.CancelHold?
    ensures var id := s.loops[l].pc.id;
      && Cancelable(s, l, id)
      && (CancelTestPasses(s.items[id]) <==> s.items[id].at.Global? || Stopped(s.items[id]))
      && (CancelTestPasses(s.items[id]) ==> s.items[id].at.Global? || s.items[id].at.OnLoop? || s.items[id].at.InBatch?)
  {
    assert PcOk(s, l);
    assert ItemOk(s, s.loops[l].pc.id);
  }

  lemma TestKeepsQueue(s: State, l: nat)
    requires PcInv(s) && ItemsInv(s) && QueueInv(s) && LoopEnabled(s, l, CancelTest)
    ensures QueueInv(LoopApply(s, l, CancelTest))
  {
    TestedPlace(s, l);
    var id := s.loops[l].pc.id;
    RemoveFacts(s.wq, Work(id));
    var r := Remove(s.wq, Work(id));
    forall k {:trigger r[k]} | 0 <= k < |r| && r[k].Work?
      ensures r[k].id != id && Known(s, r[k].id) && s.items[r[k].id].at == Global
    {
      assert r[k] in r;
      var n :| 0 <= n < |s.wq| && s.wq[n] == r[k];
    }
  }

  lemma TestKeepsWorkers(s: State, l: nat)
    requires PcInv(s) && ItemsInv(s) && WorkersInv(s) && LoopEnabled(s, l, CancelTest)
    ensures WorkersInv(LoopApply(s, l, CancelTest))
  {
    TestedPlace(s, l);
  }

  lemma TestKeepsPc(s: State, l: nat)
    requires PcInv(s) && ItemsInv(s) && LoopEnabled(s, l, CancelTest)
    ensures PcInv(LoopApply(s, l, CancelTest))
  {
    TestedPlace(s, l);
  }

  /** The other members of a list keep their place when id is taken off it. */
  lemma RemoveKeepsList(s: State, s': State, l: nat, q: seq<nat>, id: nat, at: Place)
    requires NoDup(q) && forall k {:trigger q[k]} :: 0 <= k < |q| ==> At(s, l, q[k], at)
    requires id < |s.items| && |s'.items| == |s.items| && |s'.loops| == |s.loops| && |s'.locks| == |s.locks|
    requires forall x {:trigger s'.items[x]} :: 0 <= x < |s.items| && x != id ==> s'.items[x] == s.items[x]
    ensures NoDup(Remove(q, id))
    ensures forall k {:trigger Remove(q, id)[k]} :: 0 <= k < |Remove(q, id)| ==> At(s', l, Remove(q, id)[k], at)
  {
    RemoveFacts(q, id);
    var r := Remove(q, id);
    forall k {:trigger r[k]} | 0 <= k < |r|
      ensures At(s', l, r[k], at)
    {
      assert r[k] in r;
      var n :| 0 <= n < |q| && q[n] == r[k];
    }
  }

  lemma TestKeepsLists(s: State, l: nat)
    requires PcInv(s) && ItemsInv(s) && ListsInv(s) && LoopEnabled(s, l, CancelTest)
    ensures ListsInv(LoopApply(s, l, CancelTest))
  {
    TestedPlace(s, l);
    var id, s' := s.loops[l].pc.id, LoopApply(s, l, CancelTest);
    if CancelTestPasses(s.items[id]) {
      hide PcInv, ItemsInv, Remove;
      RemoveKeepsList(s, s', l, s.loops[l].queue, id, OnLoop);
      RemoveKeepsList(s, s', l, s.loops[l].batch, id, InBatch);
    }
  }

  lemma TestKeepsLog(s: State, l: nat)
    requires PcInv(s) && ItemsInv(s) && LogInv(s) && LoopEnabled(s, l, CancelTest)
    ensures LogInv(LoopApply(s, l, CancelTest))
  {
    TestedPlace(s, l);
  }

  lemma TestKeepsItem(s: State, l: nat, x: nat)
    requires PcInv(s) && ItemsInv(s) && QueueInv(s) && ListsInv(s) && LoopEnabled(s, l, CancelTest) && x < |s.items|
    ensures ItemOk(LoopApply(s, l, CancelTest), x)
  {
    hide Remove, NoDup;
    TestedPlace(s, l);
    var id := s.loops[l].pc.id;
    assert ItemOk(s, x) && ItemOk(s, id);
    if CancelTestPasses(s.items[id]) {
      RemoveFacts(s.loops[l].queue, id);
      RemoveFacts(s.loops[l].batch, id);
      RemoveFacts(s.wq, Work(id));
    }
  }

  lemma TestKeepsItems(s: State, l: nat)
    requires PcInv(s) && ItemsInv(s) && QueueInv(s) && ListsInv(s) && LoopEnabled(s, l, CancelTest)
    ensures ItemsInv(LoopApply(s, l, CancelTest))
  {
    hide PcInv, QueueInv, ListsInv, ItemOk;
    forall x | 0 <= x < |s.items|
      ensures ItemOk(LoopApply(s, l, CancelTest), x)
    {
      TestKeepsItem(s, l, x);
    }
  }

  lemma TestKeepsLate(s: State, l: nat)
    requires PcInv(s) && ItemsInv(s) && LateInv(s) && QueueInv(s) && LoopEnabled(s, l, CancelTest)
    ensures LateInv(LoopApply(s, l, CancelTest))
  {
    TestedPlace(s, l);
    RemoveFacts(s.wq, Work(s.loops[l].pc.id));
    RemovePrefixes(s.wq, s.loops[l].pc.id);
  }

  /** Removing a work entry keeps which entries have the exit message in front of them. */
  lemma RemovePrefixes(q: seq<Entry>, id: nat)
    ensures forall m {:trigger Remove(q, Work(id))[m]} :: 0 <= m < |Remove(q, Work(id))| ==>
              exists n :: 0 <= n < |q| && q[n] == Remove(q, Work(id))[m] && (Exit in q[..n] <==> Exit in Remove(q, Work(id))[..m])
  {
    var k := RemoveAt(q, Work(id));
    var r := Remove(q, Work(id));
    forall m {:trigger r[m]} | 0 <= m < |r|
      ensures exists n :: 0 <= n < |q| && q[n] == r[m] && (Exit in q[..n] <==> Exit in r[..m])
    {
      if Work(id) !in q || m < k {
        assert q[..m] == r[..m] && q[m] == r[m];
      } else {
        assert q[..m + 1] == q[..k] + [q[k]] + q[k + 1..m + 1];
        assert r[..m] == q[..k] + q[k + 1..m + 1];
        assert q[m + 1] == r[m];
      }
    }
  }

  lemma PrefixesAppend(q: seq<Entry>, e: Entry)
    ensures forall k {:trigger (q + [e])[..k]} :: 0 <= k <= |q| ==> (q + [e])[..k] == q[..k]
  {
  }

  lemma TailPrefixes(q: seq<Entry>)
    requires q != [] && q[0].Work?
    ensures forall k {:trigger q[1..][..k]} :: 0 <= k < |q| ==> (Exit in q[1..][..k] <==> Exit in q[..k + 1])
  {
    forall k {:trigger q[1..][..k]} | 0 <= k < |q|
      ensures Exit in q[1..][..k] <==> Exit in q[..k + 1]
    {
      assert q[..k + 1] == [q[0]] + q[1..][..k];
    }
  }

  // ---------- the remaining steps, and all together ----------

  lemma TakeKeepsItems(s: State, i: nat)
    requires QueueInv(s) && WorkersInv(s) && ItemsInv(s) && LateInv(s) && WorkerEnabled(s, i, Take)
    ensures ItemsInv(WorkerApply(s, i, Take))
  {
    var id := s.wq[0].id;
    assert ItemOk(s, id) && !s.items[id].late;
    assert s.wq == [s.wq[0]] + s.wq[1..];
  }

  lemma CleanupKeepsQueue(s: State, step: CleanupStep)
    requires QueueInv(s) && WorkersInv(s) && ExitInv(s) && CleanupEnabled(s, step)
    ensures QueueInv(CleanupApply(s, step)) && WorkersInv(CleanupApply(s, step))
  {
  }

  lemma CleanupKeepsLists(s: State, step: CleanupStep)
    requires ListsInv(s) && CleanupEnabled(s, step)
    ensures ListsInv(CleanupApply(s, step))
  {
    hide ListOk;
    forall l | 0 <= l < |s.loops|
      ensures ListOk(CleanupApply(s, step), l)
    {
      SameList(s, CleanupApply(s, step), l);
    }
  }

  lemma CleanupKeepsLoops(s: State, step: CleanupStep)
    requires PcInv(s) && LogInv(s) && AsyncInv(s) && CleanupEnabled(s, step)
    ensures PcInv(CleanupApply(s, step)) && LogInv(CleanupApply(s, step)) && AsyncInv(CleanupApply(s, step))
  {
    forall l | 0 <= l < |s.loops|
      ensures PcOk(CleanupApply(s, step), l)
    {
      assert PcOk(s, l);
    }
  }

  lemma CleanupKeepsItems(s: State, step: CleanupStep)
    requires ItemsInv(s) && LateInv(s) && QueueInv(s) && CleanupEnabled(s, step)
    ensures ItemsInv(CleanupApply(s, step)) && LateInv(CleanupApply(s, step))
  {
    PrefixesAppend(s.wq, Exit);
  }

  lemma WorkerKeeps(s: State, i: nat, step: WorkerStep)
    requires Inv(s) && WorkerEnabled(s, i, step)
    ensures Inv(WorkerApply(s, i, step))
  {
    hide GlobalInv, LocksInv, WakeInv, ExitInv, LateInv, QueueInv, WorkersInv, PcInv, ListsInv, LogInv, ItemsInv,
         AsyncInv;
    WorkerKeepsGlobal(s, i, step);
    WorkerKeepsLocks(s, i, step);
    WorkerKeepsWake(s, i, step);
    WorkerKeepsExit(s, i, step);
    WorkerKeepsLate(s, i, step);
    WorkerKeepsQueue(s, i, step);
    WorkerKeepsWorkers(s, i, step);
    WorkerKeepsPc(s, i, step);
    WorkerKeepsLists(s, i, step);
    WorkerKeepsLog(s, i, step);
    WorkerKeepsAsync(s, i, step);
    if step.Take? {
      TakeKeepsItems(s, i);
    } else {
      WorkerKeepsItems(s, i, step);
    }
  }

  /** The part of the invariant that the lemmas below prove step by step. */
  ghost predicate PlacesInv(s: State) {
    LocksInv(s) && LateInv(s) && QueueInv(s) && WorkersInv(s) && PcInv(s) && ListsInv(s) && LogInv(s) && ItemsInv(s)
  }

  lemma QuietKeeps(s: State, l: nat, step: LoopStep)
    requires Inv(s) && LoopEnabled(s, l, step) && Quiet(step)
    ensures PlacesInv(LoopApply(s, l, step))
  {
    hide GlobalInv, LocksInv, WakeInv, ExitInv, LateInv, QueueInv, WorkersInv, PcInv, ListsInv, LogInv, ItemsInv,
         AsyncInv, LoopApply;
    QuietKeepsLocks(s, l, step);
    QuietKeepsQueue(s, l, step);
    QuietKeepsWorkers(s, l, step);
    if step.Cancel? {
      CancelKeepsPc(s, l, step);
    } else {
      QuietKeepsPc(s, l, step);
    }
    QuietKeepsLists(s, l, step);
    QuietKeepsLog(s, l, step);
    QuietKeepsItems(s, l, step);
    QuietKeepsLate(s, l, step);
  }

  lemma MovingKeeps(s: State, l: nat, step: LoopStep)
    requires Inv(s) && LoopEnabled(s, l, step) && Moving(step)
    ensures PlacesInv(LoopApply(s, l, step))
  {
    hide GlobalInv, LocksInv, WakeInv, ExitInv, LateInv, QueueInv, WorkersInv, PcInv, ListsInv, LogInv, ItemsInv,
         AsyncInv, LoopApply;
    MovingKeepsLocks(s, l, step);
    MovingKeepsQueue(s, l, step);
    MovingKeepsWorkers(s, l, step);
    MovingKeepsPc(s, l, step);
    MovingKeepsLog(s, l, step);
    MovingKeepsLate(s, l, step);
    if step.Deliver? {
      DeliverKeepsLists(s, l);
      DeliverKeepsItems(s, l);
    } else if step.Post? {
      EntryKeepsLists(s, l, step);
      PostKeepsItems(s, l, step);
    } else {
      EntryKeepsLists(s, l, step);
      SubmitKeepsItems(s, l, step);
    }
  }

  lemma TestKeeps(s: State, l: nat)
    requires Inv(s) && LoopEnabled(s, l, CancelTest)
    ensures PlacesInv(LoopApply(s, l, CancelTest))
  {
    hide GlobalInv, LocksInv, WakeInv, ExitInv, LateInv, QueueInv, WorkersInv, PcInv, ListsInv, LogInv, ItemsInv,
         AsyncInv, LoopApply;
    TestKeepsLocks(s, l);
    TestKeepsQueue(s, l);
    TestKeepsWorkers(s, l);
    TestKeepsPc(s, l);
    TestKeepsLists(s, l);
    TestKeepsLog(s, l);
    TestKeepsItems(s, l);
    TestKeepsLate(s, l);
  }

  lemma OtherKeeps(s: State, l: nat, step: LoopStep)
    requires Inv(s) && LoopEnabled(s, l, step) && !Quiet(step) && !Moving(step) && !step.CancelTest?
    ensures PlacesInv(LoopApply(s, l, step))
  {
    hide GlobalInv, LocksInv, WakeInv, ExitInv, LateInv, QueueInv, WorkersInv, PcInv, ListsInv, LogInv, ItemsInv,
         AsyncInv, LoopApply;
    OtherKeepsQueue(s, l, step);
    OtherKeepsWorkers(s, l, step);
    OtherKeepsPc(s, l, step);
    OtherKeepsLog(s, l, step);
    OtherKeepsLate(s, l, step);
    if step.DrainSplit? {
      InsertKeepsLocks(s, l, step);
      SplitKeepsLists(s, l, step);
      SplitKeepsItems(s, l);
    } else if step.CancelFlag? {
      FlagKeepsLocks(s, l);
      FlagKeepsLists(s, l);
      StopKeepsItems(s, l, step);
    } else {
      InsertKeepsLocks(s, l, step);
      InsertKeepsLists(s, l);
      StopKeepsItems(s, l, step);
    }
  }

  lemma LoopLeavesWorkers(s: State, l: nat, step: LoopStep)
    requires LoopEnabled(s, l, step)
    ensures |LoopApply(s, l, step).workers| == |s.workers|
  {
  }

  lemma LoopKeeps(s: State, l: nat, step: LoopStep)
    requires Inv(s) && LoopEnabled(s, l, step)
    ensures Inv(LoopApply(s, l, step))
  {
    hide GlobalInv, LocksInv, WakeInv, ExitInv, LateInv, QueueInv, WorkersInv, PcInv, ListsInv, LogInv, ItemsInv,
         AsyncInv, LoopApply;
    LoopLeavesWorkers(s, l, step);
    LoopKeepsGlobal(s, l, step);
    LoopKeepsWake(s, l, step);
    LoopKeepsExit(s, l, step);
    LoopKeepsAsync(s, l, step);
    if Quiet(step) {
      QuietKeeps(s, l, step);
    } else if Moving(step) {
      MovingKeeps(s, l, step);
    } else if step.CancelTest? {
      TestKeeps(s, l);
    } else {
      OtherKeeps(s, l, step);
    }
  }

  lemma CleanupKeeps(s: State, step: CleanupStep)
    requires Inv(s) && CleanupEnabled(s, step)
    ensures Inv(CleanupApply(s, step))
  {
    hide GlobalInv, LocksInv, WakeInv, ExitInv, LateInv, QueueInv, WorkersInv, PcInv, ListsInv, LogInv, ItemsInv,
         AsyncInv;
    CleanupKeepsGlobal(s, step);
    CleanupKeepsLocks(s, step);
    CleanupKeepsWake(s, step);
    CleanupKeepsExit(s, step);
    CleanupKeepsQueue(s, step);
    CleanupKeepsLists(s, step);
    CleanupKeepsLoops(s, step);
    CleanupKeepsItems(s, step);
  }

  /** Every step keeps the invariant. */
  lemma StepKeeps(s: State, a: Action)
    requires Inv(s) && Enabled(s, a)
    ensures Inv(Apply(s, a))
  {
    hide Inv;
    match a
    case OfWorker(i, step) => WorkerKeeps(s, i, step);
    case OfLoop(l, step) => LoopKeeps(s, l, step);
    case OfCleanup(step) => CleanupKeeps(s, step);
  }
}
