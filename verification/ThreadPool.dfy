/** The protocol of threadpool.c as a step system: several workers, any number of loop threads, the global
    mutex, one mutex a loop, one condition variable, and the shutdown sentinel. A step is what a thread does
    between two lock operations, or a lock operation itself. */
module ThreadPool {

  // ---------- state ----------

  datatype Entry = Exit | Work(id: nat)

  /** The value of w->work: the caller's function, NULL, or uv__cancelled, whose call aborts. */
  datatype Fn = User | Null | Cancelled

  /** Where a work item is. The program has no such field: the invariant shows that the queues agree with it. */
  datatype Place = Posting | Global | Held(i: nat) | InCancel | OnLoop | InBatch | Delivered

  /** A submitted struct uv__work: loop, work and selfLinked (whether wq links to itself) are the program's
      fields, the others record its history. late: it was posted after the exit message. */
  datatype Item = Item(loop: nat, work: Fn, selfLinked: bool,
                       at: Place, late: bool, starts: nat, finishes: nat, cancelOk: bool)

  datatype Owner = Free | ByWorker(i: nat) | ByLoop(l: nat) | ByCleanup

  /** A worker's program counter. Check holds the global mutex, Publish the item's loop mutex. */
  datatype Worker =
    | Top | Check | Asleep | Woken
    | Picked(id: nat) | Busy(id: nat) | Finished(id: nat) | Publish(id: nat)
    | Exited

  /** A loop thread's program counter. */
  datatype LoopPc =
    | Idle
    | PostWant(id: nat) | PostHold(id: nat)
    | CancelWant(id: nat) | CancelWantLoop(id: nat) | CancelHold(id: nat)
    | CancelMark(id: nat) | CancelRewant(id: nat) | CancelPut(id: nat)
    | DrainWant | DrainHold

  /** queue is loop->wq, batch the local list of uv__work_done, pending the async handle's signal. */
  datatype Loop = Loop(pc: LoopPc, queue: seq<nat>, batch: seq<nat>, pending: bool)

  datatype Cleanup = NotStarted | Want | Hold | Joining | Joined

  datatype Status = Success | Canceled

  /** log lists the done callbacks in the order they ran. */
  datatype State = State(
    mutex: Owner, idle: int, wq: seq<Entry>, workers: seq<Worker>,
    loops: seq<Loop>, locks: seq<Owner>, items: seq<Item>, cleanup: Cleanup,
    log: seq<(nat, Status)>)

  predicate Init(s: State) {
    && s.mutex == Free && s.idle == 0 && s.wq == [] && |s.workers| > 0
    && (forall i :: 0 <= i < |s.workers| ==> s.workers[i] == Top)
    && |s.locks| == |s.loops| && (forall l :: 0 <= l < |s.locks| ==> s.locks[l] == Free)
    && (forall l :: 0 <= l < |s.loops| ==> s.loops[l] == Loop(Idle, [], [], false))
    && s.items == [] && s.cleanup == NotStarted && s.log == []
  }

  // ---------- steps ----------

  /** What a worker does next. Spurious is a wakeup without a signal. */
  datatype WorkerStep =
    | Lock | Relock | Sleep | Take | Quit(j: nat) | Spurious | Call | Return | LockLoop | Finish

  datatype LoopStep =
    | Submit(junk: bool) | PostLock | Post(j: nat)
    | Cancel(id: nat) | CancelLock | CancelLockLoop | CancelTest | CancelFlag | CancelRelock | CancelInsert
    | Drain | DrainLock | DrainSplit | Deliver

  datatype CleanupStep = Shutdown | ShutdownLock | ShutdownPost(j: nat) | Join

  datatype Action = OfWorker(i: nat, w: WorkerStep) | OfLoop(l: nat, b: LoopStep) | OfCleanup(c: CleanupStep)

  /** uv_cond_signal may wake worker j: one that sleeps, if any does. */
  ghost predicate CanSignal(ws: seq<Worker>, j: nat) {
    (exists k :: 0 <= k < |ws| && ws[k].Asleep?) ==> j < |ws| && ws[j].Asleep?
  }

  function Signal(ws: seq<Worker>, j: nat): seq<Worker> {
    if j < |ws| && ws[j].Asleep? then ws[j := Woken] else ws
  }

  /** Unlinks x from a list, if it is on it. */
  function Remove<T(==)>(q: seq<T>, x: T): seq<T> {
    if q == [] then [] else if q[0] == x then q[1..] else [q[0]] + Remove(q[1..], x)
  }

  /** The test of uv__work_cancel, on the two concrete fields. */
  predicate CancelTestPasses(w: Item) {
    !w.selfLinked && w.work != Null
  }

  /** The item in hand is a submitted one, on an existing loop. */
  ghost predicate Known(s: State, id: nat) {
    id < |s.items| && s.items[id].loop < |s.loops| == |s.locks|
  }

  ghost predicate WorkerEnabled(s: State, i: nat, step: WorkerStep) {
    && i < |s.workers|
    && var w := s.workers[i];
    match step
    case Lock => w.Top? && s.mutex.Free?
    case Relock => w.Woken? && s.mutex.Free?
    case Sleep => w.Check? && s.wq == []
    case Take => w.Check? && s.wq != [] && s.wq[0].Work? && Known(s, s.wq[0].id)
    case Quit(j) => w.Check? && s.wq != [] && s.wq[0].Exit? && CanSignal(s.workers, j)
    case Spurious => w.Asleep?
    case Call => w.Picked? && Known(s, w.id) && !s.items[w.id].work.Cancelled?
    case Return => w.Busy? && Known(s, w.id)
    case LockLoop => w.Finished? && Known(s, w.id) && s.locks[s.items[w.id].loop].Free?
    case Finish => w.Publish? && Known(s, w.id)
  }

  ghost predicate LoopEnabled(s: State, l: nat, step: LoopStep) {
    && l < |s.loops| == |s.locks|
    && var x := s.loops[l];
    match step
    case Submit(junk) => x.pc.Idle?
    case PostLock => x.pc.PostWant? && s.mutex.Free?
    case Post(j) => x.pc.PostHold? && Known(s, x.pc.id) && (s.idle > 0 ==> CanSignal(s.workers, j))
    // called on the loop's own thread, before the item's done callback
    case Cancel(id) => x.pc.Idle? && Known(s, id) && s.items[id].loop == l && !s.items[id].at.Delivered?
    case CancelLock => x.pc.CancelWant? && s.mutex.Free?
    case CancelLockLoop => x.pc.CancelWantLoop? && s.locks[l].Free?
    case CancelTest => x.pc.CancelHold? && Known(s, x.pc.id)
    case CancelFlag => x.pc.CancelMark? && Known(s, x.pc.id)
    case CancelRelock => x.pc.CancelRewant? && s.locks[l].Free?
    case CancelInsert => x.pc.CancelPut? && Known(s, x.pc.id)
    case Drain => x.pc.Idle? && x.pending && x.batch == []
    case DrainLock => x.pc.DrainWant? && s.locks[l].Free?
    case DrainSplit => x.pc.DrainHold?
    case Deliver => x.pc.Idle? && x.batch != [] && Known(s, x.batch[0])
  }

  ghost predicate CleanupEnabled(s: State, step: CleanupStep) {
    match step
    case Shutdown => s.cleanup.NotStarted?
    case ShutdownLock => s.cleanup.Want? && s.mutex.Free?
    case ShutdownPost(j) => s.cleanup.Hold? && (s.idle > 0 ==> CanSignal(s.workers, j))
    case Join => s.cleanup.Joining? && forall i :: 0 <= i < |s.workers| ==> s.workers[i].Exited?
  }

  ghost predicate Enabled(s: State, a: Action) {
    match a
    case OfWorker(i, step) => WorkerEnabled(s, i, step)
    case OfLoop(l, step) => LoopEnabled(s, l, step)
    case OfCleanup(step) => CleanupEnabled(s, step)
  }

  /** Writing one worker, one loop, one lock or one item. */
  ghost function SetWorker(s: State, i: nat, w: Worker): State
    requires i < |s.workers|
  {
    s.(workers := s.workers[i := w])
  }

  ghost function SetLoop(s: State, l: nat, x: Loop): State
    requires l < |s.loops|
  {
    s.(loops := s.loops[l := x])
  }

  ghost function SetPc(s: State, l: nat, pc: LoopPc): State
    requires l < |s.loops|
  {
    SetLoop(s, l, s.loops[l].(pc := pc))
  }

  ghost function SetLock(s: State, l: nat, o: Owner): State
    requires l < |s.locks|
  {
    s.(locks := s.locks[l := o])
  }

  ghost function SetItem(s: State, id: nat, w: Item): State
    requires id < |s.items|
  {
    s.(items := s.items[id := w])
  }

  ghost function WorkerApply(s: State, i: nat, step: WorkerStep): State
    requires WorkerEnabled(s, i, step)
  {
    match step
    case Lock => SetWorker(s, i, Check).(mutex := ByWorker(i))
    case Relock => SetWorker(s, i, Check).(mutex := ByWorker(i), idle := s.idle - 1)
    case Sleep => SetWorker(s, i, Asleep).(mutex := Free, idle := s.idle + 1)
    case Take =>
      var id := s.wq[0].id;
      SetItem(SetWorker(s, i, Picked(id)), id, s.items[id].(selfLinked := true, at := Held(i)))
      .(mutex := Free, wq := s.wq[1..])
    case Quit(j) => s.(workers := Signal(s.workers, j)[i := Exited], mutex := Free)
    case Spurious => SetWorker(s, i, Woken)
    case Call =>
      var id := s.workers[i].id;
      SetItem(SetWorker(s, i, Busy(id)), id, s.items[id].(starts := s.items[id].starts + 1))
    case Return =>
      var id := s.workers[i].id;
      SetItem(SetWorker(s, i, Finished(id)), id, s.items[id].(finishes := s.items[id].finishes + 1))
    case LockLoop =>
      var id := s.workers[i].id;
      SetLock(SetWorker(s, i, Publish(id)), s.items[id].loop, ByWorker(i))
    case Finish =>
      var id := s.workers[i].id;
      var l := s.items[id].loop;
      var x := s.loops[l].(queue := s.loops[l].queue + [id], pending := true);
      var w := s.items[id].(work := Null, selfLinked := false, at := OnLoop);
      SetLock(SetLoop(SetItem(SetWorker(s, i, Top), id, w), l, x), l, Free)
  }

  ghost function LoopApply(s: State, l: nat, step: LoopStep): State
    requires LoopEnabled(s, l, step)
  {
    var x := s.loops[l];
    match step
    case Submit(junk) =>
      SetPc(s, l, PostWant(|s.items|)).(items := s.items + [Item(l, User, junk, Posting, false, 0, 0, false)])
    case PostLock => SetPc(s, l, PostHold(x.pc.id)).(mutex := ByLoop(l))
    case Post(j) =>
      var w := s.items[x.pc.id].(selfLinked := false, at := Global, late := s.cleanup.Joining? || s.cleanup.Joined?);
      SetItem(SetPc(s, l, Idle), x.pc.id, w)
      .(mutex := Free, wq := s.wq + [Work(x.pc.id)],
        workers := if s.idle > 0 then Signal(s.workers, j) else s.workers)
    case Cancel(id) => SetPc(s, l, CancelWant(id))
    case CancelLock => SetPc(s, l, CancelWantLoop(x.pc.id)).(mutex := ByLoop(l))
    case CancelLockLoop => SetLock(SetPc(s, l, CancelHold(x.pc.id)), l, ByLoop(l))
    case CancelTest =>
      if CancelTestPasses(s.items[x.pc.id]) then CancelUnlink(s, l)
      else SetLock(SetPc(s, l, Idle), l, Free).(mutex := Free)
    case CancelFlag =>
      SetItem(SetPc(s, l, CancelRewant(x.pc.id)), x.pc.id, s.items[x.pc.id].(work := Cancelled))
    case CancelRelock => SetLock(SetPc(s, l, CancelPut(x.pc.id)), l, ByLoop(l))
    case CancelInsert =>
      var w := s.items[x.pc.id].(selfLinked := false, at := OnLoop);
      SetLock(SetItem(SetLoop(s, l, Loop(Idle, x.queue + [x.pc.id], x.batch, true)), x.pc.id, w), l, Free)
    case Drain => SetLoop(s, l, x.(pc := DrainWant, pending := false))
    case DrainLock => SetLock(SetPc(s, l, DrainHold), l, ByLoop(l))
    case DrainSplit =>
      SetLock(SetLoop(s, l, Loop(Idle, [], x.queue, x.pending)), l, Free).(items := Rebatch(s.items, x.queue))
    case Deliver =>
      var id := x.batch[0];
      var status := if s.items[id].work.Cancelled? then Canceled else Success;
      SetItem(SetLoop(s, l, x.(batch := x.batch[1..])), id, s.items[id].(at := Delivered))
      .(log := s.log + [(id, status)])
  }

  /** A successful cancel test: QUEUE_REMOVE unlinks the item from whichever list it is on. */
  ghost function CancelUnlink(s: State, l: nat): State
    requires l < |s.loops| == |s.locks| && s.loops[l].pc.CancelHold? && s.loops[l].pc.id < |s.items|
  {
    var x := s.loops[l];
    var id := x.pc.id;
    SetItem(SetLock(SetLoop(s, l, Loop(CancelMark(id), Remove(x.queue, id), Remove(x.batch, id), x.pending)), l, Free),
            id, s.items[id].(at := InCancel, cancelOk := true))
    .(wq := Remove(s.wq, Work(id)), mutex := Free)
  }

  /** The items on q are recorded as moved to the local batch. */
  ghost function Rebatch(items: seq<Item>, q: seq<nat>): (r: seq<Item>)
    ensures |r| == |items|
  {
    seq(|items|, k requires 0 <= k < |items| => if k in q then items[k].(at := InBatch) else items[k])
  }

  ghost function CleanupApply(s: State, step: CleanupStep): State
    requires CleanupEnabled(s, step)
  {
    match step
    case Shutdown => s.(cleanup := Want)
    case ShutdownLock => s.(cleanup := Hold, mutex := ByCleanup)
    case ShutdownPost(j) =>
      s.(cleanup := Joining, mutex := Free, wq := s.wq + [Exit],
         workers := if s.idle > 0 then Signal(s.workers, j) else s.workers)
    case Join => s.(cleanup := Joined)
  }

  ghost function Apply(s: State, a: Action): State
    requires Enabled(s, a)
  {
    match a
    case OfWorker(i, step) => WorkerApply(s, i, step)
    case OfLoop(l, step) => LoopApply(s, l, step)
    case OfCleanup(step) => CleanupApply(s, step)
  }
}
