/** What the thread pool promises, over every run of the step system. */
module ThreadPoolTheorems {
  import opened ThreadPool
  import opened ThreadPoolInvariant

  // ---------- runs ----------

  /** A path takes one enabled step after the other; a run is a path from an initial state. */
  ghost predicate Path(states: seq<State>, actions: seq<Action>) {
    && |states| == |actions| + 1
    && forall k :: 0 <= k < |actions| ==> Enabled(states[k], actions[k]) && states[k + 1] == Apply(states[k], actions[k])
  }

  ghost predicate Run(states: seq<State>, actions: seq<Action>) {
    Path(states, actions) && Init(states[0])
  }

  lemma {:induction false} PathInv(states: seq<State>, actions: seq<Action>, k: nat)
    requires Path(states, actions) && Inv(states[0]) && k < |states|
    ensures Inv(states[k])
  {
    hide Inv, Apply, Enabled;
    if k > 0 {
      PathInv(states, actions, k - 1);
      StepKeeps(states[k - 1], actions[k - 1]);
    }
  }

  /** The invariant holds in every state of every run. */
  lemma RunInv(states: seq<State>, actions: seq<Action>, k: nat)
    requires Run(states, actions) && k < |states|
    ensures Inv(states[k])
  {
    hide Inv, Init;
    InitInv(states[0]);
    PathInv(states, actions, k);
  }

  /** The states that some run comes to. */
  ghost predicate Reachable(s: State) {
    exists states, actions :: Run(states, actions) && states[|actions|] == s
  }

  lemma ReachableInv(s: State)
    requires Reachable(s)
    ensures Inv(s)
  {
    hide Inv, Init, Enabled, Apply;
    var states, actions :| Run(states, actions) && states[|actions|] == s;
    RunInv(states, actions, |actions|);
  }

  lemma ReachableStep(s: State, a: Action)
    requires Reachable(s) && Enabled(s, a)
    ensures Reachable(Apply(s, a))
  {
    hide Apply, Enabled, Init;
    var states, actions :| Run(states, actions) && states[|actions|] == s;
    var states', actions' := states + [Apply(s, a)], actions + [a];
    forall k | 0 <= k < |actions'|
      ensures Enabled(states'[k], actions'[k]) && states'[k + 1] == Apply(states'[k], actions'[k])
    {
      if k < |actions| {
        assert states'[k] == states[k] && actions'[k] == actions[k] && states'[k + 1] == states[k + 1];
      }
    }
    assert Run(states', actions') && states'[|actions'|] == Apply(s, a);
  }

  // ---------- every item is in exactly one place ----------

  /** The program's own containers: what a thread has in hand, the queues, and the delivered. */
  datatype Site =
    | InPost(l: nat) | InGlobal | AtWorker(i: nat) | InCancelOf(l: nat) | InQueueOf(l: nat) | InBatchOf(l: nat) | Done

  ghost predicate Occupies(s: State, id: nat, site: Site) {
    match site
    case InPost(l) => l < |s.loops| && (s.loops[l].pc == PostWant(id) || s.loops[l].pc == PostHold(id))
    case InGlobal => Work(id) in s.wq
    case AtWorker(i) => i < |s.workers| && Holds(s.workers[i]) && s.workers[i].id == id
    case InCancelOf(l) =>
      l < |s.loops| && s.loops[l].pc in {CancelMark(id), CancelRewant(id), CancelPut(id)}
    case InQueueOf(l) => l < |s.loops| && id in s.loops[l].queue
    case InBatchOf(l) => l < |s.loops| && id in s.loops[l].batch
    case Done => exists k :: 0 <= k < |s.log| && s.log[k].0 == id
  }

  /** The place the record names for a site. */
  lemma SiteRecord(s: State, id: nat, site: Site)
    requires Inv(s) && Occupies(s, id, site)
    ensures id < |s.items|
    ensures var w := s.items[id]; match site
      case InPost(l) => w.at == Posting && w.loop == l
      case InGlobal => w.at == Global
      case AtWorker(i) => w.at == Held(i)
      case InCancelOf(l) => w.at == InCancel && w.loop == l
      case InQueueOf(l) => w.at == OnLoop && w.loop == l
      case InBatchOf(l) => w.at == InBatch && w.loop == l
      case Done => w.at == Delivered
  {
    hide GlobalInv, LocksInv, WakeInv, ExitInv, LateInv, ItemsInv, AsyncInv;
    match site
    case InPost(l) => assert PcOk(s, l);
    case InGlobal =>
      var k :| 0 <= k < |s.wq| && s.wq[k] == Work(id);
    case AtWorker(i) =>
    case InCancelOf(l) => assert PcOk(s, l);
    case InQueueOf(l) =>
      var k :| 0 <= k < |s.loops[l].queue| && s.loops[l].queue[k] == id;
      assert At(s, l, s.loops[l].queue[k], OnLoop);
    case InBatchOf(l) =>
      var k :| 0 <= k < |s.loops[l].batch| && s.loops[l].batch[k] == id;
      assert At(s, l, s.loops[l].batch[k], InBatch);
    case Done =>
      var k :| 0 <= k < |s.log| && s.log[k].0 == id;
  }

  /** A submitted item is in exactly one container, and in that container once. */
  lemma OnePlace(s: State, id: nat) returns (site: Site)
    requires Reachable(s) && id < |s.items|
    ensures Occupies(s, id, site)
    ensures forall other :: Occupies(s, id, other) ==> other == site
    ensures NoDup(s.wq)
    ensures forall l :: 0 <= l < |s.loops| ==> NoDup(s.loops[l].queue) && NoDup(s.loops[l].batch)
    ensures forall j, k {:trigger s.log[j], s.log[k]} :: 0 <= j < k < |s.log| ==> s.log[j].0 != s.log[k].0
  {
    hide Reachable;
    ReachableInv(s);
    site := Found(s, id);
    forall other | Occupies(s, id, other)
      ensures other == site
    {
      SiteRecord(s, id, site);
      SiteRecord(s, id, other);
    }
  }

  lemma Found(s: State, id: nat) returns (site: Site)
    requires Inv(s) && id < |s.items|
    ensures Occupies(s, id, site)
  {
    hide GlobalInv, LocksInv, WakeInv, ExitInv, LateInv, QueueInv, WorkersInv, PcInv, ListsInv, AsyncInv, LogInv, NoDup;
    assert ItemOk(s, id);
    var w := s.items[id];
    match w.at
    case Posting => site := InPost(w.loop);
    case Global => site := InGlobal;
    case Held(i) => site := AtWorker(i);
    case InCancel => site := InCancelOf(w.loop);
    case OnLoop => site := InQueueOf(w.loop);
    case InBatch => site := InBatchOf(w.loop);
    case Delivered =>
      var e := (id, if w.work.Cancelled? then Canceled else Success);
      var k :| 0 <= k < |s.log| && s.log[k] == e;
      site := Done;
  }

  // ---------- done ----------

  /** done runs at most once an item, with status 0 only after work ran once, from start to end, and with
      UV_ECANCELED only if work never started. */
  lemma DoneOnce(s: State, k: nat)
    requires Reachable(s) && k < |s.log|
    ensures s.log[k].0 < |s.items|
    ensures forall j :: 0 <= j < |s.log| && s.log[j].0 == s.log[k].0 ==> j == k
    ensures var w := s.items[s.log[k].0];
      && (s.log[k].1.Success? ==> w.starts == 1 && w.finishes == 1 && !w.cancelOk)
      && (s.log[k].1.Canceled? ==> w.starts == 0 && w.finishes == 0 && w.cancelOk)
  {
    hide GlobalInv, LocksInv, WakeInv, ExitInv, LateInv, QueueInv, WorkersInv, PcInv, ListsInv, AsyncInv, Reachable;
    ReachableInv(s);
    var id := s.log[k].0;
    assert ItemOk(s, id);
    var e := (id, if s.items[id].work.Cancelled? then Canceled else Success);
    var j :| 0 <= j < |s.log| && s.log[j] == e;
  }

  // ---------- cancelling ----------

  /** uv__work_cancel's two-field test succeeds exactly for an item that is still queued, or was cancelled
      before; it fails exactly for one a worker has, or that has run. */
  lemma CancelIsExact(s: State, l: nat)
    requires Reachable(s) && l < |s.loops| && s.loops[l].pc.CancelHold?
    ensures var id := s.loops[l].pc.id;
      && id < |s.items|
      && (CancelTestPasses(s.items[id]) <==> Work(id) in s.wq || s.items[id].cancelOk)
      && (!CancelTestPasses(s.items[id]) <==>
            (exists i :: Occupies(s, id, AtWorker(i))) || s.items[id].finishes == 1)
  {
    hide GlobalInv, LocksInv, WakeInv, ExitInv, LateInv, WorkersInv, ListsInv, AsyncInv, LogInv, NoDup, Reachable;
    ReachableInv(s);
    TestedPlace(s, l);
    var id := s.loops[l].pc.id;
    assert ItemOk(s, id);
    if Work(id) in s.wq {
      SiteRecord(s, id, InGlobal);
    }
    if s.items[id].at.Held? {
      assert Occupies(s, id, AtWorker(s.items[id].at.i));
    } else if exists i :: Occupies(s, id, AtWorker(i)) {
      var i :| Occupies(s, id, AtWorker(i));
      SiteRecord(s, id, AtWorker(i));
    }
  }

  /** What no step takes back: a submitted item stays submitted, a cancelled one cancelled, a posted one posted,
      on time or late. */
  ghost predicate Remembers(s: State, s': State, id: nat)
    requires id < |s.items|
  {
    && id < |s'.items|
    && (s.items[id].cancelOk ==> s'.items[id].cancelOk)
    && (!s.items[id].at.Posting? ==> !s'.items[id].at.Posting? && s'.items[id].late == s.items[id].late)
  }

  lemma PostHistory(s: State, l: nat, j: nat, id: nat)
    requires PcInv(s) && LoopEnabled(s, l, Post(j)) && id < |s.items|
    ensures Remembers(s, LoopApply(s, l, Post(j)), id)
  {
    assert PcOk(s, l);
  }

  lemma LoopHistory(s: State, l: nat, step: LoopStep, id: nat)
    requires LoopEnabled(s, l, step) && id < |s.items| && !step.Post?
    ensures Remembers(s, LoopApply(s, l, step), id)
  {
  }

  lemma WorkerHistory(s: State, i: nat, step: WorkerStep, id: nat)
    requires WorkerEnabled(s, i, step) && id < |s.items|
    ensures Remembers(s, WorkerApply(s, i, step), id)
  {
  }

  lemma StepHistory(s: State, a: Action, id: nat)
    requires PcInv(s) && Enabled(s, a) && id < |s.items|
    ensures Remembers(s, Apply(s, a), id)
  {
    hide PcInv, WorkerApply, LoopApply, WorkerEnabled, LoopEnabled;
    match a
    case OfWorker(i, step) => WorkerHistory(s, i, step, id);
    case OfLoop(l, step) =>
      if step.Post? {
        PostHistory(s, l, step.j, id);
      } else {
        LoopHistory(s, l, step, id);
      }
    case OfCleanup(step) =>
  }

  lemma PcOf(s: State)
    requires Inv(s)
    ensures PcInv(s)
  {
  }

  lemma {:induction false} PathHistory(states: seq<State>, actions: seq<Action>, k: nat, m: nat, id: nat)
    requires Path(states, actions) && Inv(states[0]) && k <= m < |states| && id < |states[k].items|
    ensures Remembers(states[k], states[m], id)
    decreases m
  {
    hide Inv, Apply, Enabled;
    if k < m {
      PathHistory(states, actions, k, m - 1, id);
      PathInv(states, actions, m - 1);
      PcOf(states[m - 1]);
      StepHistory(states[m - 1], actions[m - 1], id);
    }
  }

  lemma CancelledStays(s: State, id: nat, i: nat)
    requires Inv(s) && id < |s.items| && s.items[id].cancelOk
    ensures s.items[id].starts == 0 && !Occupies(s, id, AtWorker(i))
  {
    hide GlobalInv, LocksInv, WakeInv, ExitInv, LateInv, QueueInv, PcInv, ListsInv, AsyncInv, LogInv;
    assert ItemOk(s, id);
  }

  /** After a cancel that succeeds no worker ever has the item again, in any run. */
  lemma CancelIsFinal(states: seq<State>, actions: seq<Action>, k: nat, m: nat, i: nat)
    requires Run(states, actions) && k < m < |states|
    requires actions[k].OfLoop? && actions[k].b.CancelTest?
    requires states[k].loops[actions[k].l].pc.id < |states[k].items|
    requires CancelTestPasses(states[k].items[states[k].loops[actions[k].l].pc.id])
    ensures var id := states[k].loops[actions[k].l].pc.id;
      && id < |states[m].items| && states[m].items[id].starts == 0
      && !Occupies(states[m], id, AtWorker(i))
  {
    hide Inv, Init;
    var id := states[k].loops[actions[k].l].pc.id;
    assert states[k + 1].items[id].cancelOk;
    InitInv(states[0]);
    PathHistory(states, actions, k + 1, m, id);
    RunInv(states, actions, m);
    CancelledStays(states[m], id, i);
  }

  /** The abort of uv__cancelled is out of reach: what a worker is about to call is the caller's function. */
  lemma NoAbort(s: State, i: nat)
    requires Reachable(s) && i < |s.workers| && s.workers[i].Picked?
    ensures s.workers[i].id < |s.items| && s.items[s.workers[i].id].work.User?
  {
    hide Inv, Reachable;
    ReachableInv(s);
    CallsUser(s, i);
  }

  lemma CallsUser(s: State, i: nat)
    requires Inv(s) && i < |s.workers| && s.workers[i].Picked?
    ensures s.workers[i].id < |s.items| && s.items[s.workers[i].id].work.User?
  {
    hide GlobalInv, LocksInv, WakeInv, ExitInv, LateInv, QueueInv, PcInv, ListsInv, AsyncInv, LogInv;
    assert ItemOk(s, s.workers[i].id);
  }

  /** A worker never holds the global mutex and a loop mutex at the same time, and a loop thread that waits for a
      mutex holds the global one at most. */
  lemma OneMutex(s: State, i: nat, l: nat)
    requires Reachable(s) && l < |s.loops|
    ensures |s.locks| == |s.loops|
    ensures s.mutex == ByWorker(i) ==> s.locks[l] != ByWorker(i)
    ensures s.loops[l].pc.CancelWantLoop? ==> s.mutex == ByLoop(l) && s.locks[l] != ByLoop(l)
    ensures s.loops[l].pc.PostWant? || s.loops[l].pc.CancelWant? || s.loops[l].pc.CancelRewant? || s.loops[l].pc.DrainWant? ==>
              s.mutex != ByLoop(l) && s.locks[l] != ByLoop(l)
  {
    hide WakeInv, ExitInv, LateInv, QueueInv, WorkersInv, PcInv, ListsInv, AsyncInv, LogInv, ItemsInv, Reachable;
    ReachableInv(s);
    assert LockOk(s, l);
  }

  // ---------- no lost wakeup ----------

  lemma {:induction false} SomeoneComes(ws: seq<Worker>)
    requires OnTheWay(ws) > 0
    ensures exists i :: 0 <= i < |ws| && (ws[i].Top? || ws[i].Woken? || ws[i].Check?)
  {
    if !(ws[0].Top? || ws[0].Woken? || ws[0].Check?) {
      SomeoneComes(ws[1..]);
      var i :| 0 <= i < |ws[1..]| && (ws[1..][i].Top? || ws[1..][i].Woken? || ws[1..][i].Check?);
      assert ws[i + 1] == ws[1..][i];
    }
  }

  /** While the queue is non-empty and some worker has not exited, some worker is running or has a signal on its
      way. */
  lemma NoLostWakeup(s: State)
    requires Reachable(s) && s.wq != [] && exists i :: 0 <= i < |s.workers| && !s.workers[i].Exited?
    ensures exists i :: 0 <= i < |s.workers| && !s.workers[i].Exited? && !s.workers[i].Asleep?
  {
    hide GlobalInv, LocksInv, ExitInv, LateInv, QueueInv, WorkersInv, PcInv, ListsInv, AsyncInv, LogInv, ItemsInv,
         Reachable;
    ReachableInv(s);
    if SomeAsleep(s.workers) {
      SomeoneComes(s.workers);
    }
  }

  // ---------- shutdown ----------

  /** An item posted after the exit message never runs. */
  lemma LateNeverRuns(s: State, id: nat, i: nat)
    requires Reachable(s) && id < |s.items| && s.items[id].late
    ensures s.items[id].starts == 0 && !Occupies(s, id, AtWorker(i))
  {
    hide GlobalInv, LocksInv, WakeInv, ExitInv, LateInv, QueueInv, PcInv, ListsInv, AsyncInv, LogInv, Reachable;
    ReachableInv(s);
    assert ItemOk(s, id);
  }

  lemma QueuedIsLate(s: State, id: nat, i: nat)
    requires Inv(s) && i < |s.workers| && s.workers[i].Exited? && Work(id) in s.wq
    ensures id < |s.items| && s.items[id].late
  {
    hide GlobalInv, LocksInv, WakeInv, WorkersInv, PcInv, ListsInv, AsyncInv, LogInv, ItemsInv;
    var k :| 0 <= k < |s.wq| && s.wq[k] == Work(id);
    assert s.wq[..k][0] == Exit;
  }

  /** An item queued ahead of the exit message has left the queue by the time any worker exits. */
  lemma DrainedBeforeExit(states: seq<State>, actions: seq<Action>, k: nat, m: nat, id: nat, n: nat, i: nat)
    requires Run(states, actions) && k <= m < |states|
    requires n < |states[k].wq| && states[k].wq[n] == Work(id) && Exit !in states[k].wq[..n]
    requires i < |states[m].workers| && states[m].workers[i].Exited?
    ensures Work(id) !in states[m].wq
  {
    hide Inv, Init;
    RunInv(states, actions, k);
    RunInv(states, actions, m);
    OnTime(states[k], n);
    InitInv(states[0]);
    PathHistory(states, actions, k, m, id);
    if Work(id) in states[m].wq {
      QueuedIsLate(states[m], id, i);
    }
  }

  lemma OnTime(s: State, n: nat)
    requires Inv(s) && n < |s.wq| && s.wq[n].Work? && Exit !in s.wq[..n]
    ensures s.wq[n].id < |s.items| && !s.items[s.wq[n].id].late && !s.items[s.wq[n].id].at.Posting?
  {
    hide GlobalInv, LocksInv, WakeInv, ExitInv, WorkersInv, PcInv, ListsInv, AsyncInv, LogInv, ItemsInv;
  }

  // ---------- no deadlock ----------

  /** Steps that are the program's own: not a caller's request, and not a wakeup out of nothing. */
  predicate Progress(a: Action) {
    match a
    case OfWorker(i, w) => !w.Spurious?
    case OfLoop(l, b) => !b.Submit? && !b.Cancel?
    case OfCleanup(c) => !c.Shutdown?
  }

  ghost predicate Stuck(s: State) {
    forall a :: Enabled(s, a) ==> !Progress(a)
  }

  ghost function Sleeper(ws: seq<Worker>): (j: nat)
    ensures CanSignal(ws, j)
  {
    if SomeAsleep(ws) then
      var k :| 0 <= k < |ws| && ws[k].Asleep?; k
    else 0
  }

  lemma NotEnabled(s: State, a: Action)
    requires Stuck(s) && Progress(a)
    ensures !Enabled(s, a)
  {
  }

  lemma StuckFreesLock(s: State, l: nat)
    requires Inv(s) && Stuck(s) && l < |s.loops|
    ensures |s.locks| == |s.loops| && s.locks[l].Free?
  {
    hide GlobalInv, WakeInv, ExitInv, LateInv, QueueInv, WorkersInv, ListsInv, AsyncInv, LogInv, ItemsInv;
    assert LockOk(s, l) && PcOk(s, l);
    match s.locks[l]
    case Free =>
    case ByWorker(i) =>
      NotEnabled(s, OfWorker(i, Finish));
    case ByLoop(k) =>
      NotEnabled(s, OfLoop(l, CancelTest));
      NotEnabled(s, OfLoop(l, CancelInsert));
      NotEnabled(s, OfLoop(l, DrainSplit));
    case ByCleanup =>
  }

  lemma StuckFreesMutex(s: State)
    requires Inv(s) && Stuck(s)
    ensures s.mutex.Free?
  {
    hide WakeInv, ExitInv, LateInv, WorkersInv, ListsInv, AsyncInv, LogInv, ItemsInv;
    var j := Sleeper(s.workers);
    match s.mutex
    case Free =>
    case ByWorker(i) =>
      NotEnabled(s, OfWorker(i, Sleep));
      NotEnabled(s, OfWorker(i, Take));
      NotEnabled(s, OfWorker(i, Quit(j)));
    case ByLoop(l) =>
      StuckFreesLock(s, l);
      assert PcOk(s, l);
      NotEnabled(s, OfLoop(l, Post(j)));
      NotEnabled(s, OfLoop(l, CancelLockLoop));
      NotEnabled(s, OfLoop(l, CancelTest));
    case ByCleanup =>
      NotEnabled(s, OfCleanup(ShutdownPost(j)));
  }

  lemma StuckWorker(s: State, i: nat)
    requires Inv(s) && Stuck(s) && i < |s.workers|
    ensures s.workers[i].Asleep? || s.workers[i].Exited?
  {
    hide WakeInv, ExitInv, LateInv, QueueInv, PcInv, ListsInv, AsyncInv, LogInv;
    StuckFreesMutex(s);
    match s.workers[i]
    case Top => NotEnabled(s, OfWorker(i, Lock));
    case Woken => NotEnabled(s, OfWorker(i, Relock));
    case Check =>
    case Picked(id) =>
      CallsUser(s, i);
      NotEnabled(s, OfWorker(i, Call));
    case Busy(id) => NotEnabled(s, OfWorker(i, Return));
    case Finished(id) =>
      StuckFreesLock(s, s.items[id].loop);
      NotEnabled(s, OfWorker(i, LockLoop));
    case Publish(id) => NotEnabled(s, OfWorker(i, Finish));
    case Asleep =>
    case Exited =>
  }

  lemma StuckLoop(s: State, l: nat)
    requires Inv(s) && Stuck(s) && l < |s.loops|
    ensures s.loops[l] == Loop(Idle, [], [], false)
  {
    hide WakeInv, ExitInv, LateInv, QueueInv, WorkersInv, LogInv, ItemsInv, NoDup;
    StuckFreesMutex(s);
    StuckFreesLock(s, l);
    assert PcOk(s, l);
    match s.loops[l].pc
    case Idle =>
      if s.loops[l].batch != [] {
        assert At(s, l, s.loops[l].batch[0], InBatch);
      }
      NotEnabled(s, OfLoop(l, Deliver));
      NotEnabled(s, OfLoop(l, Drain));
    case PostWant(id) => NotEnabled(s, OfLoop(l, PostLock));
    case PostHold(id) =>
    case CancelWant(id) => NotEnabled(s, OfLoop(l, CancelLock));
    case CancelWantLoop(id) =>
    case CancelHold(id) =>
    case CancelMark(id) => NotEnabled(s, OfLoop(l, CancelFlag));
    case CancelRewant(id) => NotEnabled(s, OfLoop(l, CancelRelock));
    case CancelPut(id) => NotEnabled(s, OfLoop(l, CancelInsert));
    case DrainWant => NotEnabled(s, OfLoop(l, DrainLock));
    case DrainHold => NotEnabled(s, OfLoop(l, DrainSplit));
  }

  lemma {:induction false} NobodyComes(ws: seq<Worker>)
    requires forall i :: 0 <= i < |ws| ==> ws[i].Asleep? || ws[i].Exited?
    ensures OnTheWay(ws) == 0
  {
    if ws != [] {
      NobodyComes(ws[1..]);
    }
  }

  /** The workers of a stuck state either all sleep beside an empty queue or have all exited, and the last only
      when the clean-up has joined them. */
  lemma StuckWorkers(s: State)
    requires Inv(s) && Stuck(s)
    ensures (s.cleanup.NotStarted? && s.wq == [] && forall i :: 0 <= i < |s.workers| ==> s.workers[i].Asleep?)
            || (s.cleanup.Joined? && s.wq != [] && s.wq[0] == Exit && forall i :: 0 <= i < |s.workers| ==> s.workers[i].Exited?)
  {
    hide LocksInv, LateInv, QueueInv, WorkersInv, PcInv, ListsInv, AsyncInv, LogInv, ItemsInv;
    StuckFreesMutex(s);
    forall i | 0 <= i < |s.workers|
      ensures s.workers[i].Asleep? || s.workers[i].Exited?
    {
      StuckWorker(s, i);
    }
    NobodyComes(s.workers);
    assert !Enabled(s, OfCleanup(ShutdownLock)) && !Enabled(s, OfCleanup(Join));
    assert s.workers[0].Asleep? || s.workers[0].Exited?;
  }

  /** No deadlock and nothing forgotten: when no thread can take a step of its own, all mutexes are free, every loop
      is idle with empty lists, the workers sleep beside an empty queue or have all been joined, and every item's
      done has run, except for items posted after the exit message. */
  lemma StuckIsDone(s: State)
    requires Reachable(s) && Stuck(s)
    ensures |s.locks| == |s.loops| && |s.workers| > 0 && s.mutex.Free?
    ensures forall l :: 0 <= l < |s.loops| ==> s.locks[l].Free? && s.loops[l] == Loop(Idle, [], [], false)
    ensures forall i, j :: 0 <= i < |s.workers| && 0 <= j < |s.workers| ==> s.workers[i] == s.workers[j]
    ensures s.cleanup.NotStarted? ==> s.wq == [] && s.workers[0].Asleep?
    ensures !s.cleanup.NotStarted? ==> s.cleanup.Joined? && s.workers[0].Exited?
    ensures forall id {:trigger s.items[id]} :: 0 <= id < |s.items| ==>
              Occupies(s, id, Done) || (s.cleanup.Joined? && s.items[id].late && Work(id) in s.wq)
  {
    hide Stuck, GlobalInv, WakeInv, ExitInv, LateInv, QueueInv, WorkersInv, PcInv, ListsInv, AsyncInv, LogInv, ItemsInv,
         Reachable;
    ReachableInv(s);
    StuckFreesMutex(s);
    StuckWorkers(s);
    forall l | 0 <= l < |s.loops|
      ensures s.locks[l].Free? && s.loops[l] == Loop(Idle, [], [], false)
    {
      StuckFreesLock(s, l);
      StuckLoop(s, l);
    }
    forall id | 0 <= id < |s.items|
      ensures Occupies(s, id, Done) || (s.cleanup.Joined? && s.items[id].late && Work(id) in s.wq)
    {
      hide LocksInv;
      var site := Found(s, id);
      if site.InGlobal? {
        QueuedIsLate(s, id, 0);
      }
    }
  }

  // ---------- every run comes to rest ----------

  function WorkerWeight(w: Worker): nat {
    match w
    case Top => 5
    case Check => 4
    case Asleep => 3
    case Woken => 5
    case Picked(_) => 13
    case Busy(_) => 12
    case Finished(_) => 11
    case Publish(_) => 10
    case Exited => 0
  }

  function PcWeight(pc: LoopPc): nat {
    match pc
    case Idle => 0
    case PostWant(_) => 14
    case PostHold(_) => 13
    case CancelWant(_) => 10
    case CancelWantLoop(_) => 9
    case CancelHold(_) => 8
    case CancelMark(_) => 7
    case CancelRewant(_) => 6
    case CancelPut(_) => 5
    case DrainWant => 2
    case DrainHold => 1
  }

  function LoopWeight(x: Loop): nat {
    PcWeight(x.pc) + |x.queue| + |x.batch| + if x.pending then 3 else 0
  }

  function CleanupWeight(c: Cleanup): nat {
    match c
    case NotStarted => 0
    case Want => 5
    case Hold => 4
    case Joining => 1
    case Joined => 0
  }

  function EntryWeight(e: Entry): nat {
    if e.Work? then 10 else 0
  }

  ghost function Total<T>(q: seq<T>, weight: T -> nat): nat {
    if q == [] then 0 else weight(q[0]) + Total(q[1..], weight)
  }

  /** How many steps of its own the system can take at most. */
  ghost function Measure(s: State): nat {
    Total(s.workers, WorkerWeight) + Total(s.loops, LoopWeight) + Total(s.wq, EntryWeight) + CleanupWeight(s.cleanup)
  }

  lemma {:induction false} TotalUpdate<T>(q: seq<T>, weight: T -> nat, i: nat, x: T)
    requires i < |q|
    ensures Total(q[i := x], weight) == Total(q, weight) - weight(q[i]) + weight(x)
  {
    if i == 0 {
      assert q[i := x][1..] == q[1..];
    } else {
      assert q[i := x][1..] == q[1..][i - 1 := x];
      TotalUpdate(q[1..], weight, i - 1, x);
    }
  }

  lemma {:induction false} TotalAppend<T>(q: seq<T>, weight: T -> nat, x: T)
    ensures Total(q + [x], weight) == Total(q, weight) + weight(x)
  {
    if q == [] {
      assert q + [x] == [x];
    } else {
      assert (q + [x])[1..] == q[1..] + [x];
      TotalAppend(q[1..], weight, x);
    }
  }

  lemma {:induction false} TotalRemove<T>(q: seq<T>, weight: T -> nat, x: T)
    ensures Total(Remove(q, x), weight) <= Total(q, weight) && |Remove(q, x)| <= |q|
  {
    if q != [] && q[0] != x {
      TotalRemove(q[1..], weight, x);
      assert Remove(q, x)[1..] == Remove(q[1..], x);
    }
  }

  lemma SignalWeight(ws: seq<Worker>, j: nat)
    ensures Total(Signal(ws, j), WorkerWeight) <= Total(ws, WorkerWeight) + 2
  {
    if j < |ws| && ws[j].Asleep? {
      TotalUpdate(ws, WorkerWeight, j, Woken);
    }
  }

  lemma WorkerSpends(s: State, i: nat, step: WorkerStep)
    requires Inv(s) && WorkerEnabled(s, i, step) && !step.Spurious?
    ensures Measure(WorkerApply(s, i, step)) < Measure(s)
  {
    hide Inv;
    var s' := WorkerApply(s, i, step);
    if step.Quit? {
      var ws := Signal(s.workers, step.j);
      WorkerAlone(s, i, step.j);
      SignalWeight(s.workers, step.j);
      TotalUpdate(ws, WorkerWeight, i, Exited);
    } else {
      TotalUpdate(s.workers, WorkerWeight, i, s'.workers[i]);
      if step.Finish? {
        var l := s.items[s.workers[i].id].loop;
        TotalUpdate(s.loops, LoopWeight, l, s'.loops[l]);
      }
    }
  }

  lemma WorkerAlone(s: State, i: nat, j: nat)
    requires WorkerEnabled(s, i, Quit(j))
    ensures Signal(s.workers, j)[i] == Check
  {
  }

  lemma PostSpends(s: State, l: nat, j: nat)
    requires LoopEnabled(s, l, Post(j))
    ensures Measure(LoopApply(s, l, Post(j))) < Measure(s)
  {
    TotalUpdate(s.loops, LoopWeight, l, LoopApply(s, l, Post(j)).loops[l]);
    SignalWeight(s.workers, j);
    TotalAppend(s.wq, EntryWeight, Work(s.loops[l].pc.id));
  }

  lemma CancelSpends(s: State, l: nat)
    requires LoopEnabled(s, l, CancelTest)
    ensures Measure(LoopApply(s, l, CancelTest)) < Measure(s)
  {
    hide Remove;
    var id := s.loops[l].pc.id;
    TotalUpdate(s.loops, LoopWeight, l, LoopApply(s, l, CancelTest).loops[l]);
    TotalRemove(s.wq, EntryWeight, Work(id));
    RemoveLength(s.loops[l].queue, id);
    RemoveLength(s.loops[l].batch, id);
  }

  lemma LoopLighter(s: State, l: nat, step: LoopStep)
    requires LoopEnabled(s, l, step) && !step.Submit? && !step.Cancel? && !step.Post? && !step.CancelTest?
    ensures |LoopApply(s, l, step).loops| == |s.loops|
    ensures LoopWeight(LoopApply(s, l, step).loops[l]) < LoopWeight(s.loops[l])
  {
  }

  lemma ListStepSpends(s: State, l: nat, step: LoopStep)
    requires LoopEnabled(s, l, step) && !step.Submit? && !step.Cancel? && !step.Post? && !step.CancelTest?
    ensures Measure(LoopApply(s, l, step)) < Measure(s)
  {
    hide LoopWeight, Total;
    var s' := LoopApply(s, l, step);
    LoopLighter(s, l, step);
    assert s'.workers == s.workers && s'.wq == s.wq && s'.cleanup == s.cleanup && s'.loops == s.loops[l := s'.loops[l]];
    TotalUpdate(s.loops, LoopWeight, l, s'.loops[l]);
  }

  lemma LoopSpends(s: State, l: nat, step: LoopStep)
    requires LoopEnabled(s, l, step) && !step.Submit? && !step.Cancel?
    ensures Measure(LoopApply(s, l, step)) < Measure(s)
  {
    if step.Post? {
      PostSpends(s, l, step.j);
    } else if step.CancelTest? {
      CancelSpends(s, l);
    } else {
      ListStepSpends(s, l, step);
    }
  }

  lemma CleanupSpends(s: State, step: CleanupStep)
    requires CleanupEnabled(s, step) && !step.Shutdown?
    ensures Measure(CleanupApply(s, step)) < Measure(s)
  {
    if step.ShutdownPost? {
      SignalWeight(s.workers, step.j);
      TotalAppend(s.wq, EntryWeight, Exit);
    }
  }

  lemma StepSpends(s: State, a: Action)
    requires Inv(s) && Enabled(s, a) && Progress(a)
    ensures Measure(Apply(s, a)) < Measure(s)
  {
    hide Inv, Measure;
    match a
    case OfWorker(i, step) => WorkerSpends(s, i, step);
    case OfLoop(l, step) => LoopSpends(s, l, step);
    case OfCleanup(step) => CleanupSpends(s, step);
  }

  lemma {:induction false} SpendsAll(states: seq<State>, actions: seq<Action>)
    requires Path(states, actions) && Inv(states[0]) && forall k :: 0 <= k < |actions| ==> Progress(actions[k])
    ensures |actions| <= Measure(states[0])
  {
    hide Inv, Measure, Apply, Enabled;
    if actions != [] {
      assert states[1] == Apply(states[0], actions[0]);
      StepKeeps(states[0], actions[0]);
      StepSpends(states[0], actions[0]);
      assert Path(states[1..], actions[1..]) by {
        assert forall k :: 0 <= k < |actions[1..]| ==>
                 states[1..][k] == states[k + 1] && actions[1..][k] == actions[k + 1];
      }
      SpendsAll(states[1..], actions[1..]);
    }
  }

  /** Without requests from outside no path is longer than the measure of its first state. */
  lemma PathEnds(states: seq<State>, actions: seq<Action>)
    requires Path(states, actions) && Reachable(states[0]) && forall k :: 0 <= k < |actions| ==> Progress(actions[k])
    ensures |actions| <= Measure(states[0])
  {
    hide Inv, Measure, Reachable, Enabled, Apply;
    ReachableInv(states[0]);
    SpendsAll(states, actions);
  }

  /** The program's own steps lead from s to s'. */
  ghost predicate ComesTo(s: State, s': State) {
    exists states, actions ::
      && Path(states, actions) && states[0] == s && states[|actions|] == s'
      && forall k :: 0 <= k < |actions| ==> Progress(actions[k])
  }

  lemma ComesToItself(s: State)
    ensures ComesTo(s, s)
  {
    var states, actions: seq<Action> := [s], [];
    assert Path(states, actions) && states[|actions|] == s;
  }

  lemma ComesToCons(s: State, a: Action, s': State)
    requires Enabled(s, a) && Progress(a) && ComesTo(Apply(s, a), s')
    ensures ComesTo(s, s')
  {
    hide Apply, Enabled, Progress;
    var states, actions :| Path(states, actions) && states[0] == Apply(s, a) && states[|actions|] == s'
                           && forall k :: 0 <= k < |actions| ==> Progress(actions[k]);
    var states', actions' := [s] + states, [a] + actions;
    forall k | 0 <= k < |actions'|
      ensures Enabled(states'[k], actions'[k]) && states'[k + 1] == Apply(states'[k], actions'[k]) && Progress(actions'[k])
    {
      if k > 0 {
        assert states'[k] == states[k - 1] && actions'[k] == actions[k - 1] && states'[k + 1] == states[k];
      }
    }
    assert Path(states', actions') && states'[|actions'|] == s';
  }

  lemma {:induction false} Settle(s: State) returns (s': State)
    requires Reachable(s)
    ensures ComesTo(s, s') && Reachable(s') && Stuck(s')
    decreases Measure(s)
  {
    hide Inv, Measure, Apply, Enabled, Progress, Reachable, ComesTo;
    if Stuck(s) {
      ComesToItself(s);
      s' := s;
    } else {
      var a :| Enabled(s, a) && Progress(a);
      ReachableInv(s);
      StepSpends(s, a);
      ReachableStep(s, a);
      s' := Settle(Apply(s, a));
      ComesToCons(s, a, s');
    }
  }

  /** From any reachable state the threads come, by their own steps alone, to a state where none can go on; and there
      every item has been delivered but for those posted after the exit message. */
  lemma Settles(s: State)
    requires Reachable(s)
    ensures exists s' :: ComesTo(s, s') && Stuck(s') && AllDelivered(s')
  {
    hide Reachable, ComesTo, Stuck, Occupies;
    var s' := Settle(s);
    StuckIsDone(s');
  }

  ghost predicate AllDelivered(s: State) {
    forall id {:trigger s.items[id]} :: 0 <= id < |s.items| && !s.items[id].late ==> Occupies(s, id, Done)
  }
}
