/** In which order items are taken by the workers and delivered by the loops. */
module ThreadPoolOrder {
  import opened ThreadPool
  import opened ThreadPoolInvariant
  import opened ThreadPoolTheorems

  ghost predicate Before<T>(q: seq<T>, x: T, y: T) {
    exists i, j :: 0 <= i < j < |q| && q[i] == x && q[j] == y
  }

  lemma {:induction false} BeforeRemove<T>(q: seq<T>, z: T, x: T, y: T)
    requires Before(q, x, y) && z != x && z != y
    ensures Before(Remove(q, z), x, y)
  {
    var i, j :| 0 <= i < j < |q| && q[i] == x && q[j] == y;
    var k := RemoveAt(q, z);
    if z in q {
      var r := Remove(q, z);
      var i', j' := if i < k then i else i - 1, if j < k then j else j - 1;
      assert r[i'] == x && r[j'] == y;
    }
  }

  lemma BeforeAppend<T>(q: seq<T>, z: T, x: T, y: T)
    ensures Before(q, x, y) ==> Before(q + [z], x, y)
    ensures x in q ==> Before(q + [z], x, z)
  {
    var all := q + [z];
    if Before(q, x, y) {
      var i, j :| 0 <= i < j < |q| && q[i] == x && q[j] == y;
      assert all[i] == x && all[j] == y;
    }
    if x in q {
      var i :| 0 <= i < |q| && q[i] == x;
      assert all[i] == x && all[|q|] == z;
    }
  }

  lemma {:induction false} RemoveConcat<T>(a: seq<T>, b: seq<T>, x: T)
    ensures Remove(a + b, x) == if x in a then Remove(a, x) + b else a + Remove(b, x)
  {
    if a == [] {
      assert a + b == b;
    } else {
      assert a + b == [a[0]] + (a[1..] + b) && (a + b)[1..] == a[1..] + b;
      if a[0] != x {
        RemoveConcat(a[1..], b, x);
      }
    }
  }

  lemma {:induction false} RemoveAbsent<T>(q: seq<T>, x: T)
    requires x !in q
    ensures Remove(q, x) == q
  {
    var k := RemoveAt(q, x);
  }

  // ---------- the line of a loop ----------

  /** The items of loop l whose done has run, in that order. */
  ghost function Told(log: seq<(nat, Status)>, items: seq<Item>, l: nat): seq<nat> {
    if log == [] then []
    else
      var id := log[|log| - 1].0;
      Told(log[..|log| - 1], items, l) + if id < |items| && items[id].loop == l then [id] else []
  }

  /** The items that have come to loop l, in the order in which their done runs: those it has run for, the local batch of
      uv__work_done, and the loop's queue. */
  ghost function Line(s: State, l: nat): seq<nat>
    requires l < |s.loops|
  {
    Told(s.log, s.items, l) + (s.loops[l].batch + s.loops[l].queue)
  }

  /** A worker is done with item id of loop l, or a cancel puts it on the loop's queue. */
  ghost predicate Completes(s: State, a: Action, l: nat, id: nat) {
    match a
    case OfWorker(i, step) =>
      step.Finish? && i < |s.workers| && s.workers[i] == Publish(id) && id < |s.items| && s.items[id].loop == l
    case OfLoop(k, step) => step.CancelInsert? && k == l && l < |s.loops| && s.loops[l].pc == CancelPut(id)
    case OfCleanup(_) => false
  }

  /** A cancel of item id succeeds. */
  ghost predicate Withdraws(s: State, a: Action, id: nat) {
    && a.OfLoop? && a.b.CancelTest? && a.l < |s.loops| && s.loops[a.l].pc == CancelHold(id)
    && id < |s.items| && CancelTestPasses(s.items[id])
  }

  ghost predicate WithdrawsOf(s: State, a: Action, l: nat, id: nat) {
    Withdraws(s, a, id) && a.l == l
  }

  lemma {:induction false} ToldSame(log: seq<(nat, Status)>, items: seq<Item>, items': seq<Item>, l: nat)
    requires |items| <= |items'| && forall k :: 0 <= k < |items| ==> items'[k].loop == items[k].loop
    requires forall k {:trigger log[k]} :: 0 <= k < |log| ==> log[k].0 < |items|
    ensures Told(log, items', l) == Told(log, items, l)
  {
    if log != [] {
      ToldSame(log[..|log| - 1], items, items', l);
    }
  }

  lemma ToldMore(log: seq<(nat, Status)>, e: (nat, Status), items: seq<Item>, l: nat)
    requires e.0 < |items|
    ensures Told(log + [e], items, l) == Told(log, items, l) + if items[e.0].loop == l then [e.0] else []
  {
    assert (log + [e])[..|log|] == log;
  }

  lemma {:induction false} ToldIn(log: seq<(nat, Status)>, items: seq<Item>, l: nat, x: nat)
    requires x in Told(log, items, l)
    ensures exists k :: 0 <= k < |log| && log[k].0 == x
  {
    var id := log[|log| - 1].0;
    if x != id {
      ToldIn(log[..|log| - 1], items, l, x);
    }
  }

  lemma {:induction false} InTold(log: seq<(nat, Status)>, items: seq<Item>, l: nat, k: nat)
    requires k < |log| && log[k].0 < |items| && items[log[k].0].loop == l
    ensures log[k].0 in Told(log, items, l)
  {
    if k < |log| - 1 {
      InTold(log[..|log| - 1], items, l, k);
    }
  }

  /** Every item keeps its loop. */
  ghost predicate LoopsStay(s: State, s': State) {
    && |s'.loops| == |s.loops| && |s.items| <= |s'.items|
    && forall k :: 0 <= k < |s.items| ==> s'.items[k].loop == s.items[k].loop
  }

  lemma WorkerLeavesLoops(s: State, i: nat, step: WorkerStep)
    requires WorkerEnabled(s, i, step)
    ensures LoopsStay(s, WorkerApply(s, i, step))
  {
  }

  lemma LoopLeavesLoops(s: State, l: nat, step: LoopStep)
    requires LoopEnabled(s, l, step)
    ensures LoopsStay(s, LoopApply(s, l, step))
  {
    hide Remove;
  }

  lemma Logged(s: State)
    requires Inv(s)
    ensures forall k {:trigger s.log[k]} :: 0 <= k < |s.log| ==>
              s.log[k].0 < |s.items| && s.items[s.log[k].0].at == Delivered
    ensures forall j, k {:trigger s.log[j], s.log[k]} :: 0 <= j < k < |s.log| ==> s.log[j].0 != s.log[k].0
  {
    hide GlobalInv, LocksInv, WakeInv, ExitInv, LateInv, QueueInv, WorkersInv, PcInv, ListsInv, AsyncInv, ItemsInv;
  }

  lemma Listed(s: State, l: nat)
    requires Inv(s) && l < |s.loops|
    ensures PcOk(s, l) && ListOk(s, l)
  {
    hide GlobalInv, LocksInv, WakeInv, ExitInv, LateInv, QueueInv, WorkersInv, LogInv, AsyncInv, ItemsInv, PcOk, ListOk;
  }

  lemma WorkerLists(s: State, i: nat, step: WorkerStep, l: nat)
    requires WorkerEnabled(s, i, step) && l < |s.loops|
    ensures var s' := WorkerApply(s, i, step);
      && s'.log == s.log && l < |s'.loops| && s'.loops[l].batch == s.loops[l].batch
      && (if step.Finish? && s.items[s.workers[i].id].loop == l then
            s'.loops[l].queue == s.loops[l].queue + [s.workers[i].id]
          else s'.loops[l].queue == s.loops[l].queue)
  {
  }

  lemma WorkerLine(s: State, i: nat, step: WorkerStep, l: nat)
    requires Inv(s) && WorkerEnabled(s, i, step) && l < |s.loops|
    ensures var s' := WorkerApply(s, i, step);
      && l < |s'.loops|
      && Line(s', l) == if step.Finish? && s.items[s.workers[i].id].loop == l then Line(s, l) + [s.workers[i].id]
                        else Line(s, l)
  {
    hide Inv, WorkerApply, WorkerEnabled, Told;
    Logged(s);
    WorkerLeavesLoops(s, i, step);
    WorkerLists(s, i, step, l);
    ToldSame(s.log, s.items, WorkerApply(s, i, step).items, l);
  }

  /** What a step of loop k does to the log and the lists of loop l. */
  lemma LoopLists(s: State, k: nat, step: LoopStep, l: nat)
    requires LoopEnabled(s, k, step) && l < |s.loops|
    ensures var s' := LoopApply(s, k, step);
      && |s'.loops| == |s.loops|
      && (!step.Deliver? ==> s'.log == s.log)
      && (k != l ==> s'.loops[l] == s.loops[l])
      && (!step.CancelTest? && !step.CancelInsert? && !step.DrainSplit? && !step.Deliver? ==>
            s'.loops[l].batch == s.loops[l].batch && s'.loops[l].queue == s.loops[l].queue)
  {
  }

  lemma DeliverLists(s: State, k: nat) returns (e: (nat, Status))
    requires LoopEnabled(s, k, Deliver)
    ensures var s', x := LoopApply(s, k, Deliver), s.loops[k];
      && s'.log == s.log + [e] && x.batch == [e.0] + s'.loops[k].batch && s'.loops[k].queue == x.queue
  {
    e := LoopApply(s, k, Deliver).log[|s.log|];
  }

  lemma DeliverLine(s: State, k: nat, l: nat)
    requires Inv(s) && LoopEnabled(s, k, Deliver) && l < |s.loops|
    ensures |LoopApply(s, k, Deliver).loops| == |s.loops|
    ensures Line(LoopApply(s, k, Deliver), l) == Line(s, l)
  {
    hide Inv, Told, LoopApply, PcOk, ListOk;
    Logged(s);
    Listed(s, k);
    var s' := LoopApply(s, k, Deliver);
    BatchedHere(s, k);
    var e := DeliverLists(s, k);
    LoopLeavesLoops(s, k, Deliver);
    LoopLists(s, k, Deliver, l);
    ToldMore(s.log, e, s'.items, l);
    ToldSame(s.log, s.items, s'.items, l);
  }

  lemma TestLine(s: State, l: nat)
    requires Inv(s) && LoopEnabled(s, l, CancelTest)
    ensures var s', id := LoopApply(s, l, CancelTest), s.loops[l].pc.id;
      Line(s', l) == if CancelTestPasses(s.items[id]) then Remove(Line(s, l), id) else Line(s, l)
  {
    hide Inv, Told, Remove;
    Logged(s);
    Listed(s, l);
    var s', id := LoopApply(s, l, CancelTest), s.loops[l].pc.id;
    ToldSame(s.log, s.items, s'.items, l);
    if CancelTestPasses(s.items[id]) {
      var told, x := Told(s.log, s.items, l), s.loops[l];
      if id in told {
        ToldIn(s.log, s.items, l, id);
      }
      RemoveConcat(told, x.batch + x.queue, id);
      RemoveConcat(x.batch, x.queue, id);
      if id !in x.batch {
        RemoveAbsent(x.batch, id);
      } else {
        NotInBoth(s, l, id);
        RemoveAbsent(x.queue, id);
      }
    }
  }

  lemma NotInBoth(s: State, l: nat, id: nat)
    requires l < |s.loops| && ListOk(s, l) && id in s.loops[l].batch
    ensures id !in s.loops[l].queue
  {
    hide NoDup;
  }

  lemma InsertLists(s: State, l: nat)
    requires LoopEnabled(s, l, CancelInsert)
    ensures var s' := LoopApply(s, l, CancelInsert);
      && s'.log == s.log && |s'.loops| == |s.loops|
      && s'.loops[l].batch == s.loops[l].batch && s'.loops[l].queue == s.loops[l].queue + [s.loops[l].pc.id]
  {
  }

  lemma SplitLists(s: State, l: nat)
    requires LoopEnabled(s, l, DrainSplit) && PcOk(s, l)
    ensures var s' := LoopApply(s, l, DrainSplit);
      && s'.log == s.log && |s'.loops| == |s.loops|
      && s.loops[l].batch == [] && s'.loops[l].batch == s.loops[l].queue && s'.loops[l].queue == []
  {
  }

  lemma OwnLine(s: State, l: nat, step: LoopStep)
    requires Inv(s) && LoopEnabled(s, l, step) && (step.CancelInsert? || step.DrainSplit?)
    ensures var s' := LoopApply(s, l, step);
      && |s'.loops| == |s.loops|
      && Line(s', l) == if step.CancelInsert? then Line(s, l) + [s.loops[l].pc.id] else Line(s, l)
  {
    hide Inv, Told, LoopApply, PcOk, ListOk;
    Logged(s);
    Listed(s, l);
    LoopLeavesLoops(s, l, step);
    ToldSame(s.log, s.items, LoopApply(s, l, step).items, l);
    if step.CancelInsert? {
      InsertLists(s, l);
    } else {
      SplitLists(s, l);
    }
  }

  lemma LoopLine(s: State, k: nat, step: LoopStep, l: nat)
    requires Inv(s) && LoopEnabled(s, k, step) && l < |s.loops|
    ensures var s' := LoopApply(s, k, step);
      && |s'.loops| == |s.loops|
      && Line(s', l) ==
           if k == l && step.CancelInsert? then Line(s, l) + [s.loops[l].pc.id]
           else if k == l && step.CancelTest? && CancelTestPasses(s.items[s.loops[l].pc.id]) then
             Remove(Line(s, l), s.loops[l].pc.id)
           else Line(s, l)
  {
    hide Inv, Told, LoopApply, Remove, CancelTestPasses;
    LoopLists(s, k, step, l);
    if step.Deliver? {
      DeliverLine(s, k, l);
    } else if k == l && step.CancelTest? {
      TestLine(s, l);
    } else if k == l && (step.CancelInsert? || step.DrainSplit?) {
      OwnLine(s, l, step);
    } else {
      Logged(s);
      LoopLeavesLoops(s, k, step);
      ToldSame(s.log, s.items, LoopApply(s, k, step).items, l);
    }
  }

  /** The line of a loop changes in two ways only: an item joins it at the end, when its work has been done or its
      cancelling is over, and one that is cancelled drops out of it. */
  lemma LineStep(s: State, a: Action, l: nat)
    requires Inv(s) && Enabled(s, a) && l < |s.loops|
    ensures l < |Apply(s, a).loops|
    ensures forall id :: Completes(s, a, l, id) ==> Line(Apply(s, a), l) == Line(s, l) + [id]
    ensures forall id :: WithdrawsOf(s, a, l, id) ==> Line(Apply(s, a), l) == Remove(Line(s, l), id)
    ensures (forall id :: !Completes(s, a, l, id) && !WithdrawsOf(s, a, l, id)) ==> Line(Apply(s, a), l) == Line(s, l)
  {
    hide Inv, Line, WorkerApply, LoopApply, Remove, CancelTestPasses;
    match a
    case OfWorker(i, step) =>
      WorkerLine(s, i, step, l);
      if step.Finish? && s.items[s.workers[i].id].loop == l {
        assert Completes(s, a, l, s.workers[i].id);
      }
    case OfLoop(k, step) =>
      LoopLine(s, k, step, l);
      if k == l && step.CancelInsert? {
        assert Completes(s, a, l, s.loops[l].pc.id);
      }
      if k == l && step.CancelTest? && CancelTestPasses(s.items[s.loops[l].pc.id]) {
        assert WithdrawsOf(s, a, l, s.loops[l].pc.id);
      }
    case OfCleanup(step) =>
      assert Apply(s, a).loops == s.loops && Apply(s, a).log == s.log && Apply(s, a).items == s.items;
      SameLine(s, Apply(s, a), l);
  }

  lemma SameLine(s: State, s': State, l: nat)
    requires l < |s.loops| && s'.loops == s.loops && s'.log == s.log && s'.items == s.items
    ensures Line(s', l) == Line(s, l)
  {
  }

  // ---------- done callbacks run in the order of the line ----------

  /** Item id was cancelled with success between states k and m. */
  ghost predicate Withdrawn(states: seq<State>, actions: seq<Action>, k: nat, m: nat, id: nat)
    requires Path(states, actions)
  {
    exists j :: k <= j < m && j < |actions| && Withdraws(states[j], actions[j], id)
  }

  lemma LineStepKeeps(s: State, a: Action, l: nat, x: nat, y: nat)
    requires Inv(s) && Enabled(s, a) && l < |s.loops| && !Withdraws(s, a, x)
    ensures l < |Apply(s, a).loops|
    ensures x in Line(s, l) ==> x in Line(Apply(s, a), l)
    ensures Before(Line(s, l), x, y) && !Withdraws(s, a, y) ==> Before(Line(Apply(s, a), l), x, y)
  {
    hide Inv, Line, Enabled, Apply, Completes, Withdraws, Remove, Before;
    LineStep(s, a, l);
    if id :| Completes(s, a, l, id) {
      BeforeAppend(Line(s, l), id, x, y);
    } else if id :| WithdrawsOf(s, a, l, id) {
      assert id != x;
      RemoveMember(Line(s, l), id, x);
      if Before(Line(s, l), x, y) && !Withdraws(s, a, y) {
        BeforeRemove(Line(s, l), id, x, y);
      }
    }
  }

  lemma {:induction false} LineKeeps(states: seq<State>, actions: seq<Action>, k: nat, m: nat, l: nat, x: nat, y: nat)
    requires Path(states, actions) && Inv(states[0]) && k <= m < |states| && l < |states[k].loops|
    requires !Withdrawn(states, actions, k, m, x)
    ensures l < |states[m].loops|
    ensures x in Line(states[k], l) ==> x in Line(states[m], l)
    ensures Before(Line(states[k], l), x, y) && !Withdrawn(states, actions, k, m, y) ==> Before(Line(states[m], l), x, y)
    decreases m
  {
    hide Inv, Line, Enabled, Apply, Withdraws, Before;
    if k < m {
      assert !Withdrawn(states, actions, k, m - 1, x);
      if !Withdrawn(states, actions, k, m, y) {
        assert !Withdrawn(states, actions, k, m - 1, y);
      }
      LineKeeps(states, actions, k, m - 1, l, x, y);
      PathInv(states, actions, m - 1);
      LineStepKeeps(states[m - 1], actions[m - 1], l, x, y);
    }
  }

  lemma {:induction false} ToldOrder(log: seq<(nat, Status)>, items: seq<Item>, l: nat, x: nat, y: nat)
    requires Before(Told(log, items, l), x, y)
    ensures exists i, j :: 0 <= i < j < |log| && log[i].0 == x && log[j].0 == y
  {
    var last := |log| - 1;
    var told, before := Told(log, items, l), Told(log[..last], items, l);
    var i, j :| 0 <= i < j < |told| && told[i] == x && told[j] == y;
    assert before[i] == x;
    if j < |before| {
      assert before[j] == y;
      ToldOrder(log[..last], items, l, x, y);
    } else {
      assert log[last].0 == y;
      ToldIn(log[..last], items, l, x);
    }
  }

  lemma InFront(told: seq<nat>, rest: seq<nat>, k: nat)
    requires k < |told + rest| && (told + rest)[k] !in rest
    ensures k < |told| && (told + rest)[k] == told[k]
  {
  }

  lemma BeforeInFront(told: seq<nat>, rest: seq<nat>, x: nat, y: nat)
    requires Before(told + rest, x, y) && y !in rest
    ensures Before(told, x, y)
  {
    var i, j :| 0 <= i < j < |told + rest| && (told + rest)[i] == x && (told + rest)[j] == y;
    InFront(told, rest, j);
    assert told[i] == x && told[j] == y;
  }

  /** Whoever stands before y in the line has been told of before y is. */
  lemma LineTold(s: State, l: nat, x: nat, y: nat, j: nat)
    requires Inv(s) && l < |s.loops| && Before(Line(s, l), x, y) && j < |s.log| && s.log[j].0 == y
    ensures exists i :: 0 <= i < j && s.log[i].0 == x
  {
    hide Inv, Told;
    Logged(s);
    Listed(s, l);
    var told, rest := Told(s.log, s.items, l), s.loops[l].batch + s.loops[l].queue;
    assert y !in rest;
    BeforeInFront(told, rest, x, y);
    ToldOrder(s.log, s.items, l, x, y);
  }

  /** If x stands before y in the line of a loop, and no cancel of either succeeds from then on, done runs for y only
      after it has run for x. */
  lemma DoneInOrder(states: seq<State>, actions: seq<Action>, k: nat, m: nat, l: nat, x: nat, y: nat, j: nat)
    requires Run(states, actions) && k <= m < |states| && l < |states[k].loops| && Before(Line(states[k], l), x, y)
    requires !Withdrawn(states, actions, k, m, x) && !Withdrawn(states, actions, k, m, y)
    requires j < |states[m].log| && states[m].log[j].0 == y
    ensures exists i :: 0 <= i < j && states[m].log[i].0 == x
  {
    hide Inv, Init, Line, Before, Withdrawn;
    InitInv(states[0]);
    LineKeeps(states, actions, k, m, l, x, y);
    PathInv(states, actions, m);
    LineTold(states[m], l, x, y, j);
  }

  /** Items of one loop are delivered in the order in which they were completed, whatever the interleaving: if the work
      of x was over, or its cancel, before that of y, then done runs for x first. */
  lemma FirstDoneFirstTold(states: seq<State>, actions: seq<Action>, k: nat, m: nat, n: nat,
                           l: nat, x: nat, y: nat, j: nat)
    requires Run(states, actions) && k < m < n < |states| && l < |states[k].loops|
    requires Completes(states[k], actions[k], l, x) && Completes(states[m], actions[m], l, y)
    requires !Withdrawn(states, actions, k + 1, n, x) && !Withdrawn(states, actions, m + 1, n, y)
    requires j < |states[n].log| && states[n].log[j].0 == y
    ensures exists i :: 0 <= i < j && states[n].log[i].0 == x
  {
    hide Inv, Init, Line, Enabled, Apply, Completes, Withdraws, Before;
    InitInv(states[0]);
    PathInv(states, actions, k);
    LineStep(states[k], actions[k], l);
    assert x in Line(states[k + 1], l);
    assert !Withdrawn(states, actions, k + 1, m, x) && !Withdrawn(states, actions, m + 1, n, x);
    LineKeeps(states, actions, k + 1, m, l, x, y);
    PathInv(states, actions, m);
    LineStep(states[m], actions[m], l);
    BeforeAppend(Line(states[m], l), y, x, y);
    DoneInOrder(states, actions, m + 1, n, l, x, y, j);
  }

  // ---------- the global queue ----------

  ghost predicate Posts(s: State, a: Action, id: nat) {
    a.OfLoop? && a.b.Post? && a.l < |s.loops| && s.loops[a.l].pc == PostHold(id)
  }

  /** A worker gets item id into its hands. */
  ghost predicate Takes(s: State, a: Action, id: nat)
    requires Enabled(s, a)
  {
    a.OfWorker? && a.w.Take? && Apply(s, a).workers[a.i] == Picked(id)
  }

  /** The queue changes in three ways only: an entry is put at its end, a worker takes the one at its head, and an item
      that is cancelled drops out of it. */
  lemma QueueStep(s: State, a: Action)
    requires Inv(s) && Enabled(s, a)
    ensures var s' := Apply(s, a);
      && (forall id :: Posts(s, a, id) ==> s'.wq == s.wq + [Work(id)])
      && (a.OfCleanup? && a.c.ShutdownPost? ==> s'.wq == s.wq + [Exit])
      && (forall id :: Takes(s, a, id) ==> s.wq == [Work(id)] + s'.wq)
      && (forall id :: Withdraws(s, a, id) ==> s'.wq == Remove(s.wq, Work(id)))
      && ((forall id :: !Posts(s, a, id) && !Takes(s, a, id) && !Withdraws(s, a, id)) ==>
            s'.wq == s.wq || (a.OfCleanup? && a.c.ShutdownPost?))
  {
    hide Inv, Remove, WorkerApply, LoopApply, WorkerEnabled, LoopEnabled, CancelTestPasses;
    match a
    case OfWorker(i, step) => WorkerQueue(s, i, step);
    case OfLoop(l, step) => LoopQueue(s, l, step);
    case OfCleanup(step) =>
  }

  lemma WorkerQueue(s: State, i: nat, step: WorkerStep)
    requires WorkerEnabled(s, i, step)
    ensures var a, s' := OfWorker(i, step), WorkerApply(s, i, step);
      && (forall id :: Takes(s, a, id) ==> s.wq == [Work(id)] + s'.wq)
      && ((forall id :: !Takes(s, a, id)) ==> s'.wq == s.wq)
  {
    if step.Take? {
      assert Takes(s, OfWorker(i, step), s.wq[0].id);
      assert s.wq == [s.wq[0]] + s.wq[1..];
    }
  }

  lemma LoopQueue(s: State, l: nat, step: LoopStep)
    requires LoopEnabled(s, l, step)
    ensures var a, s' := OfLoop(l, step), LoopApply(s, l, step);
      && (forall id :: Posts(s, a, id) ==> s'.wq == s.wq + [Work(id)])
      && (forall id :: Withdraws(s, a, id) ==> s'.wq == Remove(s.wq, Work(id)))
      && ((forall id :: !Posts(s, a, id) && !Withdraws(s, a, id)) ==> s'.wq == s.wq)
  {
    hide Remove;
    if step.Post? {
      assert Posts(s, OfLoop(l, step), s.loops[l].pc.id);
    } else if step.CancelTest? && CancelTestPasses(s.items[s.loops[l].pc.id]) {
      assert Withdraws(s, OfLoop(l, step), s.loops[l].pc.id);
    }
  }

  lemma QueueStepKeeps(s: State, a: Action, x: nat, y: nat)
    requires Inv(s) && Enabled(s, a) && !Withdraws(s, a, x) && !Takes(s, a, x)
    ensures Work(x) in s.wq ==> Work(x) in Apply(s, a).wq
    ensures Before(s.wq, Work(x), Work(y)) && !Withdraws(s, a, y) ==> Before(Apply(s, a).wq, Work(x), Work(y))
  {
    hide Inv, Enabled, Apply, Posts, Takes, Withdraws, Remove, Before;
    QueueStep(s, a);
    if id :| Posts(s, a, id) {
      BeforeAppend(s.wq, Work(id), Work(x), Work(y));
    } else if a.OfCleanup? && a.c.ShutdownPost? {
      BeforeAppend(s.wq, Exit, Work(x), Work(y));
    } else if id :| Takes(s, a, id) {
      assert id != x;
      BeforeTail(s.wq, Apply(s, a).wq, Work(id), Work(x), Work(y));
    } else if id :| Withdraws(s, a, id) {
      assert id != x;
      RemoveMember(s.wq, Work(id), Work(x));
      if Before(s.wq, Work(x), Work(y)) && !Withdraws(s, a, y) {
        BeforeRemove(s.wq, Work(id), Work(x), Work(y));
      }
    }
  }

  lemma BeforeTail<T>(q: seq<T>, q': seq<T>, z: T, x: T, y: T)
    requires q == [z] + q' && z != x
    ensures x in q ==> x in q'
    ensures Before(q, x, y) ==> Before(q', x, y)
  {
    if Before(q, x, y) {
      var i, j :| 0 <= i < j < |q| && q[i] == x && q[j] == y;
      assert q'[i - 1] == x && q'[j - 1] == y;
    }
  }

  /** A worker took item id between states k and m. */
  ghost predicate Taken(states: seq<State>, actions: seq<Action>, k: nat, m: nat, id: nat)
    requires Path(states, actions)
  {
    exists j :: k <= j < m && j < |actions| && Takes(states[j], actions[j], id)
  }

  lemma {:induction false} QueueKeeps(states: seq<State>, actions: seq<Action>, k: nat, m: nat, x: nat, y: nat)
    requires Path(states, actions) && Inv(states[0]) && k <= m < |states|
    requires !Withdrawn(states, actions, k, m, x) && !Taken(states, actions, k, m, x)
    ensures Work(x) in states[k].wq ==> Work(x) in states[m].wq
    ensures Before(states[k].wq, Work(x), Work(y)) && !Withdrawn(states, actions, k, m, y) ==>
              Before(states[m].wq, Work(x), Work(y))
    decreases m
  {
    hide Inv, Enabled, Apply, Withdraws, Takes, Before;
    if k < m {
      assert !Withdrawn(states, actions, k, m - 1, x) && !Taken(states, actions, k, m - 1, x);
      if !Withdrawn(states, actions, k, m, y) {
        assert !Withdrawn(states, actions, k, m - 1, y);
      }
      QueueKeeps(states, actions, k, m - 1, x, y);
      PathInv(states, actions, m - 1);
      QueueStepKeeps(states[m - 1], actions[m - 1], x, y);
    }
  }

  /** What stands behind another entry is not at the head. */
  lemma NotAtHead(s: State, x: nat, y: nat)
    requires Inv(s) && Before(s.wq, Work(x), Work(y))
    ensures s.wq[0] != Work(y)
  {
    hide GlobalInv, LocksInv, WakeInv, ExitInv, LateInv, WorkersInv, PcInv, ListsInv, AsyncInv, LogInv, ItemsInv;
  }

  /** A taken item was never cancelled. */
  lemma TakenNotWithdrawn(states: seq<State>, actions: seq<Action>, k: nat, n: nat, y: nat)
    requires Run(states, actions) && n < |actions| && Takes(states[n], actions[n], y)
    ensures !Withdrawn(states, actions, k, n, y)
  {
    hide Enabled, Apply, Init;
    if Withdrawn(states, actions, k, n, y) {
      var j :| k <= j < n && j < |actions| && Withdraws(states[j], actions[j], y);
      CancelIsFinal(states, actions, j, n + 1, actions[n].i);
      NowHas(states[n], actions[n], y);
    }
  }

  lemma NowHas(s: State, a: Action, y: nat)
    requires Enabled(s, a) && Takes(s, a, y)
    ensures Occupies(Apply(s, a), y, AtWorker(a.i))
  {
  }

  /** Workers take items in the order in which they were posted, by whichever loops: if x was posted before y and y is
      taken, x has been taken before, unless it was cancelled. */
  lemma FirstPostedFirstTaken(states: seq<State>, actions: seq<Action>, k: nat, m: nat, n: nat, x: nat, y: nat)
    requires Run(states, actions) && k < m < n < |actions|
    requires Posts(states[k], actions[k], x) && Posts(states[m], actions[m], y) && Takes(states[n], actions[n], y)
    requires !Withdrawn(states, actions, k + 1, n, x)
    ensures Taken(states, actions, k + 1, n, x)
  {
    hide Inv, Init, Enabled, Apply, Posts, Takes, Withdraws, Before;
    InitInv(states[0]);
    if !Taken(states, actions, k + 1, n, x) {
      PathInv(states, actions, k);
      QueueStep(states[k], actions[k]);
      assert Work(x) in states[k + 1].wq;
      assert !Withdrawn(states, actions, k + 1, m, x) && !Taken(states, actions, k + 1, m, x);
      QueueKeeps(states, actions, k + 1, m, x, y);
      PathInv(states, actions, m);
      QueueStep(states[m], actions[m]);
      BeforeAppend(states[m].wq, Work(y), Work(x), Work(y));
      assert !Withdrawn(states, actions, m + 1, n, x) && !Taken(states, actions, m + 1, n, x);
      TakenNotWithdrawn(states, actions, m + 1, n, y);
      QueueKeeps(states, actions, m + 1, n, x, y);
      PathInv(states, actions, n);
      NotAtHead(states[n], x, y);
      QueueStep(states[n], actions[n]);
    }
  }
}
