/** fs-poll.c: polling a path by stat, with a timer between two stats. Handles and contexts are objects; what the loop
    owes a context is one of its fields, and the user callback may start and stop any handle before it returns. */
module FsPoll {
  import opened Basics

  datatype Timespec = Timespec(sec: int, nsec: int)

  datatype Stat = Stat(
    dev: int, mode: int, nlink: int, uid: int, gid: int, rdev: int, ino: int, size: int, blksize: int, blocks: int,
    flags: int, gen: int, atim: Timespec, mtim: Timespec, ctim: Timespec, birthtim: Timespec)

  const EPOCH := Timespec(0, 0)

  const ZERO_STAT := Stat(0, 0, 0, 0, 0, 0, 0, 0, 0, 0, 0, 0, EPOCH, EPOCH, EPOCH, EPOCH)

  /** statbuf_eq. */
  predicate StatEq(a: Stat, b: Stat) {
    && a.ctim.nsec == b.ctim.nsec && a.mtim.nsec == b.mtim.nsec && a.birthtim.nsec == b.birthtim.nsec
    && a.ctim.sec == b.ctim.sec && a.mtim.sec == b.mtim.sec && a.birthtim.sec == b.birthtim.sec
    && a.size == b.size && a.mode == b.mode && a.uid == b.uid && a.gid == b.gid && a.ino == b.ino && a.dev == b.dev
    && a.flags == b.flags && a.gen == b.gen
  }

  /** Two results are the same to a user when they differ at most in access time, link count, device and blocks. */
  lemma StatEqMeans(a: Stat, b: Stat)
    ensures StatEq(a, b) <==>
              a == b.(atim := a.atim, nlink := a.nlink, rdev := a.rdev, blksize := a.blksize, blocks := a.blocks)
  {
  }

  // ---------- what a user is told ----------

  /** The result of one stat: a negative error code, or the data. */
  datatype Outcome = Fail(code: int) | Good(stat: Stat)

  /** The arguments of a user callback behind the handle. */
  datatype Call = Call(status: int, prev: Stat, curr: Stat)

  predicate Same(a: Outcome, b: Outcome) {
    match (a, b)
    case (Fail(x), Fail(y)) => x == y
    case (Good(x), Good(y)) => StatEq(x, y)
    case _ => false
  }

  /** A result is news when it differs from the one before; the first one is news only when it is an error. */
  predicate News(os: seq<Outcome>)
    requires os != []
  {
    if |os| == 1 then os[0].Fail? else !Same(os[|os| - 2], os[|os| - 1])
  }

  function LastGood(os: seq<Outcome>): Stat {
    if os == [] then ZERO_STAT
    else if os[|os| - 1].Good? then os[|os| - 1].stat
    else LastGood(os[..|os| - 1])
  }

  /** The callbacks that a sequence of results should make: one for each piece of news, with the last good data before
      it, and the status and data of the result. */
  function Reports(os: seq<Outcome>): seq<Call> {
    if os == [] then []
    else
      var before, last := os[..|os| - 1], os[|os| - 1];
      if !News(os) then Reports(before)
      else
        Reports(before) + [match last
                           case Fail(code) => Call(code, LastGood(before), ZERO_STAT)
                           case Good(stat) => Call(0, LastGood(before), stat)]
  }

  /** The outcome a callback speaks of. */
  function Told(c: Call): Outcome {
    if c.status == 0 then Good(c.curr) else Fail(c.status)
  }

  predicate Codes(os: seq<Outcome>) {
    forall k :: 0 <= k < |os| && os[k].Fail? ==> os[k].code < 0
  }

  lemma SameTransitive(a: Outcome, b: Outcome, c: Outcome)
    requires Same(a, b) && Same(b, c)
    ensures Same(a, c)
  {
  }

  /** What the user was told last is the latest result; and who was told nothing has missed nothing. */
  lemma {:induction false} UserUpToDate(os: seq<Outcome>)
    requires Codes(os) && os != []
    ensures Reports(os) != [] ==> Same(Told(Reports(os)[|Reports(os)| - 1]), os[|os| - 1])
    ensures Reports(os) == [] ==> forall k :: 0 <= k < |os| ==> Same(os[k], os[|os| - 1])
  {
    var before, last := os[..|os| - 1], os[|os| - 1];
    if News(os) {
      assert Same(last, last);
    } else if before != [] {
      UserUpToDate(before);
      assert before[|before| - 1] == os[|os| - 2];
      if Reports(before) == [] {
        forall k | 0 <= k < |os|
          ensures Same(os[k], last)
        {
          if k < |before| {
            assert before[k] == os[k];
            SameTransitive(os[k], os[|os| - 2], last);
          }
        }
      } else {
        SameTransitive(Told(Reports(before)[|Reports(before)| - 1]), os[|os| - 2], last);
      }
    }
  }

  /** No callback repeats the one before. */
  lemma {:induction false} NoRepeats(os: seq<Outcome>, k: nat)
    requires Codes(os) && k + 1 < |Reports(os)|
    ensures !Same(Told(Reports(os)[k]), Told(Reports(os)[k + 1]))
  {
    var before, last := os[..|os| - 1], os[|os| - 1];
    var was := Reports(before);
    if !News(os) || k + 1 < |was| {
      NoRepeats(before, k);
    } else {
      if before != [] {
        UserUpToDate(before);
        assert before[|before| - 1] == os[|os| - 2];
      }
      var told, prev := Told(was[k]), before[|before| - 1];
      if Same(told, last) {
        SameSymmetric(told, prev);
        SameTransitive(prev, told, last);
      }
    }
  }

  lemma SameSymmetric(a: Outcome, b: Outcome)
    requires Same(a, b)
    ensures Same(b, a)
  {
  }

  /** The data of the latest stat that succeeded, or zeros before the first. */
  lemma {:induction false} LatestGood(os: seq<Outcome>, i: int)
    requires -1 <= i < |os| && (i >= 0 ==> os[i].Good?) && forall j :: i < j < |os| ==> os[j].Fail?
    ensures LastGood(os) == if i >= 0 then os[i].stat else ZERO_STAT
  {
    if i < |os| - 1 {
      LatestGood(os[..|os| - 1], i);
    }
  }

  /** Each piece of news has its callback, behind those for earlier news, with what was known before it. */
  lemma {:induction false} ReportAt(os: seq<Outcome>, i: nat)
    requires i < |os| && News(os[..i + 1])
    ensures var before := os[..i];
      && |Reports(before)| < |Reports(os)|
      && Reports(os)[|Reports(before)|] ==
           (if os[i].Fail? then Call(os[i].code, LastGood(before), ZERO_STAT)
            else Call(0, LastGood(before), os[i].stat))
  {
    if i == |os| - 1 {
      assert os[..i + 1] == os;
    } else {
      var front := os[..|os| - 1];
      assert front[..i + 1] == os[..i + 1] && front[..i] == os[..i];
      ReportAt(front, i);
    }
  }

  /** The value of busy_polling after the results os. */
  function Encode(os: seq<Outcome>): int {
    if os == [] then 0
    else match os[|os| - 1]
      case Fail(code) => code
      case Good(_) => 1
  }

  /** busy_polling and the saved data encode the results so far, and exactly the callbacks due were made. */
  predicate Reported(busy: int, statbuf: Stat, outcomes: seq<Outcome>, calls: seq<Call>) {
    Codes(outcomes) && busy == Encode(outcomes) && statbuf == LastGood(outcomes) && calls == Reports(outcomes)
  }

  // ---------- objects ----------

  /** The timer of a context. Freed: its close callback has run and the context is gone. */
  datatype Timer = Off | Armed(due: nat) | Closing | Freed

  class Handle {
    var active: bool
    var ctx: Ctx?

    constructor ()
      ensures !active && ctx == null
    {
      active, ctx := false, null;
    }
  }

  /** struct poll_ctx. stat: the fs request is under way. outcomes and calls record the results seen and the callbacks
      made. */
  class Ctx {
    var parent: Handle?
    var busy: int
    const interval: nat
    var startTime: nat
    var timer: Timer
    var stat: bool
    var statbuf: Stat
    ghost var outcomes: seq<Outcome>
    ghost var calls: seq<Call>

    constructor (handle: Handle, interval: nat, now: nat)
      ensures parent == handle && busy == 0 && startTime == now && timer == Off && stat && statbuf == ZERO_STAT
      ensures this.interval == (if interval != 0 then interval else 1) && outcomes == [] && calls == []
      ensures Reported(busy, statbuf, outcomes, calls)
    {
      parent, busy, startTime, timer, stat, statbuf := handle, 0, now, Off, true, ZERO_STAT;
      this.interval := if interval != 0 then interval else 1;
      outcomes, calls := [], [];
    }

    /** A callback of another context, or a command of the user, does at most this to a context: its handle lets go of
        it, and then an armed timer starts to close. One that closes goes on closing, and a freed one stays freed. */
    twostate predicate Kept()
      reads this
    {
      && stat == old(stat) && startTime == old(startTime) && busy == old(busy) && statbuf == old(statbuf)
      && outcomes == old(outcomes) && calls == old(calls)
      && (parent == old(parent) || parent == null)
      && (timer == old(timer) || (old(timer).Armed? && timer.Closing? && parent == null))
    }
  }

  /** What a user callback may do: start or stop a handle, or let time pass. */
  datatype Command = Start(h: Handle, interval: nat) | Stop(h: Handle) | Wait(d: nat)

  /** What a handle polls at, and when the latest stat began. */
  datatype Polling = Polling(interval: nat, start: nat)

  ghost function Polls(h: Handle): Option<Polling>
    reads h, h.ctx
  {
    if h.ctx == null then None else Some(Polling(h.ctx.interval, h.ctx.startTime))
  }

  function Waited(script: seq<Command>): nat {
    if script == [] then 0
    else Waited(script[..|script| - 1]) + if script[|script| - 1].Wait? then script[|script| - 1].d else 0
  }

  /** What h polls at after a command at time now: a start counts only when h does not poll, and takes one millisecond
      for none; a stop ends the polling. */
  function Obeyed(c: Command, h: Handle, p: Option<Polling>, now: nat): Option<Polling> {
    match c
    case Start(x, interval) =>
      if x == h && p.None? then Some(Polling(if interval != 0 then interval else 1, now)) else p
    case Stop(x) => if x == h then None else p
    case Wait(_) => p
  }

  /** What h polls at after commands that begin at time now. */
  function After(script: seq<Command>, h: Handle, before: Option<Polling>, now: nat): Option<Polling> {
    if script == [] then before
    else
      var prior := script[..|script| - 1];
      Obeyed(script[|script| - 1], h, After(prior, h, before, now), now + Waited(prior))
  }

  /** A loop with its handles and all contexts there ever were; running is the context whose poll_cb is executing. */
  class Loop {
    var now: nat
    ghost const handles: set<Handle>
    ghost var ctxs: set<Ctx>
    ghost var running: Ctx?

    constructor (ghost handles: set<Handle>)
      requires forall h :: h in handles ==> !h.active && h.ctx == null
      ensures Valid() && this.handles == handles && ctxs == {} && running == null
    {
      now, this.handles, ctxs, running := 0, handles, {}, null;
    }

    ghost predicate HandleOk(h: Handle)
      reads this, h, ctxs
    {
      && (h.active <==> h.ctx != null)
      && (h.ctx != null ==> h.ctx in ctxs && h.ctx.parent == h)
    }

    /** Exactly one continuation is pending for c: a stat, its timer, the rest of poll_cb, or the timer's closing;
        or c has been freed. An armed timer belongs to an active handle, a closing one to none. */
    ghost predicate CtxOk(c: Ctx)
      reads this, c, handles
    {
      && (c.timer.Off? <==> c.stat || c == running) && !(c.stat && c == running)
      && (c.parent != null ==> c.parent in handles && c.parent.ctx == c && !c.timer.Closing? && !c.timer.Freed?)
      && c.interval >= 1 && c.startTime <= now
      && (c.timer.Armed? ==>
            c.parent != null && c.startTime < c.timer.due && OnBeat(c.startTime, c.timer.due, c.interval))
      && (c != running ==> Reported(c.busy, c.statbuf, c.outcomes, c.calls))
    }

    ghost predicate Valid()
      reads this, handles, ctxs
    {
      && (forall h {:trigger h in handles} {:trigger h.ctx} {:trigger HandleOk(h)} :: h in handles ==> HandleOk(h))
      && (forall c {:trigger c in ctxs} {:trigger c.parent} {:trigger CtxOk(c)} :: c in ctxs ==> CtxOk(c))
      && (running != null ==> running in ctxs)
    }

    /** Exactly one continuation will come for a context, or it is gone; no handle polls with one that closes or is gone,
        and no two handles poll with the same. */
    lemma OneContinuation(c: Ctx)
      requires Valid() && c in ctxs
      ensures (if c.stat then 1 else 0) + (if c.timer.Armed? then 1 else 0) + (if c == running then 1 else 0)
            + (if c.timer.Closing? then 1 else 0) + (if c.timer.Freed? then 1 else 0) == 1
      ensures c.timer.Closing? || c.timer.Freed? ==> forall h :: h in handles ==> h.ctx != c
      ensures forall h, k :: h in handles && k in handles && h.ctx == k.ctx == c ==> h == k
      ensures c != running ==> c.calls == Reports(c.outcomes)
    {
      assert CtxOk(c);
      assert forall h :: h in handles && h.ctx == c ==> HandleOk(h);
    }

    /** uv_fs_poll_start, when memory and the stat can be had. */
    method PollStart(h: Handle, interval: nat)
      requires Valid() && h in handles
      modifies this`ctxs, h
      ensures Valid()
      ensures old(h.active) ==> ctxs == old(ctxs) && h.active && h.ctx == old(h.ctx)
      ensures !old(h.active) ==>
                && h.active && h.ctx != null && fresh(h.ctx) && ctxs == old(ctxs) + {h.ctx}
                && h.ctx.stat && h.ctx.startTime == now && h.ctx.outcomes == []
                && h.ctx.interval == if interval != 0 then interval else 1
    {
      hide OnBeat, Reported;
      if h.active {
        return;
      }
      var ctx := new Ctx(h, interval, now);
      h.ctx := ctx;
      h.active := true;
      ctxs := ctxs + {ctx};
    }

    /** uv_fs_poll_stop: the context is let go of. With its timer armed the closing starts here; with a stat under way,
        or in the user callback, it is left to poll_cb. */
    method PollStop(h: Handle)
      requires Valid() && h in handles
      modifies h, h.ctx
      ensures Valid() && !h.active && h.ctx == null
      ensures old(h.active) ==>
                && old(h.ctx).parent == null
                && old(h.ctx).timer == (if old(h.ctx.timer).Armed? then Closing else old(h.ctx.timer))
                && old(h.ctx).stat == old(h.ctx.stat) && old(h.ctx).outcomes == old(h.ctx.outcomes)
                && old(h.ctx).calls == old(h.ctx.calls) && old(h.ctx).busy == old(h.ctx.busy)
                && old(h.ctx).statbuf == old(h.ctx.statbuf) && old(h.ctx).startTime == old(h.ctx.startTime)
      ensures forall d {:trigger d.timer} {:trigger d in ctxs} :: d in ctxs ==> d.Kept()
    {
      hide OnBeat, Reported;
      if !h.active {
        return;
      }
      var ctx := h.ctx;
      assert ctx != null && ctx.parent != null;
      ctx.parent := null;
      h.ctx := null;
      if ctx.timer.Armed? {
        ctx.timer := Closing;
      }
      h.active := false;
    }

    method Pass(d: nat)
      requires Valid()
      modifies this`now
      ensures Valid() && now == old(now) + d
    {
      hide OnBeat, Reported;
      now := now + d;
    }

    /** timer_cb, when the loop finds the timer due. Its two assertions hold. */
    method TimerCb(c: Ctx)
      requires Valid() && running == null && c in ctxs && c.timer.Armed? && c.timer.due <= now
      modifies c`timer, c`startTime, c`stat
      ensures Valid() && c.stat && c.startTime == now
    {
      hide OnBeat, Reported;
      c.timer := Off;
      assert c.parent != null;
      assert c.parent.ctx == c;
      c.startTime := now;
      c.stat := true;
    }

    /** timer_close_cb frees the context; it was not freed before, and no handle refers to it. */
    method TimerCloseCb(c: Ctx)
      requires Valid() && running == null && c in ctxs && c.timer.Closing?
      modifies c`timer
      ensures Valid() && c.timer.Freed? && forall h :: h in handles ==> h.ctx != c
    {
      hide OnBeat, Reported;
      c.timer := Freed;
    }

    /** Whether the commands stop the handle h. */
    ghost predicate StoppedBy(script: seq<Command>, h: Handle?) {
      exists k :: 0 <= k < |script| && script[k].Stop? && script[k].h == h
    }

    /** Whether the commands start or stop the handle h. */
    ghost predicate NamedBy(script: seq<Command>, h: Handle) {
      exists k :: 0 <= k < |script| && !script[k].Wait? && script[k].h == h
    }

    method Obey(c: Command)
      requires Valid() && (c.Wait? || c.h in handles)
      modifies this`now, this`ctxs, handles, ctxs
      ensures Valid() && old(ctxs) <= ctxs && fresh(ctxs - old(ctxs)) && now == old(now) + if c.Wait? then c.d else 0
      ensures forall h {:trigger Polls(h)} {:trigger h in handles} :: h in handles ==>
                Polls(h) == Obeyed(c, h, old(Polls(h)), old(now))
      ensures forall d {:trigger d.timer} {:trigger d in old(ctxs)} :: d in old(ctxs) ==> d.Kept()
      ensures forall d {:trigger d in ctxs} :: d in ctxs && d !in old(ctxs) ==> d.stat && d.outcomes == []
      ensures forall d {:trigger d.parent} {:trigger d in old(ctxs)} :: d in old(ctxs) ==>
                d.parent == if c.Stop? && c.h == old(d.parent) then null else old(d.parent)
      ensures forall h {:trigger h.ctx} {:trigger h.active} :: h in handles && (c.Wait? || c.h != h) ==>
                h.ctx == old(h.ctx) && h.active == old(h.active)
    {
      hide OnBeat, Reported;
      match c {
        case Start(h, interval) => PollStart(h, interval);
        case Stop(h) => PollStop(h);
        case Wait(d) => Pass(d);
      }
    }

    /** What the user callback does. Whatever that is, the context in poll_cb stays as it is, except that its handle has
        let go of it when it was stopped, even if it was started again. */
    method UserCallback(script: seq<Command>)
      requires Valid() && running != null
      requires forall k :: 0 <= k < |script| && !script[k].Wait? ==> script[k].h in handles
      modifies this`now, this`ctxs, handles, ctxs
      ensures Valid() && old(ctxs) <= ctxs && fresh(ctxs - old(ctxs)) && now == old(now) + Waited(script)
      ensures forall h {:trigger Polls(h)} {:trigger h in handles} :: h in handles ==>
                Polls(h) == After(script, h, old(Polls(h)), old(now))
      ensures running.busy == old(running.busy) && running.statbuf == old(running.statbuf)
      ensures running.outcomes == old(running.outcomes) && running.calls == old(running.calls)
      ensures running.startTime == old(running.startTime)
      ensures running.parent == if StoppedBy(script, old(running.parent)) then null else old(running.parent)
      ensures forall d {:trigger d.timer} {:trigger d in old(ctxs)} :: d in old(ctxs) ==> d.Kept()
      ensures forall d {:trigger d in ctxs} :: d in ctxs && d !in old(ctxs) ==> d.stat && d.outcomes == []
      ensures forall h {:trigger h.ctx} {:trigger h.active} :: h in handles && !NamedBy(script, h) ==>
                h.ctx == old(h.ctx) && h.active == old(h.active)
    {
      hide StoppedBy, NamedBy, After, Waited, Valid, Obeyed, Polls;
      RunningIn();
      ScriptNone(old(running.parent));
      assert script[..0] == [];
      var i := 0;
      while i < |script|
        invariant 0 <= i <= |script|
        invariant Valid() && old(ctxs) <= ctxs && fresh(ctxs - old(ctxs)) && now == old(now) + Waited(script[..i])
        invariant forall h {:trigger Polls(h)} {:trigger h in handles} :: h in handles ==>
                    Polls(h) == After(script[..i], h, old(Polls(h)), old(now))
        invariant running.busy == old(running.busy) && running.statbuf == old(running.statbuf)
        invariant running.outcomes == old(running.outcomes) && running.calls == old(running.calls)
        invariant running.startTime == old(running.startTime)
        invariant running.parent == if StoppedBy(script[..i], old(running.parent)) then null else old(running.parent)
        invariant forall d {:trigger d.timer} {:trigger d in old(ctxs)} :: d in old(ctxs) ==> d.Kept()
        invariant forall d {:trigger d in ctxs} :: d in ctxs && d !in old(ctxs) ==> d.stat && d.outcomes == []
        invariant forall h {:trigger h.ctx} {:trigger h.active} :: h in handles && !NamedBy(script[..i], h) ==>
                    h.ctx == old(h.ctx) && h.active == old(h.active)
        decreases |script| - i
      {
        assert script[..i + 1] == script[..i] + [script[i]];
        StoppedSnoc(script[..i], script[i], old(running.parent));
        NamedSnoc(script[..i], script[i]);
        label Before:
        Obey(script[i]);
        forall h | h in handles
          ensures Polls(h) == After(script[..i + 1], h, old(Polls(h)), old(now))
        {
          AfterSnoc(script[..i], script[i], h, old(Polls(h)), old(now));
          assert old@Before(Polls(h)) == After(script[..i], h, old(Polls(h)), old(now));
        }
        WaitedSnoc(script[..i], script[i]);
        i := i + 1;
      }
      assert script[..i] == script;
    }

    lemma RunningIn()
      requires Valid() && running != null
      ensures running in ctxs
    {
    }

    lemma ScriptNone(p: Handle?)
      ensures !StoppedBy([], p) && (forall h :: !NamedBy([], h)) && Waited([]) == 0
      ensures forall h, before, now :: After([], h, before, now) == before
    {
    }

    lemma NamedSnoc(script: seq<Command>, c: Command)
      ensures forall h {:trigger NamedBy(script, h)} {:trigger NamedBy(script + [c], h)} ::
                NamedBy(script + [c], h) <==> NamedBy(script, h) || (!c.Wait? && c.h == h)
    {
      var all := script + [c];
      assert forall k :: 0 <= k < |script| ==> all[k] == script[k];
      assert all[|script|] == c;
    }

    lemma StoppedSnoc(script: seq<Command>, c: Command, h: Handle?)
      ensures StoppedBy(script + [c], h) <==> StoppedBy(script, h) || (c.Stop? && c.h == h)
    {
      var all := script + [c];
      assert forall k :: 0 <= k < |script| ==> all[k] == script[k];
      assert all[|script|] == c;
    }

    lemma WaitedSnoc(script: seq<Command>, c: Command)
      ensures Waited(script + [c]) == Waited(script) + if c.Wait? then c.d else 0
    {
      assert (script + [c])[..|script|] == script;
    }

    lemma AfterSnoc(script: seq<Command>, c: Command, h: Handle, before: Option<Polling>, now: nat)
      ensures var p := After(script, h, before, now);
        After(script + [c], h, before, now) == Obeyed(c, h, p, now + Waited(script))
    {
      assert (script + [c])[..|script|] == script;
    }

    /** poll_cb: a stat has ended. A context without a handle starts to close; otherwise the result is compared with the
        one before and the user told of news. If the user has not stopped the handle meanwhile, the timer is armed for a
        time later than now, by at most the interval, and a multiple of the interval after the stat began. */
    method PollCb(c: Ctx, result: Outcome, script: seq<Command>)
      requires Valid() && running == null && c in ctxs && c.stat && (result.Fail? ==> result.code < 0)
      requires forall k :: 0 <= k < |script| && !script[k].Wait? ==> script[k].h in handles
      modifies this, handles, ctxs
      ensures Valid() && running == null && old(ctxs) <= ctxs && fresh(ctxs - old(ctxs)) && !c.stat
      ensures old(c.parent) == null ==> c.timer == Closing && c.outcomes == old(c.outcomes) && c.calls == old(c.calls)
      ensures old(c.parent) != null ==> c.outcomes == old(c.outcomes) + [result]
      ensures c.parent == null ==> c.timer == Closing
      ensures c.parent != null ==>
                && c.timer.Armed? && now < c.timer.due <= now + c.interval
                && c.interval >= 1 && c.startTime < c.timer.due && (c.timer.due - c.startTime) % c.interval == 0
      ensures c.startTime == old(c.startTime)
      ensures var told := old(c.parent) != null && News(old(c.outcomes) + [result]);
        && now == old(now) + (if told then Waited(script) else 0)
        && c.parent == (if told && StoppedBy(script, old(c.parent)) then null else old(c.parent))
        && forall h {:trigger Polls(h)} {:trigger h in handles} :: h in handles ==>
             Polls(h) == if told then After(script, h, old(Polls(h)), old(now)) else old(Polls(h))
      ensures forall d {:trigger d.timer} {:trigger d in old(ctxs)} :: d in old(ctxs) && d != c ==> d.Kept()
      ensures forall d {:trigger d in ctxs} :: d in ctxs && d !in old(ctxs) ==> d.stat && d.outcomes == []
      ensures forall h {:trigger h.ctx} {:trigger h.active} :: h in handles && !NamedBy(script, h) ==>
                h.ctx == old(h.ctx) && h.active == old(h.active)
    {
      hide OnBeat, Reported, StoppedBy, NamedBy, News, After, Waited, Valid;
      Begin(c);
      if c.parent == null {
        Close(c);
        return;
      }
      Compare(c, result, script);
      Rearm(c);
    }

    /** The stat of c is over. */
    method Begin(c: Ctx)
      requires Valid() && running == null && c in ctxs && c.stat
      modifies this`running, c`stat
      ensures Valid() && running == c && !c.stat && Reported(c.busy, c.statbuf, c.outcomes, c.calls)
    {
      hide OnBeat, Reported;
      running := c;
      c.stat := false;
    }

    /** The uv_close in poll_cb. */
    method Close(c: Ctx)
      requires Valid() && running == c && c.parent == null && Reported(c.busy, c.statbuf, c.outcomes, c.calls)
      modifies this`running, c`timer
      ensures Valid() && running == null && c.timer == Closing && !c.stat
    {
      hide OnBeat, Reported;
      c.timer := Closing;
      running := null;
    }

    /** A call of the user callback. */
    method Tell(c: Ctx, call: Call, script: seq<Command>)
      requires Valid() && running == c && c.parent != null
      requires forall k :: 0 <= k < |script| && !script[k].Wait? ==> script[k].h in handles
      modifies this`now, this`ctxs, handles, ctxs
      ensures Valid() && old(ctxs) <= ctxs && fresh(ctxs - old(ctxs))
      ensures c.busy == old(c.busy) && c.statbuf == old(c.statbuf) && c.startTime == old(c.startTime)
      ensures c.outcomes == old(c.outcomes) && c.calls == old(c.calls) + [call]
      ensures c.parent == if StoppedBy(script, old(c.parent)) then null else old(c.parent)
      ensures now == old(now) + Waited(script)
      ensures forall h {:trigger Polls(h)} {:trigger h in handles} :: h in handles ==>
                Polls(h) == After(script, h, old(Polls(h)), old(now))
      ensures forall d {:trigger d.timer} {:trigger d in old(ctxs)} :: d in old(ctxs) && d != c ==> d.Kept()
      ensures forall d {:trigger d in ctxs} :: d in ctxs && d !in old(ctxs) ==> d.stat && d.outcomes == []
      ensures forall h {:trigger h.ctx} {:trigger h.active} :: h in handles && !NamedBy(script, h) ==>
                h.ctx == old(h.ctx) && h.active == old(h.active)
    {
      hide OnBeat, Reported, StoppedBy, NamedBy, After, Waited;
      c.calls := c.calls + [call];
      UserCallback(script);
    }

    method Save(c: Ctx, busy: int, statbuf: Stat, ghost result: Outcome)
      requires Valid() && running == c
      modifies c`busy, c`statbuf, c`outcomes
      ensures Valid() && c.busy == busy && c.statbuf == statbuf && c.outcomes == old(c.outcomes) + [result]
    {
      hide OnBeat, Reported;
      c.statbuf := statbuf;
      c.busy := busy;
      c.outcomes := c.outcomes + [result];
    }

    /** poll_cb down to its label out. */
    method Compare(c: Ctx, result: Outcome, script: seq<Command>)
      requires Valid() && running == c && c in ctxs && c.parent != null
      requires Reported(c.busy, c.statbuf, c.outcomes, c.calls) && (result.Fail? ==> result.code < 0)
      requires forall k :: 0 <= k < |script| && !script[k].Wait? ==> script[k].h in handles
      modifies this`now, this`ctxs, handles, ctxs
      ensures Valid() && old(ctxs) <= ctxs && fresh(ctxs - old(ctxs))
      ensures Reported(c.busy, c.statbuf, c.outcomes, c.calls)
      ensures c.outcomes == old(c.outcomes) + [result] && c.startTime == old(c.startTime)
      ensures var told := News(old(c.outcomes) + [result]);
        && now == old(now) + (if told then Waited(script) else 0)
        && c.parent == (if told && StoppedBy(script, old(c.parent)) then null else old(c.parent))
        && forall h {:trigger Polls(h)} {:trigger h in handles} :: h in handles ==>
             Polls(h) == if told then After(script, h, old(Polls(h)), old(now)) else old(Polls(h))
      ensures forall d {:trigger d.timer} {:trigger d in old(ctxs)} :: d in old(ctxs) && d != c ==> d.Kept()
      ensures forall d {:trigger d in ctxs} :: d in ctxs && d !in old(ctxs) ==> d.stat && d.outcomes == []
      ensures forall h {:trigger h.ctx} {:trigger h.active} :: h in handles && !NamedBy(script, h) ==>
                h.ctx == old(h.ctx) && h.active == old(h.active)
    {
      hide StoppedBy, NamedBy, Valid, Reports, LastGood, Encode, StatEq, Codes, News, After, Waited;
      NewsCoded(c.outcomes, result);
      match result
      case Fail(code) =>
        if c.busy != code {
          Tell(c, Call(code, c.statbuf, ZERO_STAT), script);
        }
        Save(c, code, c.statbuf, result);
      case Good(statbuf) =>
        if c.busy != 0 && (c.busy < 0 || !StatEq(c.statbuf, statbuf)) {
          Tell(c, Call(0, c.statbuf, statbuf), script);
        }
        Save(c, 1, statbuf, result);
    }

    /** poll_cb from its label out on. */
    method Rearm(c: Ctx)
      requires Valid() && running == c && Reported(c.busy, c.statbuf, c.outcomes, c.calls)
      modifies this`running, c`timer
      ensures Valid() && running == null && !c.stat
      ensures c.parent == null ==> c.timer == Closing
      ensures c.parent != null ==>
                && c.timer.Armed? && now < c.timer.due <= now + c.interval
                && c.interval >= 1 && c.startTime < c.timer.due && (c.timer.due - c.startTime) % c.interval == 0
    {
      if c.parent == null {
        Close(c);
        return;
      }
      var delay := c.interval - (now - c.startTime) % c.interval;
      NextMultiple(now - c.startTime, c.interval);
      c.timer := Armed(now + delay);
      running := null;
    }
  }

  /** due is a multiple of the interval after start. */
  predicate OnBeat(start: nat, due: nat, interval: nat)
    requires interval >= 1
  {
    (due - start) % interval == 0
  }

  /** The delay brings the due time to a multiple of the interval. */
  lemma NextMultiple(elapsed: nat, interval: nat)
    requires interval >= 1
    ensures 1 <= interval - elapsed % interval <= interval
    ensures (elapsed + (interval - elapsed % interval)) % interval == 0
  {
    var q := elapsed / interval + 1;
    assert elapsed + (interval - elapsed % interval) == q * interval;
    MultipleOf(q, interval);
  }

  lemma MultipleOf(q: nat, n: nat)
    requires n >= 1
    ensures (q * n) % n == 0
  {
    var d, r := q * n / n, q * n % n;
    assert (q - d) * n == r;
    if q - d >= 1 {
      AtLeast(q - d, n);
    } else if q - d <= -1 {
      AtLeast(d - q, n);
    }
  }

  lemma AtLeast(k: nat, n: nat)
    requires k >= 1
    ensures k * n >= n
  {
  }

  /** The tests of poll_cb on busy_polling and the saved data tell whether a result is news. */
  lemma NewsCoded(os: seq<Outcome>, o: Outcome)
    requires Codes(os) && (o.Fail? ==> o.code < 0)
    ensures Codes(os + [o]) && Encode(os + [o]) == (if o.Fail? then o.code else 1)
    ensures LastGood(os + [o]) == if o.Good? then o.stat else LastGood(os)
    ensures News(os + [o]) <==> if o.Fail? then Encode(os) != o.code
                                else Encode(os) != 0 && (Encode(os) < 0 || !StatEq(LastGood(os), o.stat))
    ensures o.Fail? ==>
              Reports(os + [o]) == Reports(os) + (if Encode(os) != o.code then [Call(o.code, LastGood(os), ZERO_STAT)] else [])
    ensures o.Good? ==>
              Reports(os + [o]) == Reports(os) + (if Encode(os) != 0 && (Encode(os) < 0 || !StatEq(LastGood(os), o.stat))
                                                  then [Call(0, LastGood(os), o.stat)] else [])
  {
    assert (os + [o])[..|os|] == os;
  }
}
