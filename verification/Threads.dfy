/** threads/synch.cc, thread.cc and scheduler.cc: semaphores, threads and the ready list on
    one processor. A step is what runs with interrupts disabled, without a switch in between. */
module Threads {
  import opened Collections

  type Tid = nat
  type Sid = nat

  datatype Status = JustCreated | Running | Ready | Blocked

  /** Where a thread is in the kernel when it does not hold the processor, or Outside. */
  datatype Pc = Unstarted | Outside | InP(sem: Sid) | Yielded | Finished

  datatype Sem = Sem(value: nat, queue: seq<Tid>)

  /** The kernel. `doomed` is threadToBeDestroyed; status and pc cover the threads not yet
      destroyed. */
  datatype State = State(
    current: Tid,
    ready: seq<Tid>,
    status: map<Tid, Status>,
    pc: map<Tid, Pc>,
    sems: map<Sid, Sem>,
    doomed: Option<Tid>)

  datatype Event =
    | NewSemaphore(s: Sid, initial: nat)
    | NewThread(t: Tid)
    | Fork(t: Tid)
    | P(s: Sid)
    | V(s: Sid)
    | HandlerV(s: Sid)
    | Yield
    | Finish
    | Dispatch

  // ---------------------------------------------------------------- the code, step by step

  /** Scheduler::ReadyToRun */
  function ReadyToRun(st: State, t: Tid): State {
    st.(status := st.status[t := Ready], ready := st.ready + [t])
  }

  /** The body of P's loop, or its exit, for a thread that holds the processor. */
  function TryP(st: State, t: Tid, s: Sid): State
    requires s in st.sems
  {
    var m := st.sems[s];
    if m.value == 0 then
      st.(sems := st.sems[s := m.(queue := m.queue + [t])], status := st.status[t := Blocked], pc := st.pc[t := InP(s)])
    else
      st.(sems := st.sems[s := m.(value := m.value - 1)], status := st.status[t := Running], pc := st.pc[t := Outside])
  }

  /** Semaphore::V */
  function DoV(st: State, s: Sid): State
    requires s in st.sems
  {
    var m := st.sems[s];
    var m' := m.(value := m.value + 1);
    if m.queue == [] then st.(sems := st.sems[s := m'])
    else ReadyToRun(st.(sems := st.sems[s := m'.(queue := m.queue[1..])]), m.queue[0])
  }

  /** The end of Scheduler::Run, seen by a thread that comes back from a switch. */
  function Reap(st: State): State {
    if st.doomed.None? then st
    else st.(status := st.status - {st.doomed.value}, pc := st.pc - {st.doomed.value}, doomed := None)
  }

  /** Scheduler::Run, up to the point where the thread switched to re-enables interrupts:
      a new thread starts at its root; a thread that yielded returns; a thread that slept
      in P tests the value again. */
  function Run(st: State, t: Tid): State
    requires t in st.pc && (st.pc[t].InP? ==> st.pc[t].sem in st.sems)
  {
    var st' := st.(current := t);
    match st.pc[t]
    case InP(s) => TryP(Reap(st'), t, s)
    case Unstarted => st'.(status := st'.status[t := Running], pc := st'.pc[t := Outside])
    case _ => var r := Reap(st'); r.(status := r.status[t := Running], pc := r.pc[t := Outside])
  }

  predicate Executing(st: State) {
    st.current in st.status && st.status[st.current] == Running
  }

  predicate CanRun(st: State, t: Tid) {
    t in st.pc && (st.pc[t].InP? ==> st.pc[t].sem in st.sems)
  }

  predicate Enabled(st: State, e: Event) {
    match e
    case NewSemaphore(s, _) => Executing(st) && s !in st.sems
    case NewThread(t) => Executing(st) && t !in st.status
    case Fork(t) => Executing(st) && t in st.status && st.status[t] == JustCreated
    case P(s) => Executing(st) && s in st.sems
    case V(s) => Executing(st) && s in st.sems
    case HandlerV(s) => s in st.sems
    case Yield => Executing(st) && (st.ready != [] ==> CanRun(st, st.ready[0]))
    case Finish => Executing(st)
    case Dispatch => st.current in st.status && !Executing(st) && st.ready != [] && CanRun(st, st.ready[0])
  }

  function Next(st: State, e: Event): State
    requires Enabled(st, e)
  {
    match e
    case NewSemaphore(s, v) => st.(sems := st.sems[s := Sem(v, [])])
    case NewThread(t) => st.(status := st.status[t := JustCreated], pc := st.pc[t := Unstarted])
    case Fork(t) => ReadyToRun(st, t)
    case P(s) => TryP(st, st.current, s)
    case V(s) => DoV(st, s)
    case HandlerV(s) => DoV(st, s)
    case Yield =>
      if st.ready == [] then st
      else Run(YieldTo(st), st.ready[0])
    case Finish =>
      st.(doomed := Some(st.current), status := st.status[st.current := Blocked], pc := st.pc[st.current := Finished])
    case Dispatch => Run(st.(ready := st.ready[1..]), st.ready[0])
  }

  /** Yield, just before the switch: the head of the ready list is off it, the yielding
      thread is at its end. */
  function YieldTo(st: State): (r: State)
    requires Enabled(st, Yield) && st.ready != []
    ensures CanRun(r, st.ready[0])
  {
    ReadyToRun(st.(ready := st.ready[1..], pc := st.pc[st.current := Yielded]), st.current)
  }

  // ---------------------------------------------------------------- the invariant

  /** The thread sleeps in P(s). */
  ghost predicate Asleep(st: State, t: Tid, s: Sid) {
    t in st.status && t in st.pc && st.status[t] == Blocked && st.pc[t] == InP(s)
  }

  /** Threads that V has taken off the queue and that have not tested the value since. */
  ghost function Woken(st: State, s: Sid): set<Tid> {
    set t | t in st.status && t in st.pc && st.status[t] == Ready && st.pc[t] == InP(s)
  }

  /** The status of a thread and its place in the kernel fit together. */
  ghost predicate Consistent(st: State, t: Tid)
    requires t in st.status && t in st.pc
  {
    match st.status[t]
    case JustCreated => st.pc[t] == Unstarted
    case Running => st.pc[t] == Outside && t == st.current
    case Ready => st.pc[t] == Unstarted || st.pc[t] == Yielded || (st.pc[t].InP? && st.pc[t].sem in st.sems)
    case Blocked => st.pc[t] == Finished || (st.pc[t].InP? && st.pc[t].sem in st.sems)
  }

  ghost predicate SemOk(st: State, s: Sid)
    requires s in st.sems
  {
    var m := st.sems[s];
    && NoDuplicates(m.queue)
    && (forall t :: t in m.queue <==> Asleep(st, t, s))
    && (m.queue != [] ==> m.value <= |Woken(st, s)|)
  }

  /** The invariant; `limbo` is a thread taken off the ready list that is about to run. */
  ghost predicate Core(st: State, limbo: Option<Tid>) {
    && st.status.Keys == st.pc.Keys && st.current in st.status
    && (forall t | t in st.status :: Consistent(st, t))
    && NoDuplicates(st.ready)
    && (forall t :: t in st.ready <==> t in st.status && st.status[t] == Ready && limbo != Some(t))
    && (limbo.Some? ==> limbo.value in st.status && st.status[limbo.value] == Ready)
    && (forall s | s in st.sems :: SemOk(st, s))
    && (st.doomed.Some? ==> st.doomed.value in st.pc && st.pc[st.doomed.value] == Finished)
  }

  ghost predicate Inv(st: State) { Core(st, None) }

  ghost predicate Init(st: State) {
    && st.ready == [] && st.doomed == None && st.sems == map[]
    && st.status == map[st.current := Running] && st.pc == map[st.current := Outside]
  }

  // ---------------------------------------------------------------- every step keeps it

  lemma SnocNoDuplicates(q: seq<Tid>, t: Tid)
    requires NoDuplicates(q) && t !in q
    ensures NoDuplicates(q + [t])
  {
  }

  /** A semaphore that a step leaves alone, with its sleepers and woken threads. */
  lemma SemFrame(st: State, st': State, s: Sid)
    requires s in st.sems && s in st'.sems && st'.sems[s] == st.sems[s] && SemOk(st, s)
    requires forall t :: Asleep(st', t, s) <==> Asleep(st, t, s)
    requires Woken(st', s) == Woken(st, s)
    ensures SemOk(st', s)
  {
  }

  /** st would satisfy the invariant but for thread t, which holds the processor inside P(s):
      it is on no list, and if it is one of the woken then the value may still count on it. */
  ghost predicate Entering(st: State, t: Tid, s: Sid) {
    && st.status.Keys == st.pc.Keys && t in st.status && t == st.current
    && (st.status[t] == Running || (st.status[t] == Ready && st.pc[t] == InP(s)))
    && (st.status[t] == Running ==> st.pc[t] == Outside)
    && (forall x | x in st.status && x != t :: Consistent(st, x))
    && NoDuplicates(st.ready)
    && (forall x :: x in st.ready <==> x in st.status && st.status[x] == Ready && x != t)
    && (forall x | x in st.sems :: SemOk(st, x))
    && (st.doomed.Some? ==> st.doomed.value in st.pc && st.pc[st.doomed.value] == Finished)
  }

  lemma TryPSem(st: State, t: Tid, s: Sid)
    requires s in st.sems && Entering(st, t, s)
    ensures SemOk(TryP(st, t, s), s)
  {
    if st.sems[s].value == 0 { BlockSem(st, t, s); } else { PassSem(st, t, s); }
  }

  lemma BlockSem(st: State, t: Tid, s: Sid)
    requires s in st.sems && Entering(st, t, s) && st.sems[s].value == 0
    ensures SemOk(TryP(st, t, s), s)
  {
    var st', m := TryP(st, t, s), st.sems[s];
    assert SemOk(st, s) && !Asleep(st, t, s);
    SnocNoDuplicates(m.queue, t);
    assert forall x :: Asleep(st', x, s) <==> Asleep(st, x, s) || x == t;
  }

  lemma PassSem(st: State, t: Tid, s: Sid)
    requires s in st.sems && Entering(st, t, s) && st.sems[s].value > 0
    ensures SemOk(TryP(st, t, s), s)
  {
    var st' := TryP(st, t, s);
    assert SemOk(st, s) && !Asleep(st, t, s);
    assert Woken(st', s) == Woken(st, s) - {t};
    assert forall x :: Asleep(st', x, s) <==> Asleep(st, x, s);
  }

  lemma TryPOtherSem(st: State, t: Tid, s: Sid, x: Sid)
    requires s in st.sems && Entering(st, t, s) && x in st.sems && x != s
    ensures SemOk(TryP(st, t, s), x)
  {
    var st' := TryP(st, t, s);
    assert Woken(st', x) == Woken(st, x);
    assert forall y :: Asleep(st', y, x) <==> Asleep(st, y, x);
    SemFrame(st, st', x);
  }

  /** Blocking in P, or completing it, restores the invariant. */
  lemma TryPKeepsInv(st: State, t: Tid, s: Sid)
    requires s in st.sems && Entering(st, t, s)
    ensures Inv(TryP(st, t, s))
  {
    hide SemOk;
    var st' := TryP(st, t, s);
    forall x | x in st'.sems ensures SemOk(st', x) {
      if x == s { TryPSem(st, t, s); } else { TryPOtherSem(st, t, s, x); }
    }
  }

  /** Destroying the carcass of a finished thread: it is on no list. */
  lemma ReapKeepsCore(st: State, limbo: Option<Tid>)
    requires Core(st, limbo) && st.doomed != Some(st.current)
    ensures Core(Reap(st), limbo)
  {
    hide SemOk;
    var st' := Reap(st);
    forall s | s in st'.sems ensures SemOk(st', s) {
      assert forall t :: Asleep(st', t, s) <==> Asleep(st, t, s);
      assert Woken(st', s) == Woken(st, s);
      SemFrame(st, st', s);
    }
  }

  /** A thread that does not sleep in P goes on the processor. */
  lemma StartKeepsInv(st: State, t: Tid)
    requires Core(st, Some(t)) && t == st.current && !st.pc[t].InP?
    ensures Inv(st.(status := st.status[t := Running], pc := st.pc[t := Outside]))
  {
    hide SemOk;
    var st' := st.(status := st.status[t := Running], pc := st.pc[t := Outside]);
    forall s | s in st'.sems ensures SemOk(st', s) {
      assert forall x :: Asleep(st', x, s) <==> Asleep(st, x, s);
      assert Woken(st', s) == Woken(st, s);
      SemFrame(st, st', s);
    }
  }

  lemma SwitchKeepsCore(st: State, t: Tid)
    requires Core(st, Some(t)) && !Executing(st)
    ensures Core(st.(current := t), Some(t))
  {
    hide SemOk;
    var st' := st.(current := t);
    forall s | s in st'.sems ensures SemOk(st', s) {
      assert forall x :: Asleep(st', x, s) <==> Asleep(st, x, s);
      assert Woken(st', s) == Woken(st, s);
      SemFrame(st, st', s);
    }
  }

  lemma RunKeepsInv(st: State, t: Tid)
    requires Core(st, Some(t)) && !Executing(st)
    ensures CanRun(st, t) && Inv(Run(st, t))
  {
    hide SemOk;
    SwitchKeepsCore(st, t);
    var st' := st.(current := t);
    match st.pc[t] {
      case InP(s) =>
        ReapKeepsCore(st', Some(t));
        TryPKeepsInv(Reap(st'), t, s);
      case Unstarted =>
        StartKeepsInv(st', t);
      case _ =>
        ReapKeepsCore(st', Some(t));
        StartKeepsInv(Reap(st'), t);
    }
  }

  /** Taking the head off the ready list. */
  lemma PopKeepsCore(st: State)
    requires Inv(st) && st.ready != []
    ensures Core(st.(ready := st.ready[1..]), Some(st.ready[0]))
  {
    hide SemOk;
    var st' := st.(ready := st.ready[1..]);
    forall s | s in st'.sems ensures SemOk(st', s) {
      assert forall x :: Asleep(st', x, s) <==> Asleep(st, x, s);
      assert Woken(st', s) == Woken(st, s);
      SemFrame(st, st', s);
    }
  }

  lemma YieldToKeepsCore(st: State)
    requires Inv(st) && Enabled(st, Yield) && st.ready != []
    ensures Core(YieldTo(st), Some(st.ready[0])) && !Executing(YieldTo(st))
  {
    hide SemOk;
    PopKeepsCore(st);
    var st1, st' := st.(ready := st.ready[1..]), YieldTo(st);
    SnocNoDuplicates(st1.ready, st.current);
    forall s | s in st'.sems ensures SemOk(st', s) {
      assert forall x :: Asleep(st', x, s) <==> Asleep(st1, x, s);
      assert Woken(st', s) == Woken(st1, s);
      SemFrame(st1, st', s);
    }
  }

  lemma YieldKeepsInv(st: State)
    requires Inv(st) && Enabled(st, Yield)
    ensures Inv(Next(st, Yield))
  {
    hide Core;
    if st.ready != [] {
      YieldToKeepsCore(st);
      RunKeepsInv(YieldTo(st), st.ready[0]);
    }
  }

  lemma DoVSem(st: State, s: Sid)
    requires Inv(st) && s in st.sems
    ensures SemOk(DoV(st, s), s)
  {
    var st', m := DoV(st, s), st.sems[s];
    if m.queue != [] {
      var t := m.queue[0];
      assert Asleep(st, t, s);
      assert Woken(st', s) == Woken(st, s) + {t};
      forall x ensures x in m.queue[1..] <==> Asleep(st', x, s) {
        assert x in m.queue <==> Asleep(st, x, s);
      }
    } else {
      assert forall x :: Asleep(st', x, s) <==> Asleep(st, x, s);
    }
  }

  lemma DoVKeepsInv(st: State, s: Sid)
    requires Inv(st) && s in st.sems
    ensures Inv(DoV(st, s))
  {
    var st', m := DoV(st, s), st.sems[s];
    DoVSem(st, s);
    if m.queue != [] {
      assert Asleep(st, m.queue[0], s) by { assert SemOk(st, s); }
      SnocNoDuplicates(st.ready, m.queue[0]);
    }
    hide SemOk;
    forall x | x in st'.sems ensures SemOk(st', x) {
      if x != s {
        assert forall y :: Asleep(st', y, x) <==> Asleep(st, y, x);
        assert Woken(st', x) == Woken(st, x);
        SemFrame(st, st', x);
      }
    }
  }

  lemma SimpleStepKeepsInv(st: State, e: Event)
    requires Inv(st) && Enabled(st, e) && (e.NewThread? || e.Fork? || e.Finish?)
    ensures Inv(Next(st, e))
  {
    hide SemOk;
    var st' := Next(st, e);
    if e.Fork? { SnocNoDuplicates(st.ready, e.t); }
    forall s | s in st'.sems ensures SemOk(st', s) {
      assert forall x :: Asleep(st', x, s) <==> Asleep(st, x, s);
      assert Woken(st', s) == Woken(st, s);
      SemFrame(st, st', s);
    }
  }

  lemma NewSemaphoreKeepsInv(st: State, s: Sid, v: nat)
    requires Inv(st) && Enabled(st, NewSemaphore(s, v))
    ensures Inv(Next(st, NewSemaphore(s, v)))
  {
    var st' := Next(st, NewSemaphore(s, v));
    assert SemOk(st', s) by {
      assert forall t :: !Asleep(st', t, s);
    }
    hide SemOk;
    forall x | x in st'.sems && x != s ensures SemOk(st', x) {
      assert forall y :: Asleep(st', y, x) <==> Asleep(st, y, x);
      assert Woken(st', x) == Woken(st, x);
      SemFrame(st, st', x);
    }
  }

  lemma StepKeepsInv(st: State, e: Event)
    requires Inv(st) && Enabled(st, e)
    ensures Inv(Next(st, e))
  {
    match e
    case NewSemaphore(s, v) => NewSemaphoreKeepsInv(st, s, v);
    case P(s) => TryPKeepsInv(st, st.current, s);
    case V(s) => DoVKeepsInv(st, s);
    case HandlerV(s) => DoVKeepsInv(st, s);
    case Yield => YieldKeepsInv(st);
    case Dispatch =>
      PopKeepsCore(st);
      RunKeepsInv(st.(ready := st.ready[1..]), st.ready[0]);
    case _ => SimpleStepKeepsInv(st, e);
  }

  // ---------------------------------------------------------------- whole runs

  ghost predicate IsRun(sts: seq<State>, es: seq<Event>) {
    && |sts| == |es| + 1
    && forall i {:trigger es[i]} | 0 <= i < |es| :: Enabled(sts[i], es[i]) && sts[i + 1] == Next(sts[i], es[i])
  }

  lemma RunLength(sts: seq<State>, es: seq<Event>)
    requires IsRun(sts, es)
    ensures |sts| == |es| + 1
  {
  }

  lemma StepOf(sts: seq<State>, es: seq<Event>, k: nat)
    requires IsRun(sts, es) && k < |es|
    ensures |sts| == |es| + 1 && Enabled(sts[k], es[k]) && sts[k + 1] == Next(sts[k], es[k])
  {
    hide Next, Enabled;
  }

  lemma {:induction false} RunKeepsInvariant(sts: seq<State>, es: seq<Event>, k: nat)
    requires IsRun(sts, es) && Init(sts[0]) && k <= |es|
    ensures Inv(sts[k])
  {
    if k > 0 {
      RunKeepsInvariant(sts, es, k - 1);
      StepKeepsInv(sts[k - 1], es[k - 1]);
    }
  }

  // ---------------------------------------------------------------- what the log of a run says

  predicate IsRunning(st: State, t: Tid) { t in st.status && st.status[t] == Running }

  /** The event is something that thread t does. */
  predicate Acts(st: State, e: Event, t: Tid) {
    st.current == t && !e.HandlerV? && !e.Dispatch?
  }

  /** Thread t has called P(s) and has not run since. */
  ghost predicate Inside(sts: seq<State>, es: seq<Event>, k: nat, t: Tid, s: Sid)
    requires |sts| == |es| + 1 && k <= |es|
  {
    k > 0 && !IsRunning(sts[k], t) && if Acts(sts[k - 1], es[k - 1], t) then es[k - 1] == P(s) else Inside(sts, es, k - 1, t, s)
  }

  /** In step i a thread gets past P(s): it runs, having just called it or having been inside it. */
  ghost predicate PassAt(sts: seq<State>, es: seq<Event>, i: nat, s: Sid)
    requires |sts| == |es| + 1 && i < |es|
  {
    var t := sts[i + 1].current;
    IsRunning(sts[i + 1], t) && if Acts(sts[i], es[i], t) then es[i] == P(s) else Inside(sts, es, i, t, s)
  }

  predicate IsV(e: Event, s: Sid) { e == V(s) || e == HandlerV(s) }

  /** How often a P(s) was got past in the first k steps, and how often by thread t. */
  ghost function Passes(sts: seq<State>, es: seq<Event>, k: nat, s: Sid): (n: nat)
    requires |sts| == |es| + 1 && k <= |es|
  {
    if k == 0 then 0 else Passes(sts, es, k - 1, s) + if PassAt(sts, es, k - 1, s) then 1 else 0
  }

  ghost function PassesBy(sts: seq<State>, es: seq<Event>, k: nat, s: Sid, t: Tid): (n: nat)
    requires |sts| == |es| + 1 && k <= |es|
  {
    if k == 0 then 0
    else PassesBy(sts, es, k - 1, s, t) + if PassAt(sts, es, k - 1, s) && sts[k].current == t then 1 else 0
  }

  /** The same for V(s). */
  ghost function Vs(es: seq<Event>, k: nat, s: Sid): (n: nat)
    requires k <= |es|
  {
    if k == 0 then 0 else Vs(es, k - 1, s) + if IsV(es[k - 1], s) then 1 else 0
  }

  ghost function VsBy(sts: seq<State>, es: seq<Event>, k: nat, s: Sid, t: Tid): (n: nat)
    requires |sts| == |es| + 1 && k <= |es|
  {
    if k == 0 then 0 else VsBy(sts, es, k - 1, s, t) + if es[k - 1] == V(s) && sts[k - 1].current == t then 1 else 0
  }

  /** The value the semaphore was made with. */
  ghost function Initial(es: seq<Event>, k: nat, s: Sid): (v: nat)
    requires k <= |es|
  {
    if k == 0 then 0 else if es[k - 1].NewSemaphore? && es[k - 1].s == s then es[k - 1].initial else Initial(es, k - 1, s)
  }

  ghost predicate At(st: State, t: Tid, p: Pc) { t in st.pc && st.pc[t] == p }

  /** A switch to x: only x itself can run afterwards, and only x can get past P. */
  lemma RunInside(st: State, x: Tid, t: Tid, s: Sid)
    requires Core(st, Some(x)) && !Executing(st)
    ensures CanRun(st, x) && Run(st, x).current == x
    ensures At(Run(st, x), t, InP(s)) <==> At(st, t, InP(s)) && !IsRunning(Run(st, x), t)
    ensures s in st.sems ==>
      && s in Run(st, x).sems
      && Run(st, x).sems[s].value == st.sems[s].value - if IsRunning(Run(st, x), x) && At(st, x, InP(s)) then 1 else 0
    ensures s !in st.sems ==> s !in Run(st, x).sems && !At(st, x, InP(s))
  {
    hide SemOk;
    assert Consistent(st, x);
    if t in st.status { assert Consistent(st, t); }
  }

  lemma YieldInside(st: State, t: Tid, s: Sid)
    requires Inv(st) && Enabled(st, Yield) && st.ready != []
    ensures YieldTo(st).sems == st.sems && (At(YieldTo(st), t, InP(s)) <==> At(st, t, InP(s)))
  {
    assert Consistent(st, st.current);
  }

  lemma SimpleInside(st: State, e: Event, t: Tid, s: Sid)
    requires Inv(st) && Enabled(st, e) && e != Dispatch && (e == Yield ==> st.ready == [])
    ensures var st' := Next(st, e);
      && st'.current == st.current
      && (At(st', t, InP(s)) <==> !IsRunning(st', t) && if Acts(st, e, t) then e == P(s) else At(st, t, InP(s)))
  {
    hide SemOk;
    if t in st.status { assert Consistent(st, t); }
    assert Consistent(st, st.current);
    if (e.V? || e.HandlerV?) && st.sems[e.s].queue != [] { SleeperIsInP(st, e.s); }
  }

  lemma SleeperIsInP(st: State, s: Sid)
    requires Inv(st) && s in st.sems && st.sems[s].queue != []
    ensures Asleep(st, st.sems[s].queue[0], s)
  {
    assert SemOk(st, s);
  }

  /** The program counter of a thread says whether it is inside P. */
  lemma InsideStep(st: State, e: Event, t: Tid, s: Sid)
    requires Inv(st) && Enabled(st, e)
    ensures var st' := Next(st, e);
      At(st', t, InP(s)) <==> !IsRunning(st', t) && if Acts(st, e, t) then e == P(s) else At(st, t, InP(s))
  {
    if e == Dispatch {
      PopKeepsCore(st);
      hide Core, Run;
      RunInside(st.(ready := st.ready[1..]), st.ready[0], t, s);
    } else if e == Yield && st.ready != [] {
      YieldToKeepsCore(st);
      YieldInside(st, t, s);
      CallerIsOutside(st);
      hide Core, Run, YieldTo;
      RunInside(YieldTo(st), st.ready[0], t, s);
    } else {
      hide Core, Next;
      SimpleInside(st, e, t, s);
    }
  }

  lemma CallerIsOutside(st: State)
    requires Inv(st) && Executing(st)
    ensures At(st, st.current, Outside) && st.current !in st.ready
  {
    assert Consistent(st, st.current);
    hide SemOk;
  }

  lemma {:induction false} InsideIsInP(sts: seq<State>, es: seq<Event>, k: nat, t: Tid, s: Sid)
    requires IsRun(sts, es) && Init(sts[0]) && k <= |es|
    ensures Inside(sts, es, k, t, s) <==> At(sts[k], t, InP(s))
  {
    if k > 0 {
      hide Next, Enabled, Inv;
      RunKeepsInvariant(sts, es, k - 1);
      InsideIsInP(sts, es, k - 1, t, s);
      InsideStep(sts[k - 1], es[k - 1], t, s);
    }
  }

  /** What one step does to the value of a semaphore. */
  lemma ValueStep(st: State, e: Event, s: Sid)
    requires Inv(st) && Enabled(st, e)
    ensures var st' := Next(st, e); var t := st'.current;
      var pass := IsRunning(st', t) && if Acts(st, e, t) then e == P(s) else At(st, t, InP(s));
      && (s in st.sems ==> s in st'.sems && st'.sems[s].value == st.sems[s].value + (if IsV(e, s) then 1 else 0) - (if pass then 1 else 0))
      && (s !in st.sems ==> !pass && !IsV(e, s))
      && (s !in st.sems && s in st'.sems ==> e == NewSemaphore(s, st'.sems[s].value))
      && (s in st.sems ==> !(e.NewSemaphore? && e.s == s))
  {
    if e == Dispatch {
      PopKeepsCore(st);
      hide Core, Run;
      RunInside(st.(ready := st.ready[1..]), st.ready[0], st.ready[0], s);
    } else if e == Yield && st.ready != [] {
      YieldToKeepsCore(st);
      YieldInside(st, st.ready[0], s);
      CallerIsOutside(st);
      hide Core, Run, YieldTo;
      RunInside(YieldTo(st), st.ready[0], st.ready[0], s);
    } else {
      SimpleValue(st, e, s);
    }
  }

  lemma SimpleValue(st: State, e: Event, s: Sid)
    requires Inv(st) && Enabled(st, e) && e != Dispatch && (e == Yield ==> st.ready == [])
    ensures var st' := Next(st, e); var t := st'.current;
      var pass := IsRunning(st', t) && if Acts(st, e, t) then e == P(s) else At(st, t, InP(s));
      && (s in st.sems ==> s in st'.sems && st'.sems[s].value == st.sems[s].value + (if IsV(e, s) then 1 else 0) - (if pass then 1 else 0))
      && (s !in st.sems ==> !pass && !IsV(e, s))
      && (s !in st.sems && s in st'.sems ==> e == NewSemaphore(s, st'.sems[s].value))
      && (s in st.sems ==> !(e.NewSemaphore? && e.s == s))
  {
    hide SemOk;
    assert Consistent(st, st.current);
    if (e.V? || e.HandlerV?) && st.sems[e.s].queue != [] { SleeperIsInP(st, e.s); }
  }

  /** In every reachable state the value of a semaphore is what it was made with, plus the Vs,
      minus the Ps that some thread got past. */
  lemma {:induction false} ValueCounts(sts: seq<State>, es: seq<Event>, k: nat, s: Sid)
    requires IsRun(sts, es) && Init(sts[0]) && k <= |es|
    ensures s in sts[k].sems ==> sts[k].sems[s].value == Initial(es, k, s) + Vs(es, k, s) - Passes(sts, es, k, s)
    ensures s !in sts[k].sems ==> Vs(es, k, s) == Passes(sts, es, k, s) == 0
  {
    hide Next, Enabled, Inv, Inside, At;
    if k > 0 {
      StepOf(sts, es, k - 1);
      RunKeepsInvariant(sts, es, k - 1);
      ValueCounts(sts, es, k - 1, s);
      ValueStep(sts[k - 1], es[k - 1], s);
      InsideIsInP(sts, es, k - 1, sts[k].current, s);
    }
  }

  /** No lost wakeup, in every reachable state: while threads sleep on a semaphore, its value
      is covered by threads already woken that will test it again, however many new callers
      of P overtake them. So when no thread is ready and none runs, a thread sleeps only on
      a semaphore whose value is zero. */
  lemma NoLostWakeup(sts: seq<State>, es: seq<Event>, k: nat, s: Sid)
    requires IsRun(sts, es) && Init(sts[0]) && k <= |es| && s in sts[k].sems
    ensures var st, m := sts[k], sts[k].sems[s];
      && (forall t :: t in m.queue ==> Inside(sts, es, k, t, s))
      && (m.queue != [] ==> m.value <= |Woken(st, s)|)
      && (m.queue != [] && st.ready == [] ==> m.value == 0)
      && m.value == Initial(es, k, s) + Vs(es, k, s) - Passes(sts, es, k, s)
  {
    RunKeepsInvariant(sts, es, k);
    ValueCounts(sts, es, k, s);
    var st := sts[k];
    assert SemOk(st, s);
    if st.ready == [] {
      assert forall t | t in st.status :: st.status[t] == Ready ==> t in st.ready;
      assert Woken(st, s) == {};
    }
    forall t | t in st.sems[s].queue ensures Inside(sts, es, k, t, s) {
      assert Asleep(st, t, s);
      InsideIsInP(sts, es, k, t, s);
    }
  }

  // ---------------------------------------------------------------- where threads are

  datatype Place = OnCpu | OnReadyList | OnQueue(sem: Sid) | NotForked | Over

  ghost predicate Stands(st: State, t: Tid, p: Place)
    requires t in st.status && t in st.pc
  {
    match p
    case OnCpu => t == st.current && st.status[t] == Running
    case OnReadyList => t in st.ready
    case OnQueue(s) => s in st.sems && t in st.sems[s].queue
    case NotForked => st.status[t] == JustCreated
    case Over => st.pc[t] == Finished
  }

  ghost function PlaceOf(st: State, t: Tid): Place
    requires t in st.status && t in st.pc
  {
    match st.status[t]
    case JustCreated => NotForked
    case Running => OnCpu
    case Ready => OnReadyList
    case Blocked => if st.pc[t].InP? then OnQueue(st.pc[t].sem) else Over
  }

  /** In every reachable state a live thread is in exactly one place, and once only on the
      list it is on. */
  lemma ExactlyOnePlace(sts: seq<State>, es: seq<Event>, k: nat, t: Tid, p: Place)
    requires IsRun(sts, es) && Init(sts[0]) && k <= |es|
    requires t in sts[k].status && t in sts[k].pc
    ensures Stands(sts[k], t, p) <==> p == PlaceOf(sts[k], t)
    ensures NoDuplicates(sts[k].ready) && forall s | s in sts[k].sems :: NoDuplicates(sts[k].sems[s].queue)
  {
    RunKeepsInvariant(sts, es, k);
    var st := sts[k];
    assert Consistent(st, t);
    if p.OnQueue? && p.sem in st.sems {
      assert SemOk(st, p.sem);
      assert t in st.sems[p.sem].queue <==> Asleep(st, t, p.sem);
    }
  }

  /** A thread is destroyed exactly when it is threadToBeDestroyed and a switch comes back into a
      thread that has run before; a switch to a new thread leaves it for later. */
  lemma DestroyedIff(st: State, e: Event, t: Tid)
    requires Inv(st) && Enabled(st, e) && t in st.status
    ensures t !in Next(st, e).status <==> st.doomed == Some(t) && SwitchAt(st, e) && st.pc[st.ready[0]] != Unstarted
  {
    hide SemOk;
    assert Consistent(st, t);
    assert Consistent(st, st.current);
    if st.ready != [] { assert st.ready[0] in st.status && st.status[st.ready[0]] == Ready && Consistent(st, st.ready[0]); }
    if (e.V? || e.HandlerV?) && st.sems[e.s].queue != [] { SleeperIsInP(st, e.s); }
  }

  /** A thread leaves the kernel's tables only after it finished, while another thread runs,
      and from then on no list refers to it. */
  lemma DestroyedIsNowhere(sts: seq<State>, es: seq<Event>, k: nat, t: Tid, s: Sid)
    requires IsRun(sts, es) && Init(sts[0]) && k < |es|
    requires t in sts[k].status && t !in sts[k + 1].status
    ensures sts[k].doomed == Some(t) && t in sts[k].pc && sts[k].pc[t] == Finished
    ensures t != sts[k + 1].current && t !in sts[k + 1].ready
    ensures s in sts[k + 1].sems ==> t !in sts[k + 1].sems[s].queue
  {
    hide Next, Enabled;
    RunKeepsInvariant(sts, es, k);
    RunKeepsInvariant(sts, es, k + 1);
    DestroyedIff(sts[k], es[k], t);
    if s in sts[k + 1].sems {
      assert SemOk(sts[k + 1], s);
      assert !Asleep(sts[k + 1], t, s);
    }
  }

  // ---------------------------------------------------------------- first come, first served

  /** The step switches to another thread. */
  predicate SwitchAt(st: State, e: Event) { e == Dispatch || (e == Yield && st.ready != []) }

  /** Whom the processor went to in the first k steps. */
  ghost function Switches(sts: seq<State>, es: seq<Event>, k: nat): (ts: seq<Tid>)
    requires |sts| == |es| + 1 && k <= |es|
  {
    if k == 0 then []
    else Switches(sts, es, k - 1) + if SwitchAt(sts[k - 1], es[k - 1]) then [sts[k].current] else []
  }

  /** A switch goes to the head of the ready list; otherwise the list only grows at its end. */
  lemma StepKeepsQueueing(st: State, e: Event)
    requires Enabled(st, e)
    ensures if SwitchAt(st, e) then st.ready != [] && Next(st, e).current == st.ready[0] && st.ready[1..] <= Next(st, e).ready
            else st.ready <= Next(st, e).ready
  {
  }

  /** A log followed by a queue grows when the head of the queue goes to the log, and when the
      queue gets longer. */
  lemma LogGrows(a: seq<Tid>, log: seq<Tid>, q: seq<Tid>, served: seq<Tid>, q': seq<Tid>)
    requires a <= log + q
    requires (served == [] && q <= q') || (q != [] && served == [q[0]] && q[1..] <= q')
    ensures a <= log + served + q'
  {
    var b := log + q;
    assert b <= log + served + q' by {
      if served != [] { assert q == [q[0]] + q[1..]; }
    }
  }

  lemma AtPosition(log: seq<Tid>, q: seq<Tid>, log': seq<Tid>, q': seq<Tid>, n: nat)
    requires log + q <= log' + q' && n < |q| && |log| + n < |log'|
    ensures log'[|log| + n] == q[n]
  {
    assert (log + q)[|log| + n] == (log' + q')[|log| + n];
  }

  /** Whom the processor went to, followed by whom it will go to next: this only ever grows at
      its end. */
  lemma {:induction false} ScheduleGrows(sts: seq<State>, es: seq<Event>, i: nat, k: nat)
    requires IsRun(sts, es) && i <= k <= |es|
    ensures Switches(sts, es, i) + sts[i].ready <= Switches(sts, es, k) + sts[k].ready
    ensures |Switches(sts, es, i)| <= |Switches(sts, es, k)|
  {
    hide Next, Enabled, IsRun, Switches;
    if i < k {
      StepOf(sts, es, k - 1);
      var served := SwitchesStep(sts, es, k);
      ScheduleGrows(sts, es, i, k - 1);
      StepKeepsQueueing(sts[k - 1], es[k - 1]);
      LogGrows(Switches(sts, es, i) + sts[i].ready, Switches(sts, es, k - 1), sts[k - 1].ready, served, sts[k].ready);
    }
  }

  lemma SwitchesStep(sts: seq<State>, es: seq<Event>, k: nat) returns (served: seq<Tid>)
    requires |sts| == |es| + 1 && 0 < k <= |es|
    ensures served == (if SwitchAt(sts[k - 1], es[k - 1]) then [sts[k].current] else [])
    ensures Switches(sts, es, k) == Switches(sts, es, k - 1) + served
  {
    served := if SwitchAt(sts[k - 1], es[k - 1]) then [sts[k].current] else [];
  }

  /** The thread at position n of the ready list is the one switched to after exactly n
      other switches. */
  lemma DispatchedInOrder(sts: seq<State>, es: seq<Event>, i: nat, k: nat, n: nat)
    requires IsRun(sts, es) && i <= k <= |es| && n < |sts[i].ready|
    requires |Switches(sts, es, k)| > |Switches(sts, es, i)| + n
    ensures Switches(sts, es, k)[|Switches(sts, es, i)| + n] == sts[i].ready[n]
  {
    ScheduleGrows(sts, es, i, k);
    hide IsRun, Switches;
    AtPosition(Switches(sts, es, i), sts[i].ready, Switches(sts, es, k), sts[k].ready, n);
  }

  /** Whom the Vs on s woke in the first k steps. */
  ghost function Wakes(sts: seq<State>, es: seq<Event>, k: nat, s: Sid): (ts: seq<Tid>)
    requires |sts| == |es| + 1 && k <= |es|
  {
    if k == 0 then []
    else Wakes(sts, es, k - 1, s) + if WakeAt(sts[k - 1], es[k - 1], s, sts[k]) then [sts[k].ready[|sts[k].ready| - 1]] else []
  }

  /** A V on s that makes one more thread ready. */
  predicate WakeAt(st: State, e: Event, s: Sid, st': State) {
    IsV(e, s) && |st'.ready| > |st.ready|
  }

  function QueueOf(st: State, s: Sid): (q: seq<Tid>) { if s in st.sems then st.sems[s].queue else [] }

  /** V makes the first sleeper ready, if there is one; otherwise the queue only grows at its end. */
  lemma StepKeepsSleeping(st: State, e: Event, s: Sid)
    requires Enabled(st, e)
    ensures var st' := Next(st, e); var q, q' := QueueOf(st, s), QueueOf(st', s);
      if WakeAt(st, e, s, st') then q != [] && st'.ready == st.ready + [q[0]] && q' == q[1..] else q <= q'
    ensures IsV(e, s) && QueueOf(st, s) != [] ==> WakeAt(st, e, s, Next(st, e))
  {
  }

  lemma {:induction false} SleepersGrow(sts: seq<State>, es: seq<Event>, s: Sid, i: nat, k: nat)
    requires IsRun(sts, es) && i <= k <= |es|
    ensures Wakes(sts, es, i, s) + QueueOf(sts[i], s) <= Wakes(sts, es, k, s) + QueueOf(sts[k], s)
    ensures |Wakes(sts, es, i, s)| <= |Wakes(sts, es, k, s)|
  {
    hide Next, Enabled, WakeAt, QueueOf, IsRun, Wakes;
    if i < k {
      StepOf(sts, es, k - 1);
      var served := WakesStep(sts, es, k, s);
      SleepersGrow(sts, es, s, i, k - 1);
      StepKeepsSleeping(sts[k - 1], es[k - 1], s);
      LogGrows(Wakes(sts, es, i, s) + QueueOf(sts[i], s), Wakes(sts, es, k - 1, s), QueueOf(sts[k - 1], s), served, QueueOf(sts[k], s));
    }
  }

  lemma WakesStep(sts: seq<State>, es: seq<Event>, k: nat, s: Sid) returns (served: seq<Tid>)
    requires |sts| == |es| + 1 && 0 < k <= |es|
    ensures if WakeAt(sts[k - 1], es[k - 1], s, sts[k]) then sts[k].ready != [] && served == [sts[k].ready[|sts[k].ready| - 1]] else served == []
    ensures Wakes(sts, es, k, s) == Wakes(sts, es, k - 1, s) + served
  {
    served := if WakeAt(sts[k - 1], es[k - 1], s, sts[k]) then [sts[k].ready[|sts[k].ready| - 1]] else [];
  }

  /** The thread at position n of the queue of a semaphore is the one made ready after exactly n
      others. */
  lemma WokenInOrder(sts: seq<State>, es: seq<Event>, s: Sid, i: nat, k: nat, n: nat)
    requires IsRun(sts, es) && i <= k <= |es| && n < |QueueOf(sts[i], s)|
    requires |Wakes(sts, es, k, s)| > |Wakes(sts, es, i, s)| + n
    ensures Wakes(sts, es, k, s)[|Wakes(sts, es, i, s)| + n] == QueueOf(sts[i], s)[n]
  {
    SleepersGrow(sts, es, s, i, k);
    hide IsRun, Wakes, QueueOf;
    AtPosition(Wakes(sts, es, i, s), QueueOf(sts[i], s), Wakes(sts, es, k, s), QueueOf(sts[k], s), n);
  }

  // ---------------------------------------------------------------- what the calls do to their caller

  /** P takes a unit and goes on, or goes to the end of the queue and gives up the processor. */
  lemma PEffect(st: State, s: Sid)
    requires Enabled(st, P(s))
    ensures var st', t, m := Next(st, P(s)), st.current, st.sems[s]; var m' := st'.sems[s];
      && st'.current == t && st'.ready == st.ready
      && (m.value > 0 ==> IsRunning(st', t) && m'.value == m.value - 1 && m'.queue == m.queue)
      && (m.value == 0 ==> !Executing(st') && Asleep(st', t, s) && m'.value == 0 && m'.queue == m.queue + [t])
      && (forall x | x in st.sems && x != s :: st'.sems[x] == st.sems[x])
      && (forall u | u in st.status && u != t :: st'.status[u] == st.status[u])
  {
  }

  /** V makes a unit, and wakes the first sleeper; its caller goes on. */
  lemma VEffect(st: State, e: Event, s: Sid)
    requires Inv(st) && Enabled(st, e) && IsV(e, s)
    ensures var st', m := Next(st, e), st.sems[s]; var m' := st'.sems[s];
      && st'.current == st.current && m'.value == m.value + 1 && (Executing(st) ==> Executing(st'))
      && (m.queue == [] ==> st' == st.(sems := st'.sems) && m'.queue == [])
      && (m.queue != [] ==> m'.queue == m.queue[1..] && st'.ready == st.ready + [m.queue[0]] && st'.status[m.queue[0]] == Ready)
      && (forall x | x in st.sems && x != s :: st'.sems[x] == st.sems[x])
      && (forall u | u in st.status && [u] != m.queue[..Least(1, |m.queue|)] :: st'.status[u] == st.status[u])
  {
    assert SemOk(st, s);
    if st.sems[s].queue != [] { assert Asleep(st, st.sems[s].queue[0], s); }
  }

  function Least(a: nat, b: nat): nat { if a < b then a else b }

  /** A new thread can be forked. */
  lemma NewThreadEffect(st: State, t: Tid)
    requires Inv(st) && Enabled(st, NewThread(t))
    ensures var st' := Next(st, NewThread(t)); st'.current == st.current && st'.ready == st.ready && Enabled(st', Fork(t))
  {
    assert Consistent(st, st.current);
  }

  /** A thread that is forked becomes the last of the ready list. */
  lemma ForkEffect(st: State, t: Tid)
    requires Inv(st) && Enabled(st, Fork(t))
    ensures var st' := Next(st, Fork(t));
      st'.ready == st.ready + [t] && st'.status[t] == Ready && st'.current == st.current && Executing(st')
  {
  }

  /** Yield gives way to the head of the ready list, and puts its caller at the end. */
  lemma YieldEffect(st: State)
    requires Inv(st) && Enabled(st, Yield)
    ensures var st' := Next(st, Yield);
      if st.ready == [] then st' == st
      else st'.current == st.ready[0] && st'.ready == st.ready[1..] + [st.current] && st.current in st'.status && st'.status[st.current] == Ready
  {
    if st.ready != [] { assert st.ready[0] in st.status && st.status[st.ready[0]] == Ready; }
    assert Consistent(st, st.current);
  }

  /** A thread that has finished, or is gone. */
  ghost predicate Ended(st: State, t: Tid) { t in st.pc ==> st.pc[t] == Finished }

  lemma EndedStays(st: State, e: Event, t: Tid)
    requires Inv(st) && Enabled(st, e)
    ensures Ended(st, t) && e != NewThread(t) ==> Ended(Next(st, e), t)
    ensures e == Finish && t == st.current ==> Ended(Next(st, e), t)
    ensures Ended(st, t) ==> !IsRunning(st, t) && t !in st.ready
  {
    hide SemOk;
    if t in st.status { assert Consistent(st, t); }
    assert Consistent(st, st.current);
    if st.ready != [] { assert st.ready[0] in st.status && st.status[st.ready[0]] == Ready && Consistent(st, st.ready[0]); }
  }

  /** A thread that finishes never runs again and is never on the ready list, unless a new
      thread gets its name. */
  lemma {:induction false} FinishIsFinal(sts: seq<State>, es: seq<Event>, i: nat, k: nat)
    requires IsRun(sts, es) && Init(sts[0]) && i < k <= |es| && es[i] == Finish && NewThread(sts[i].current) !in es[i + 1..k]
    ensures Ended(sts[k], sts[i].current) && !IsRunning(sts[k], sts[i].current) && sts[i].current !in sts[k].ready
  {
    hide Next, Enabled, Inv, Ended;
    RunKeepsInvariant(sts, es, k - 1);
    RunKeepsInvariant(sts, es, k);
    if k > i + 1 {
      assert es[i + 1..k] == es[i + 1..k - 1] + [es[k - 1]];
      FinishIsFinal(sts, es, i, k - 1);
    }
    EndedStays(sts[k - 1], es[k - 1], sts[i].current);
    EndedIsOff(sts[k], sts[i].current);
  }

  lemma EndedIsOff(st: State, t: Tid)
    requires Inv(st) && Ended(st, t)
    ensures !IsRunning(st, t) && t !in st.ready
  {
    if t in st.status { assert Consistent(st, t); }
    hide SemOk;
  }

  // ---------------------------------------------------------------- somebody can always go on

  /** In every reachable state the thread on the processor may make any call, and when there is
      none the head of the ready list can be switched to. */
  lemma SomebodyGoesOn(sts: seq<State>, es: seq<Event>, k: nat, s: Sid, t: Tid)
    requires IsRun(sts, es) && Init(sts[0]) && k <= |es|
    ensures var st := sts[k];
      && (Executing(st) ==>
            && Enabled(st, Yield) && Enabled(st, Finish)
            && (Enabled(st, P(s)) <==> s in st.sems) && (Enabled(st, V(s)) <==> s in st.sems)
            && (Enabled(st, NewSemaphore(s, 1)) <==> s !in st.sems) && (Enabled(st, NewThread(t)) <==> t !in st.status)
            && (Enabled(st, Fork(t)) <==> t in st.status && st.status[t] == JustCreated))
      && (!Executing(st) && st.ready != [] ==> Enabled(st, Dispatch))
      && (s in st.sems ==> Enabled(st, HandlerV(s)))
  {
    RunKeepsInvariant(sts, es, k);
    var st := sts[k];
    hide IsRun, SemOk;
    if st.ready != [] { assert st.ready[0] in st.status && st.status[st.ready[0]] == Ready && Consistent(st, st.ready[0]); }
  }

  /** Two threads, 0 and 1, and a semaphore 0 that starts at one: 0 gets past P and yields, 1 has to
      sleep in P, 0 goes on and does V, and then 1 gets past P. */
  function Contention(): (es: seq<Event>) {
    [NewSemaphore(0, 1), NewThread(1), Fork(1), P(0), Yield, P(0), Dispatch, V(0), Yield]
  }

  /** The states on the way. */
  function Stage(i: nat): (st: State) {
    var one := map[0 := Running];
    if i == 0 then State(0, [], one, map[0 := Outside], map[], None)
    else if i == 1 then State(0, [], one, map[0 := Outside], map[0 := Sem(1, [])], None)
    else if i == 2 then State(0, [], map[0 := Running, 1 := JustCreated], map[0 := Outside, 1 := Unstarted], map[0 := Sem(1, [])], None)
    else if i == 3 then State(0, [1], map[0 := Running, 1 := Ready], map[0 := Outside, 1 := Unstarted], map[0 := Sem(1, [])], None)
    else if i == 4 then State(0, [1], map[0 := Running, 1 := Ready], map[0 := Outside, 1 := Unstarted], map[0 := Sem(0, [])], None)
    else if i == 5 then State(1, [0], map[0 := Ready, 1 := Running], map[0 := Yielded, 1 := Outside], map[0 := Sem(0, [])], None)
    else if i == 6 then State(1, [0], map[0 := Ready, 1 := Blocked], map[0 := Yielded, 1 := InP(0)], map[0 := Sem(0, [1])], None)
    else if i == 7 then State(0, [], map[0 := Running, 1 := Blocked], map[0 := Outside, 1 := InP(0)], map[0 := Sem(0, [1])], None)
    else if i == 8 then State(0, [1], map[0 := Running, 1 := Ready], map[0 := Outside, 1 := InP(0)], map[0 := Sem(1, [])], None)
    else State(1, [0], map[0 := Ready, 1 := Running], map[0 := Yielded, 1 := Outside], map[0 := Sem(0, [])], None)
  }

  lemma StageStep(i: nat)
    requires i < |Contention()|
    ensures Enabled(Stage(i), Contention()[i]) && Stage(i + 1) == Next(Stage(i), Contention()[i])
  {
    if i < 5 { EarlyStage(i); } else if i < 7 { MiddleStage(i); } else { LateStage(i); }
  }

  lemma EarlyStage(i: nat)
    requires i < 5
    ensures Enabled(Stage(i), Contention()[i]) && Stage(i + 1) == Next(Stage(i), Contention()[i])
  {
    assert i == 0 || i == 1 || i == 2 || i == 3 || i == 4;
  }

  lemma MiddleStage(i: nat)
    requires 5 <= i < 7
    ensures Enabled(Stage(i), Contention()[i]) && Stage(i + 1) == Next(Stage(i), Contention()[i])
  {
    var none: seq<Tid> := [];
    assert none + [1] == [1] && [0][1..] == none;
    assert i == 5 || i == 6;
  }

  lemma LateStage(i: nat)
    requires 7 <= i < 9
    ensures Enabled(Stage(i), Contention()[i]) && Stage(i + 1) == Next(Stage(i), Contention()[i])
  {
    var none: seq<Tid> := [];
    assert none + [0] == [0] && none + [1] == [1] && [1][1..] == none;
    assert i == 7 || i == 8;
  }

  /** That is a run of the kernel: a thread that finds value 0 is held up until the V. */
  lemma ContentionRuns() returns (sts: seq<State>)
    ensures IsRun(sts, Contention()) && Init(sts[0]) && forall i | 0 <= i <= 9 :: sts[i] == Stage(i)
    ensures Inside(sts, Contention(), 6, 1, 0) && Inside(sts, Contention(), 8, 1, 0) && PassAt(sts, Contention(), 8, 0)
  {
    var es := Contention();
    sts := seq(10, i requires 0 <= i < 10 => Stage(i));
    forall i | 0 <= i < |es| ensures Enabled(sts[i], es[i]) && sts[i + 1] == Next(sts[i], es[i]) {
      StageStep(i);
    }
    hide Next, Enabled;
    assert Inside(sts, es, 6, 1, 0);
    assert Inside(sts, es, 7, 1, 0);
  }

  // ---------------------------------------------------------------- mutual exclusion

  /** The Ps on s that thread t got past, minus its Vs on s. */
  ghost function Holding(sts: seq<State>, es: seq<Event>, k: nat, s: Sid, t: Tid): (n: int)
    requires |sts| == |es| + 1 && k <= |es|
  {
    PassesBy(sts, es, k, s, t) - VsBy(sts, es, k, s, t)
  }

  /** Every V on s is by a thread that is past a P on s, and no interrupt handler calls V on it. */
  ghost predicate Bracketed(sts: seq<State>, es: seq<Event>, s: Sid)
    requires |sts| == |es| + 1
  {
    forall i | 0 <= i < |es| :: Fits(sts, es, i, s)
  }

  /** Step i is not a V on s, or its caller holds s. */
  ghost predicate Fits(sts: seq<State>, es: seq<Event>, i: nat, s: Sid)
    requires |sts| == |es| + 1 && i < |es|
  {
    (es[i] == V(s) ==> Holding(sts, es, i, s, sts[i].current) > 0) && es[i] != HandlerV(s)
  }

  /** The holders, each as often as it holds s. */
  ghost function Holders(sts: seq<State>, es: seq<Event>, k: nat, s: Sid): (h: multiset<Tid>)
    requires |sts| == |es| + 1 && k <= |es|
  {
    if k == 0 then multiset{}
    else
      var h := Holders(sts, es, k - 1, s);
      if PassAt(sts, es, k - 1, s) then h + multiset{sts[k].current}
      else if es[k - 1] == V(s) then h - multiset{sts[k - 1].current}
      else h
  }

  /** No thread gets past a P in a step that is a V. */
  lemma VIsNoPass(sts: seq<State>, es: seq<Event>, i: nat, s: Sid)
    requires IsRun(sts, es) && i < |es| && es[i] == V(s)
    ensures !PassAt(sts, es, i, s)
  {
    hide Inside;
  }

  lemma HoldersNone(sts: seq<State>, es: seq<Event>, s: Sid, t: Tid)
    requires |sts| == |es| + 1
    ensures Holders(sts, es, 0, s) == multiset{} && Holding(sts, es, 0, s, t) == Passes(sts, es, 0, s) == Vs(es, 0, s) == 0
  {
  }

  /** What one step does to holders and counts. */
  lemma HoldersStep(sts: seq<State>, es: seq<Event>, k: nat, s: Sid, t: Tid)
    requires |sts| == |es| + 1 && 0 < k <= |es|
    ensures Holders(sts, es, k, s) ==
      var h := Holders(sts, es, k - 1, s);
      if PassAt(sts, es, k - 1, s) then h + multiset{sts[k].current}
      else if es[k - 1] == V(s) then h - multiset{sts[k - 1].current} else h
    ensures Holding(sts, es, k, s, t) == Holding(sts, es, k - 1, s, t)
      + (if PassAt(sts, es, k - 1, s) && sts[k].current == t then 1 else 0)
      - (if es[k - 1] == V(s) && sts[k - 1].current == t then 1 else 0)
    ensures Passes(sts, es, k, s) == Passes(sts, es, k - 1, s) + if PassAt(sts, es, k - 1, s) then 1 else 0
    ensures Vs(es, k, s) == Vs(es, k - 1, s) + if IsV(es[k - 1], s) then 1 else 0
  {
    hide PassAt;
  }

  lemma VIsByHolder(sts: seq<State>, es: seq<Event>, i: nat, s: Sid)
    requires IsRun(sts, es) && Bracketed(sts, es, s) && i < |es|
    ensures (es[i] == V(s) ==> Holding(sts, es, i, s, sts[i].current) > 0) && es[i] != HandlerV(s)
  {
    assert Fits(sts, es, i, s);
    hide Holding, IsRun;
  }

  lemma {:induction false} HoldersAre(sts: seq<State>, es: seq<Event>, k: nat, s: Sid, t: Tid)
    requires IsRun(sts, es) && Bracketed(sts, es, s) && k <= |es|
    ensures Holders(sts, es, k, s)[t] == Holding(sts, es, k, s, t)
  {
    hide *;
    RunLength(sts, es);
    HoldersNone(sts, es, s, t);
    if k == 0 { return; }
    HoldersStep(sts, es, k, s, t);
    HoldersAre(sts, es, k - 1, s, t);
    if es[k - 1] == V(s) {
      VIsNoPass(sts, es, k - 1, s);
      VIsByHolder(sts, es, k - 1, s);
    }
  }

  lemma {:induction false} HoldersCount(sts: seq<State>, es: seq<Event>, k: nat, s: Sid)
    requires IsRun(sts, es) && Bracketed(sts, es, s) && k <= |es|
    ensures |Holders(sts, es, k, s)| == Passes(sts, es, k, s) - Vs(es, k, s)
  {
    hide Next, Enabled, IsRun, Bracketed, PassAt, Holders, Holding, Passes, Vs;
    RunLength(sts, es);
    HoldersNone(sts, es, s, 0);
    if k == 0 { return; }
    HoldersStep(sts, es, k, s, 0);
    HoldersCount(sts, es, k - 1, s);
    VIsByHolder(sts, es, k - 1, s);
    if es[k - 1] == V(s) {
      VIsNoPass(sts, es, k - 1, s);
      HoldersAre(sts, es, k - 1, s, sts[k - 1].current);
      TakeOne(Holders(sts, es, k - 1, s), sts[k - 1].current);
    }
  }

  lemma TakeOne(h: multiset<Tid>, t: Tid)
    requires t in h
    ensures |h - multiset{t}| == |h| - 1
  {
    assert h == (h - multiset{t}) + multiset{t};
  }

  /** For bracketed use the value and the holders add up to the initial value, in every
      reachable state. */
  lemma TokensConserved(sts: seq<State>, es: seq<Event>, s: Sid, k: nat)
    requires IsRun(sts, es) && Init(sts[0]) && Bracketed(sts, es, s) && k <= |es| && s in sts[k].sems
    ensures sts[k].sems[s].value + |Holders(sts, es, k, s)| == Initial(es, k, s)
    ensures forall t :: Holders(sts, es, k, s)[t] == Holding(sts, es, k, s, t)
  {
    hide IsRun, Bracketed, Holding, Holders, Passes, Vs, Initial;
    RunLength(sts, es);
    ValueCounts(sts, es, k, s);
    HoldersCount(sts, es, k, s);
    forall t ensures Holders(sts, es, k, s)[t] == Holding(sts, es, k, s, t) {
      HoldersAre(sts, es, k, s, t);
    }
  }

  /** A semaphore that starts at one and is only used in P ... V brackets is a mutex. */
  lemma MutualExclusion(sts: seq<State>, es: seq<Event>, s: Sid, k: nat, a: Tid, b: Tid)
    requires IsRun(sts, es) && Init(sts[0]) && Bracketed(sts, es, s) && k <= |es| && s in sts[k].sems
    requires Initial(es, k, s) == 1
    requires Holding(sts, es, k, s, a) > 0 && Holding(sts, es, k, s, b) > 0
    ensures a == b && Holding(sts, es, k, s, a) == 1 && sts[k].sems[s].value == 0
  {
    hide IsRun, Bracketed, Holders, Holding, Initial;
    RunLength(sts, es);
    TokensConserved(sts, es, s, k);
    var h := Holders(sts, es, k, s);
    TakeOne(h, a);
    assert h == multiset{a} + (h - multiset{a});
  }
}
