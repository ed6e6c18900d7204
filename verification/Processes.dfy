/** userprog/ptable.cc and pcb.cc: the Exec / Join / Exit handshake over the two semaphores
    of a process control block. A step is one semaphore operation or one access to shared
    data; steps of different processes interleave freely. Remove clears the slot and deletes
    the block in one step: nothing in between can lead to a context switch. */
module Processes {
  import opened Collections

  type Pid = nat
  /** Names a process for good; slot numbers are reused. */
  type Uid = nat

  const MAX_PROCESS := 10

  /** Where a process is inside JoinUpdate or ExitUpdate, or User. */
  datatype Point =
    | User
    | JoinWait(child: Pid)                   // before pcb[child]->JoinWait()
    | JoinRead(child: Pid)                   // before pcb[child]->GetExitCode()
    | JoinRelease(child: Pid, code: int)     // before pcb[child]->ExitRelease()
    | ExitCounting                           // before pcb[parent]->DecNumWait()
    | ExitSignal                             // before pcb[id]->JoinRelease()
    | ExitWait                               // before pcb[id]->ExitWait()
    | ExitRemove                             // before Remove(id)

  /** A process with its control block. joined and collected are history: the parent has
      entered JoinUpdate for it, and has released it. */
  datatype Proc = Proc(pid: Pid, parent: Option<Uid>, at: Point, exitcode: int, joinsem: nat, exitsem: nat,
                       joined: bool, collected: bool)

  /** procs are the processes still executing; table is the array pcb[], marked the bitmap bm;
      exits and joins log the code each process passed to Exit and what the Joins returned. */
  datatype State = State(procs: map<Uid, Proc>, table: map<Pid, Uid>, marked: set<Pid>,
                         exits: map<Uid, int>, joins: seq<(Uid, int)>)

  datatype Event =
    | Exec(u: Uid, slot: Pid, child: Uid)
    | Join(u: Uid, child: Pid)
    | Exit(u: Uid, code: int)
    | Step(u: Uid)

  /** The main process, in slot 0. */
  function Start(): State {
    State(map[0 := Proc(0, None, User, 0, 0, 0, false, false)], map[0 := 0], {0}, map[], [])
  }

  /** pcb[p] is a block that has not been deleted. */
  predicate HasBlock(st: State, p: Pid) {
    p in st.table && st.table[p] in st.procs
  }

  predicate HasBlockOf(st: State, u: Uid) {
    u in st.procs && HasBlock(st, st.procs[u].pid) && st.table[st.procs[u].pid] == u
  }

  predicate Enabled(st: State, e: Event) {
    && e.u in st.procs
    && var me := st.procs[e.u];
       match e
       case Exec(u, slot, child) =>
         me.at == User && slot < MAX_PROCESS && slot !in st.marked && child !in st.procs && child !in st.exits
       case Join(u, c) =>
         && me.at == User && HasBlock(st, c)
         && var ch := st.procs[st.table[c]]; ch.parent == Some(u) && !ch.joined
       case Exit(u, _) =>
         && me.at == User && me.parent.Some? && HasBlockOf(st, u)
         && forall x | x in st.procs && st.procs[x].parent == Some(u) :: st.procs[x].collected
       case Step(u) =>
         match me.at
         case User => false
         case JoinWait(c) => HasBlock(st, c) && st.procs[st.table[c]].joinsem > 0
         case JoinRead(c) => HasBlock(st, c)
         case JoinRelease(c, _) => HasBlock(st, c)
         case ExitCounting => me.parent.Some? && HasBlockOf(st, me.parent.value)
         case ExitSignal => HasBlockOf(st, u)
         case ExitWait => HasBlockOf(st, u) && me.exitsem > 0
         case ExitRemove => HasBlockOf(st, u)
  }

  function Move(st: State, u: Uid, q: Point): State
    requires u in st.procs
  {
    st.(procs := st.procs[u := st.procs[u].(at := q)])
  }

  function Next(st: State, e: Event): State
    requires Enabled(st, e)
  {
    var me := st.procs[e.u];
    match e
    case Exec(u, slot, child) =>
      st.(procs := st.procs[child := Proc(slot, Some(u), User, 0, 0, 0, false, false)],
          table := st.table[slot := child], marked := st.marked + {slot})
    case Join(u, c) => Move(Change(st, st.table[c], st.procs[st.table[c]].(joined := true)), u, JoinWait(c))
    case Exit(u, code) => Change(st, u, me.(exitcode := code, at := ExitCounting)).(exits := st.exits[u := code])
    case Step(u) => StepNext(st, u)
  }

  /** Process x, or its block, becomes b. */
  function Change(st: State, x: Uid, b: Proc): State {
    st.(procs := st.procs[x := b])
  }

  function StepNext(st: State, u: Uid): State
    requires Enabled(st, Step(u))
  {
    var me := st.procs[u];
    match me.at
    case JoinWait(c) =>
      var x := st.table[c];
      Move(Change(st, x, st.procs[x].(joinsem := st.procs[x].joinsem - 1)), u, JoinRead(c))
    case JoinRead(c) => Move(st, u, JoinRelease(c, st.procs[st.table[c]].exitcode))
    case JoinRelease(c, code) =>
      var x := st.table[c];
      Move(Change(st, x, st.procs[x].(exitsem := st.procs[x].exitsem + 1, collected := true)), u, User)
      .(joins := st.joins + [(x, code)])
    case ExitCounting => Move(st, u, ExitSignal)
    case ExitSignal => Change(st, u, me.(joinsem := me.joinsem + 1, at := ExitWait))
    case ExitWait => Change(st, u, me.(exitsem := me.exitsem - 1, at := ExitRemove))
    case ExitRemove => st.(procs := st.procs - {u}, marked := st.marked - {me.pid})
  }

  // ---------------------------------------------------------------- the invariant

  predicate Exiting(at: Point) {
    at.ExitCounting? || at.ExitSignal? || at.ExitWait? || at.ExitRemove?
  }

  /** The child has done joinsem->V. */
  predicate Signalled(at: Point) { at.ExitWait? || at.ExitRemove? }

  /** The child has got past exitsem->P. */
  predicate Released(at: Point) { at.ExitRemove? }

  /** What the two semaphores of a block say, given where its process and the parent are. */
  ghost predicate Handshake(b: Proc, parent: Point) {
    if b.collected then
      b.joined && Signalled(b.at) && b.joinsem == 0 && b.exitsem == if Released(b.at) then 0 else 1
    else
      && b.exitsem == 0 && !Released(b.at)
      && (if b.joined && parent != JoinWait(b.pid)
          then Signalled(b.at) && b.joinsem == 0 && (parent == JoinRead(b.pid) || parent == JoinRelease(b.pid, b.exitcode))
          else b.joinsem == if Signalled(b.at) then 1 else 0)
  }

  /** The slot named by the point of a process that is inside JoinUpdate. */
  function Joining(at: Point): Option<Pid> {
    match at
    case JoinWait(c) => Some(c)
    case JoinRead(c) => Some(c)
    case JoinRelease(c, _) => Some(c)
    case _ => None
  }

  ghost function ParentPoint(st: State, u: Uid): Point
    requires u in st.procs
  {
    var p := st.procs[u].parent;
    if p.Some? && p.value in st.procs then st.procs[p.value].at else User
  }

  /** Holds of every process. */
  ghost predicate ProcOk(st: State, u: Uid)
    requires u in st.procs
  {
    var b := st.procs[u];
    && b.pid in st.table && st.table[b.pid] == u && b.pid in st.marked
    && b.parent != Some(u)
    && (b.parent.None? ==> !b.joined && !b.collected && !Exiting(b.at))
    && (b.parent.Some? && !b.collected ==> b.parent.value in st.procs && !Exiting(st.procs[b.parent.value].at))
    && (b.parent.Some? ==> Handshake(b, ParentPoint(st, u)))
    && (Exiting(b.at) <==> u in st.exits)
    && (u in st.exits ==> b.exitcode == st.exits[u])
    && (Joining(b.at).Some? ==> ChildOf(st, u, Joining(b.at).value))
    && (b.collected ==> (u, b.exitcode) in st.joins)
  }

  /** Slot c holds a child of u that u has joined and not yet released. */
  ghost predicate ChildOf(st: State, u: Uid, c: Pid) {
    && c in st.table && st.table[c] in st.procs
    && var b := st.procs[st.table[c]]; b.pid == c && b.parent == Some(u) && b.joined && !b.collected
  }

  ghost predicate Inv(st: State) {
    && (forall u | u in st.procs :: ProcOk(st, u))
    && (forall p | p in st.marked :: p in st.table && st.table[p] in st.procs)
    && (forall p | p in st.table :: if st.table[p] in st.procs then st.procs[st.table[p]].pid == p else st.table[p] in st.exits)
    && (forall i | 0 <= i < |st.joins| :: st.joins[i].0 in st.exits && st.joins[i].1 == st.exits[st.joins[i].0])
  }

  lemma StartInv()
    ensures Inv(Start())
  {
  }

  lemma ExitSelf(st: State, u: Uid, code: int)
    requires Inv(st) && Enabled(st, Exit(u, code))
    ensures ProcOk(Next(st, Exit(u, code)), u)
  {
    assert ProcOk(st, u);
    hide Inv;
  }

  lemma ExitOther(st: State, u: Uid, code: int, x: Uid)
    requires Inv(st) && Enabled(st, Exit(u, code)) && x in st.procs && x != u
    ensures ProcOk(Next(st, Exit(u, code)), x)
  {
    assert ProcOk(st, u) && ProcOk(st, x);
    hide Inv;
    ProcFrame(st, Next(st, Exit(u, code)), x);
  }

  lemma ExitShape(st: State, u: Uid, code: int)
    requires Inv(st) && Enabled(st, Exit(u, code))
    ensures var st' := Next(st, Exit(u, code));
      && st'.table == st.table && st'.marked == st.marked && st'.joins == st.joins && st'.procs.Keys == st.procs.Keys
      && u !in st.exits && st'.exits == st.exits[u := code]
      && forall x | x in st.procs :: st'.procs[x].pid == st.procs[x].pid
  {
    assert ProcOk(st, u);
    hide Inv;
  }

  lemma ExitKeepsInv(st: State, u: Uid, code: int)
    requires Inv(st) && Enabled(st, Exit(u, code))
    ensures Inv(Next(st, Exit(u, code)))
  {
    hide ProcOk, Next, Enabled;
    ExitShape(st, u, code);
    var st' := Next(st, Exit(u, code));
    forall x | x in st'.procs ensures ProcOk(st', x) {
      if x == u { ExitSelf(st, u, code); } else { ExitOther(st, u, code, x); }
    }
  }

  /** The parent enters JoinUpdate, or takes a step inside it. */
  ghost predicate ParentEvent(st: State, e: Event) {
    Enabled(st, e) && (e.Join? || (e.Step? && Joining(st.procs[e.u].at).Some?))
  }

  /** Which child such an event is about. */
  ghost function ChildOfEvent(st: State, e: Event): Uid
    requires ParentEvent(st, e)
  {
    st.table[if e.Join? then e.child else Joining(st.procs[e.u].at).value]
  }

  lemma ParentEventChild(st: State, e: Event)
    requires Inv(st) && ParentEvent(st, e)
    ensures var c := ChildOfEvent(st, e); c in st.procs && c != e.u && st.procs[c].parent == Some(e.u) && !st.procs[c].collected
    ensures e.Step? ==> st.procs[ChildOfEvent(st, e)].joined
  {
    assert ProcOk(st, e.u);
    assert ProcOk(st, ChildOfEvent(st, e));
  }

  /** What becomes of the child's record, and where the parent goes. */
  ghost function NewChild(st: State, e: Event): Proc
    requires ParentEvent(st, e) && ChildOfEvent(st, e) in st.procs
  {
    var b := st.procs[ChildOfEvent(st, e)];
    if e.Join? then b.(joined := true)
    else match st.procs[e.u].at
         case JoinWait(_) => if b.joinsem > 0 then b.(joinsem := b.joinsem - 1) else b
         case JoinRead(_) => b
         case _ => b.(exitsem := b.exitsem + 1, collected := true)
  }

  ghost function NewPoint(st: State, e: Event): Point
    requires ParentEvent(st, e) && ChildOfEvent(st, e) in st.procs
  {
    if e.Join? then JoinWait(e.child)
    else match st.procs[e.u].at
         case JoinWait(c) => JoinRead(c)
         case JoinRead(c) => JoinRelease(c, st.procs[ChildOfEvent(st, e)].exitcode)
         case _ => User
  }

  ghost function NewJoins(st: State, e: Event): seq<(Uid, int)>
    requires ParentEvent(st, e)
  {
    if e.Step? && st.procs[e.u].at.JoinRelease? then st.joins + [(ChildOfEvent(st, e), st.procs[e.u].at.code)] else st.joins
  }

  ghost function ParentResult(st: State, e: Event): State
    requires ParentEvent(st, e) && ChildOfEvent(st, e) in st.procs
  {
    st.(procs := st.procs[ChildOfEvent(st, e) := NewChild(st, e)][e.u := st.procs[e.u].(at := NewPoint(st, e))],
        joins := NewJoins(st, e))
  }

  lemma ParentNext(st: State, e: Event)
    requires Inv(st) && ParentEvent(st, e)
    ensures ChildOfEvent(st, e) in st.procs && Next(st, e) == ParentResult(st, e)
  {
    ParentEventChild(st, e);
    hide Inv;
    var c := ChildOfEvent(st, e);
    assert st.procs[c := st.procs[c]] == st.procs;
  }

  lemma ParentSelf(st: State, e: Event)
    requires Inv(st) && ParentEvent(st, e) && ChildOfEvent(st, e) in st.procs
    ensures ProcOk(ParentResult(st, e), e.u)
  {
    ParentEventChild(st, e);
    assert ProcOk(st, e.u);
    assert ProcOk(st, ChildOfEvent(st, e));
    hide Inv;
  }

  lemma ParentChild(st: State, e: Event)
    requires Inv(st) && ParentEvent(st, e) && ChildOfEvent(st, e) in st.procs
    ensures ProcOk(ParentResult(st, e), ChildOfEvent(st, e))
  {
    ParentEventChild(st, e);
    assert ProcOk(st, ChildOfEvent(st, e)) && ProcOk(st, e.u);
    hide Inv;
  }

  /** A process that a step leaves alone, whose parent and child it leaves alone enough. */
  lemma ProcFrame(st: State, st': State, x: Uid)
    requires x in st.procs && ProcOk(st, x) && x in st'.procs && st'.procs[x] == st.procs[x]
    requires st'.table == st.table && (st.procs[x].pid in st'.marked <==> st.procs[x].pid in st.marked)
    requires (x in st'.exits <==> x in st.exits) && (x in st.exits ==> st'.exits[x] == st.exits[x])
    requires st.procs[x].parent.Some? && !st.procs[x].collected ==>
               var p := st.procs[x].parent.value; p in st'.procs && !Exiting(st'.procs[p].at)
    requires st.procs[x].joined && !st.procs[x].collected ==> ParentPoint(st', x) == ParentPoint(st, x)
    requires Joining(st.procs[x].at).Some? ==> ChildOf(st', x, Joining(st.procs[x].at).value)
    requires st.joins <= st'.joins
    ensures ProcOk(st', x)
  {
  }

  lemma ParentOther(st: State, e: Event, x: Uid)
    requires Inv(st) && ParentEvent(st, e) && x in st.procs && x != e.u && ChildOfEvent(st, e) in st.procs
    requires x != ChildOfEvent(st, e)
    ensures ProcOk(ParentResult(st, e), x)
  {
    ParentEventChild(st, e);
    assert ProcOk(st, x) && ProcOk(st, e.u);
    ParentShape(st, e);
    hide Inv, Enabled, ParentResult;
    ProcFrame(st, ParentResult(st, e), x);
  }

  /** The parent only moves, within JoinUpdate or back out of it; the child does not move, and
      nobody else changes. */
  lemma ParentShape(st: State, e: Event)
    requires Inv(st) && ParentEvent(st, e) && ChildOfEvent(st, e) in st.procs
    ensures var st', c := ParentResult(st, e), ChildOfEvent(st, e);
      && st'.exits == st.exits && st'.table == st.table && st'.marked == st.marked
      && st.joins <= st'.joins && st'.procs.Keys == st.procs.Keys
      && (forall x | x in st.procs && x != e.u && x != c :: st'.procs[x] == st.procs[x])
      && !Exiting(st'.procs[e.u].at) && st'.procs[e.u] == st.procs[e.u].(at := st'.procs[e.u].at)
      && st'.procs[c].at == st.procs[c].at && st'.procs[c].pid == st.procs[c].pid && st'.procs[c].parent == st.procs[c].parent
  {
    ParentEventChild(st, e);
    hide Inv, Enabled;
  }

  /** The code that Join hands to its caller is the one the child passed to Exit. */
  lemma JoinedCode(st: State, e: Event)
    requires Inv(st) && ParentEvent(st, e)
    ensures forall i | 0 <= i < |Next(st, e).joins| ::
              Next(st, e).joins[i].0 in st.exits && Next(st, e).joins[i].1 == st.exits[Next(st, e).joins[i].0]
  {
    ParentEventChild(st, e);
    assert ProcOk(st, ChildOfEvent(st, e)) && ProcOk(st, e.u);
  }

  lemma ParentKeepsInv(st: State, e: Event)
    requires Inv(st) && ParentEvent(st, e)
    ensures Inv(Next(st, e))
  {
    ParentNext(st, e);
    JoinedCode(st, e);
    hide ProcOk, Next, Enabled, ParentResult;
    ParentShape(st, e);
    var st' := ParentResult(st, e);
    forall x | x in st'.procs ensures ProcOk(st', x) {
      if x == e.u { ParentSelf(st, e); }
      else if x == ChildOfEvent(st, e) { ParentChild(st, e); }
      else { ParentOther(st, e, x); }
    }
  }

  /** The child takes a step inside ExitUpdate, up to removing its block. */
  ghost predicate ChildEvent(st: State, u: Uid) {
    Enabled(st, Step(u)) && Exiting(st.procs[u].at) && st.procs[u].at != ExitRemove
  }

  lemma ChildSelf(st: State, u: Uid)
    requires Inv(st) && ChildEvent(st, u)
    ensures u in Next(st, Step(u)).procs && ProcOk(Next(st, Step(u)), u)
  {
    assert ProcOk(st, u);
    hide Inv;
  }

  lemma ChildOther(st: State, u: Uid, x: Uid)
    requires Inv(st) && ChildEvent(st, u) && x in st.procs && x != u
    ensures x in Next(st, Step(u)).procs && ProcOk(Next(st, Step(u)), x)
  {
    assert ProcOk(st, u) && ProcOk(st, x);
    ChildShape(st, u);
    hide Next, Inv, Enabled;
    ProcFrame(st, Next(st, Step(u)), x);
  }

  lemma ChildShape(st: State, u: Uid)
    requires Inv(st) && ChildEvent(st, u)
    ensures Next(st, Step(u)).procs.Keys == st.procs.Keys && Next(st, Step(u)).table == st.table
    ensures forall x | x in st.procs && x != u :: Next(st, Step(u)).procs[x] == st.procs[x]
    ensures var b, b' := st.procs[u], Next(st, Step(u)).procs[u];
      b'.pid == b.pid && b'.parent == b.parent && b'.joined == b.joined && b'.collected == b.collected && Exiting(b'.at)
    ensures Next(st, Step(u)).exits == st.exits && Next(st, Step(u)).joins == st.joins
    ensures Next(st, Step(u)).marked == st.marked
  {
    hide Inv;
  }

  lemma ChildKeepsInv(st: State, u: Uid)
    requires Inv(st) && ChildEvent(st, u)
    ensures Inv(Next(st, Step(u)))
  {
    assert ProcOk(st, u);
    ChildShape(st, u);
    hide ProcOk, Next;
    var st' := Next(st, Step(u));
    forall x | x in st'.procs ensures ProcOk(st', x) { if x == u { ChildSelf(st, u); } else { ChildOther(st, u, x); } }
  }

  lemma RemoveKeepsInv(st: State, u: Uid)
    requires Inv(st) && Enabled(st, Step(u)) && st.procs[u].at == ExitRemove
    ensures Inv(Next(st, Step(u)))
  {
    var st' := Next(st, Step(u));
    assert ProcOk(st, u);
    forall x | x in st'.procs ensures ProcOk(st', x) {
      assert ProcOk(st, x);
    }
  }

  /** The slot that Exec takes is not occupied by any process any more. */
  lemma ExecKeepsInv(st: State, e: Event)
    requires Inv(st) && Enabled(st, e) && e.Exec?
    ensures Inv(Next(st, e))
  {
    var st' := Next(st, e);
    assert ProcOk(st, e.u);
    forall x | x in st'.procs ensures ProcOk(st', x) {
      if x in st.procs { assert ProcOk(st, x) && st.procs[x].pid != e.slot; }
    }
  }

  // ---------------------------------------------------------------- whole runs

  lemma EventKeepsInv(st: State, e: Event)
    requires Inv(st) && Enabled(st, e)
    ensures Inv(Next(st, e))
  {
    match e
    case Exec(_, _, _) => ExecKeepsInv(st, e);
    case Join(_, _) => ParentKeepsInv(st, e);
    case Exit(u, code) => ExitKeepsInv(st, u, code);
    case Step(u) =>
      if Joining(st.procs[u].at).Some? { ParentKeepsInv(st, e); }
      else if st.procs[u].at == ExitRemove { RemoveKeepsInv(st, u); }
      else { ChildKeepsInv(st, u); }
  }

  ghost predicate IsRun(sts: seq<State>, es: seq<Event>) {
    && |sts| == |es| + 1 && sts[0] == Start()
    && forall i {:trigger es[i]} | 0 <= i < |es| :: Enabled(sts[i], es[i]) && sts[i + 1] == Next(sts[i], es[i])
  }

  lemma StepOf(sts: seq<State>, es: seq<Event>, k: nat)
    requires IsRun(sts, es) && k < |es|
    ensures |sts| == |es| + 1 && Enabled(sts[k], es[k]) && sts[k + 1] == Next(sts[k], es[k])
  {
    hide Next, Enabled;
  }

  lemma {:induction false} RunKeepsInv(sts: seq<State>, es: seq<Event>, k: nat)
    requires IsRun(sts, es) && k <= |es|
    ensures Inv(sts[k])
  {
    if k == 0 {
      StartInv();
    } else {
      RunKeepsInv(sts, es, k - 1);
      EventKeepsInv(sts[k - 1], es[k - 1]);
    }
  }

  // ---------------------------------------------------------------- who made, joins and ends whom

  /** No step changes the slot or the parent of a process, or un-joins it; a process leaves only
      by removing itself, and only Exec makes one. */
  lemma RecordsLast(st: State, e: Event, x: Uid)
    requires Inv(st) && Enabled(st, e)
    ensures x in st.procs && x in Next(st, e).procs ==>
      var b, b' := st.procs[x], Next(st, e).procs[x];
      b'.pid == b.pid && b'.parent == b.parent && (b.joined ==> b'.joined) && (b.collected ==> b'.collected)
    ensures x in st.procs && x !in Next(st, e).procs ==> e == Step(x) && st.procs[x].at == ExitRemove
    ensures x !in st.procs && x in Next(st, e).procs ==>
      e.Exec? && e.child == x && Next(st, e).procs[x].pid == e.slot && Next(st, e).procs[x].parent == Some(e.u)
      && !Next(st, e).procs[x].joined && !Next(st, e).procs[x].collected
  {
    hide Inv, ProcOk;
    if ParentEvent(st, e) { ParentEventChild(st, e); }
  }

  lemma LogsGrow(st: State, e: Event)
    requires Inv(st) && Enabled(st, e)
    ensures forall x | x in st.exits :: x in Next(st, e).exits && Next(st, e).exits[x] == st.exits[x]
    ensures forall x | x in Next(st, e).exits && x !in st.exits :: e == Exit(x, Next(st, e).exits[x])
    ensures st.joins <= Next(st, e).joins && |Next(st, e).joins| <= |st.joins| + 1
    ensures Next(st, e).joins != st.joins ==> e.Step? && st.procs[e.u].at.JoinRelease?
  {
    if e.Exit? { assert ProcOk(st, e.u); }
    hide Inv;
  }

  /** The parent of a process is the one whose Exec made it, in the slot it is in. */
  lemma {:induction false} ParentIsMaker(sts: seq<State>, es: seq<Event>, k: nat, x: Uid) returns (a: nat)
    requires IsRun(sts, es) && k <= |es| && x in sts[k].procs && sts[k].procs[x].parent.Some?
    ensures a < k && es[a] == Exec(sts[k].procs[x].parent.value, sts[k].procs[x].pid, x)
  {
    assert k > 0;
    hide Inv, Next, Enabled, IsRun;
    RunKeepsInv(sts, es, k - 1);
    StepOf(sts, es, k - 1);
    RecordsLast(sts[k - 1], es[k - 1], x);
    if x in sts[k - 1].procs {
      a := ParentIsMaker(sts, es, k - 1, x);
    } else {
      a := k - 1;
    }
  }

  /** A process that was made is still there, or has exited. */
  lemma {:induction false} MadeIsKnown(sts: seq<State>, es: seq<Event>, a: nat, k: nat)
    requires IsRun(sts, es) && a < k <= |es| && es[a].Exec?
    ensures es[a].child in sts[k].procs || es[a].child in sts[k].exits
  {
    var x := es[a].child;
    RunKeepsInv(sts, es, k - 1);
    if k > a + 1 {
      MadeIsKnown(sts, es, a, k - 1);
      RecordsLast(sts[k - 1], es[k - 1], x);
      LogsGrow(sts[k - 1], es[k - 1]);
      if x in sts[k - 1].procs { assert ProcOk(sts[k - 1], x); }
      hide Next, Enabled;
    }
  }

  /** So each process is made once. */
  lemma MadeOnce(sts: seq<State>, es: seq<Event>, a: nat, b: nat)
    requires IsRun(sts, es) && a < b < |es| && es[a].Exec? && es[b].Exec?
    ensures es[a].child != es[b].child
  {
    MadeIsKnown(sts, es, a, b);
  }

  /** A process that has been joined was joined by its parent. */
  lemma {:induction false} JoinedByParent(sts: seq<State>, es: seq<Event>, k: nat, x: Uid) returns (j: nat)
    requires IsRun(sts, es) && k <= |es| && x in sts[k].procs && sts[k].procs[x].joined
    ensures j < k && sts[k].procs[x].parent.Some? && es[j] == Join(sts[k].procs[x].parent.value, sts[k].procs[x].pid)
    ensures x in sts[j].procs && es[j].child in sts[j].table && sts[j].table[es[j].child] == x
  {
    assert k > 0;
    hide Inv, Next, Enabled, IsRun;
    RunKeepsInv(sts, es, k - 1);
    StepOf(sts, es, k - 1);
    JoinedNow(sts[k - 1], es[k - 1], x);
    if sts[k - 1].procs[x].joined {
      j := JoinedByParent(sts, es, k - 1, x);
    } else {
      j := k - 1;
    }
  }

  lemma JoinedNow(st: State, e: Event, x: Uid)
    requires Inv(st) && Enabled(st, e) && x in Next(st, e).procs && Next(st, e).procs[x].joined
    ensures x in st.procs && Next(st, e).procs[x].parent == st.procs[x].parent && Next(st, e).procs[x].pid == st.procs[x].pid
    ensures !st.procs[x].joined ==>
      && e.Join? && e.child in st.table && st.table[e.child] == x
      && st.procs[x].parent == Some(e.u) && st.procs[x].pid == e.child
  {
    RecordsLast(st, e, x);
    hide Inv, Next, Enabled;
    if !st.procs[x].joined { JoinMarks(st, e, x); }
  }

  lemma JoinMarks(st: State, e: Event, x: Uid)
    requires Inv(st) && Enabled(st, e) && x in st.procs && !st.procs[x].joined
    requires x in Next(st, e).procs && Next(st, e).procs[x].joined
    ensures e.Join? && e.child in st.table && st.table[e.child] == x
    ensures st.procs[x].parent == Some(e.u) && st.procs[x].pid == e.child
  {
    assert ProcOk(st, x);
    if ParentEvent(st, e) { ParentEventChild(st, e); assert ProcOk(st, ChildOfEvent(st, e)); }
    hide ProcOk;
  }

  /** An exit code in the log was passed to Exit. */
  lemma {:induction false} ExitIsLogged(sts: seq<State>, es: seq<Event>, k: nat, x: Uid) returns (b: nat)
    requires IsRun(sts, es) && k <= |es| && x in sts[k].exits
    ensures b < k && es[b] == Exit(x, sts[k].exits[x])
  {
    assert k > 0;
    hide Inv, Next, Enabled, IsRun;
    RunKeepsInv(sts, es, k - 1);
    StepOf(sts, es, k - 1);
    LogsGrow(sts[k - 1], es[k - 1]);
    if x in sts[k - 1].exits {
      b := ExitIsLogged(sts, es, k - 1, x);
    } else {
      b := k - 1;
    }
  }

  /** The step in which a Join came back. */
  lemma {:induction false} ReturnOf(sts: seq<State>, es: seq<Event>, k: nat, i: nat) returns (r: nat)
    requires IsRun(sts, es) && k <= |es| && i < |sts[k].joins|
    ensures r < k && |sts[r].joins| == i && sts[r + 1].joins == sts[r].joins + [sts[k].joins[i]]
  {
    assert k > 0;
    hide Inv, Next, Enabled, IsRun;
    RunKeepsInv(sts, es, k - 1);
    StepOf(sts, es, k - 1);
    LogsGrow(sts[k - 1], es[k - 1]);
    if i < |sts[k - 1].joins| {
      r := ReturnOf(sts, es, k - 1, i);
    } else {
      r := k - 1;
      Grown(sts[k - 1].joins, sts[k].joins);
    }
  }

  lemma Grown(s: seq<(Uid, int)>, s': seq<(Uid, int)>)
    requires s <= s' && |s'| == |s| + 1
    ensures s' == s + [s'[|s|]]
  {
  }

  lemma ReturnIsRelease(st: State, e: Event, x: Uid, code: int)
    requires Inv(st) && Enabled(st, e) && Next(st, e).joins == st.joins + [(x, code)]
    ensures e.Step? && st.procs[e.u].at.JoinRelease? && st.procs[e.u].at.child in st.table
    ensures x == st.table[st.procs[e.u].at.child] && code == st.procs[e.u].at.code
    ensures x in st.procs && st.procs[x].joined && st.procs[x].parent == Some(e.u) && !st.procs[x].collected
    ensures st.procs[x].pid == st.procs[e.u].at.child && x in st.exits && st.exits[x] == code
  {
    LogsGrow(st, e);
    assert |Next(st, e).joins| == |st.joins| + 1;
    ParentEventChild(st, e);
    assert ProcOk(st, e.u) && ProcOk(st, ChildOfEvent(st, e));
    assert Next(st, e).joins[|st.joins|] == (x, code);
  }

  /** In every run, a Join that returned did so to the process whose Exec made the child, after
      that process joined it, and with the code that the child passed to Exit. */
  lemma JoinReturnsExitCode(sts: seq<State>, es: seq<Event>, k: nat, i: nat)
    returns (u: Uid, slot: Pid, made: nat, joined: nat, exited: nat, returned: nat)
    requires IsRun(sts, es) && k <= |es| && i < |sts[k].joins|
    ensures made < joined < returned < k && made < exited < returned
    ensures var (x, code) := sts[k].joins[i];
      && es[made] == Exec(u, slot, x)
      && es[joined] == Join(u, slot) && slot in sts[joined].table && sts[joined].table[slot] == x
      && es[exited] == Exit(x, code)
      && es[returned] == Step(u) && u in sts[returned].procs && sts[returned].procs[u].at == JoinRelease(slot, code)
  {
    var (x, code) := sts[k].joins[i];
    returned := ReturnOf(sts, es, k, i);
    RunKeepsInv(sts, es, returned);
    ReturnIsRelease(sts[returned], es[returned], x, code);
    u, slot := es[returned].u, sts[returned].procs[es[returned].u].at.child;
    hide Next, Inv;
    joined := JoinedByParent(sts, es, returned, x);
    exited := ExitIsLogged(sts, es, returned, x);
    MadeBefore(sts, es, returned, joined, x);
    MadeBefore(sts, es, returned, exited, x);
    made := ParentIsMaker(sts, es, returned, x);
  }

  /** Whatever a process does or is joined by comes after the Exec that made it. */
  lemma MadeBefore(sts: seq<State>, es: seq<Event>, k: nat, b: nat, x: Uid)
    requires IsRun(sts, es) && b < k <= |es| && x in sts[k].procs && sts[k].procs[x].parent.Some? && x in sts[b].procs
    ensures forall a | 0 <= a < k && es[a] == Exec(sts[k].procs[x].parent.value, sts[k].procs[x].pid, x) :: a < b
  {
    forall a | 0 <= a < k && es[a] == Exec(sts[k].procs[x].parent.value, sts[k].procs[x].pid, x) ensures a < b {
      if b <= a {
        StaysUntil(sts, es, b, a, x);
      }
    }
  }

  /** A process does not come back: if it is there now and was there before, it was all along. */
  lemma {:induction false} StaysUntil(sts: seq<State>, es: seq<Event>, b: nat, a: nat, x: Uid)
    requires IsRun(sts, es) && b <= a < |es| && x in sts[b].procs
    ensures x in sts[a].procs || x in sts[a].exits
    decreases a
  {
    if b < a {
      StaysUntil(sts, es, b, a - 1, x);
      RunKeepsInv(sts, es, a - 1);
      RecordsLast(sts[a - 1], es[a - 1], x);
      LogsGrow(sts[a - 1], es[a - 1]);
      if x in sts[a - 1].procs { assert ProcOk(sts[a - 1], x); }
      hide Next, Enabled;
    }
  }

  /** A process that was joined stays so until it is gone, for good. */
  ghost predicate Collected(st: State, x: Uid) {
    if x in st.procs then st.procs[x].collected else x in st.exits
  }

  lemma CollectedStays(st: State, e: Event, x: Uid)
    requires Inv(st) && Enabled(st, e)
    ensures Collected(st, x) ==> Collected(Next(st, e), x)
  {
    RecordsLast(st, e, x);
    LogsGrow(st, e);
    if x in st.procs { assert ProcOk(st, x); }
    hide Inv, Next;
  }

  lemma CollectedNow(st: State, e: Event, x: Uid, code: int)
    requires Inv(st) && Enabled(st, e) && Next(st, e).joins == st.joins + [(x, code)]
    ensures !Collected(st, x) && Collected(Next(st, e), x)
  {
    ReturnIsRelease(st, e, x, code);
    ParentEventChild(st, e);
    hide Inv;
  }

  lemma {:induction false} CollectedForGood(sts: seq<State>, es: seq<Event>, r: nat, k: nat, x: Uid)
    requires IsRun(sts, es) && r <= k <= |es| && Collected(sts[r], x)
    ensures Collected(sts[k], x)
  {
    if r < k {
      CollectedForGood(sts, es, r, k - 1, x);
      RunKeepsInv(sts, es, k - 1);
      hide Inv, Next, Enabled, Collected;
      CollectedStays(sts[k - 1], es[k - 1], x);
    }
  }

  /** No child is joined twice. */
  lemma JoinedOnce(sts: seq<State>, es: seq<Event>, k: nat, i: nat, j: nat)
    requires IsRun(sts, es) && k <= |es| && i < j < |sts[k].joins|
    ensures sts[k].joins[i].0 != sts[k].joins[j].0
  {
    hide Inv, Next, Enabled, Collected, IsRun;
    var r := ReturnOf(sts, es, k, i);
    var t := ReturnOf(sts, es, k, j);
    RunKeepsInv(sts, es, r);
    RunKeepsInv(sts, es, t);
    StepOf(sts, es, r);
    StepOf(sts, es, t);
    ReturnsInOrder(sts, es, r, t);
    var (x, c) := sts[k].joins[i];
    var (y, d) := sts[k].joins[j];
    CollectedNow(sts[r], es[r], x, c);
    CollectedNow(sts[t], es[t], y, d);
    CollectedForGood(sts, es, r + 1, t, x);
  }

  lemma ReturnsInOrder(sts: seq<State>, es: seq<Event>, r: nat, t: nat)
    requires IsRun(sts, es) && r < |es| && t < |es| && |sts[r].joins| < |sts[t].joins|
    ensures r < t
  {
    if t <= r { JoinsGrow(sts, es, t, r); }
  }

  lemma {:induction false} JoinsGrow(sts: seq<State>, es: seq<Event>, t: nat, r: nat)
    requires IsRun(sts, es) && t <= r <= |es|
    ensures |sts[t].joins| <= |sts[r].joins|
  {
    if t < r {
      JoinsGrow(sts, es, t, r - 1);
      RunKeepsInv(sts, es, r - 1);
      hide Inv, Next, Enabled;
      LogsGrow(sts[r - 1], es[r - 1]);
    }
  }

  /** A process gets to clear its slot and delete its block only after its parent has got its
      exit code, and the block it then deletes is its own. */
  lemma RemovedOnlyAfterRead(sts: seq<State>, es: seq<Event>, k: nat, u: Uid)
    requires IsRun(sts, es) && k <= |es|
    requires u in sts[k].procs && Released(sts[k].procs[u].at)
    ensures u in sts[k].exits && (u, sts[k].exits[u]) in sts[k].joins
    ensures sts[k].procs[u].pid in sts[k].table && sts[k].table[sts[k].procs[u].pid] == u
  {
    RunKeepsInv(sts, es, k);
    assert ProcOk(sts[k], u);
  }

  // ---------------------------------------------------------------- neither side stays blocked

  /** Steps left until the child is gone, once both sides have arrived. */
  ghost function StepsLeft(st: State, c: Uid): nat {
    if c !in st.procs then 0
    else
      (match st.procs[c].at case ExitWait => 2 case ExitRemove => 1 case _ => 3) +
      (if st.procs[c].collected then 0
       else match ParentPoint(st, c) case JoinWait(_) => 3 case JoinRead(_) => 2 case JoinRelease(_, _) => 1 case _ => 4)
  }

  ghost predicate BothArrived(st: State, c: Uid) {
    c in st.procs && st.procs[c].joined && Signalled(st.procs[c].at)
  }

  /** Whose turn it is: the parent's until it has released the child, then the child's. */
  ghost function Turn(st: State, c: Uid): Uid
    requires c in st.procs && st.procs[c].parent.Some?
  {
    if st.procs[c].collected then c else st.procs[c].parent.value
  }

  /** Once both sides have arrived, whoever's turn it is can take its next step, and that
      brings the handshake one step closer to its end. */
  lemma NeitherSideStaysBlocked(st: State, c: Uid)
    requires Inv(st) && BothArrived(st, c)
    ensures st.procs[c].parent.Some? && Enabled(st, Step(Turn(st, c)))
    ensures var st' := Next(st, Step(Turn(st, c)));
      StepsLeft(st', c) == StepsLeft(st, c) - 1 && (c in st'.procs ==> BothArrived(st', c))
  {
    assert ProcOk(st, c);
    if !st.procs[c].collected {
      assert ProcOk(st, st.procs[c].parent.value);
    }
  }

  /** Only the child's own record and its parent's position count. */
  lemma StepsLeftFrame(st: State, st': State, c: Uid)
    requires BothArrived(st, c) && c in st'.procs && st'.procs[c] == st.procs[c] && st.procs[c].parent.Some?
    requires !st.procs[c].collected ==> ParentPoint(st', c) == ParentPoint(st, c)
    ensures BothArrived(st', c) && StepsLeft(st', c) == StepsLeft(st, c)
  {
  }

  /** And no step of any other process sets it back. */
  lemma OthersDoNotInterfere(st: State, c: Uid, e: Event)
    requires Inv(st) && BothArrived(st, c) && st.procs[c].parent.Some? && Enabled(st, e)
    requires e.u != c && (st.procs[c].collected || e.u != st.procs[c].parent.value)
    ensures BothArrived(Next(st, e), c) && StepsLeft(Next(st, e), c) == StepsLeft(st, c)
  {
    assert ProcOk(st, c) && ProcOk(st, e.u);
    if ParentEvent(st, e) {
      ParentEventChild(st, e);
      ParentNext(st, e);
      ParentShape(st, e);
      hide Inv, ParentResult;
    } else if e.Step? && ChildEvent(st, e.u) {
      ChildShape(st, e.u);
    } else {
      OtherShape(st, e);
    }
    hide Next, Enabled, ProcOk, ParentEvent, StepsLeft;
    StepsLeftFrame(st, Next(st, e), c);
  }

  /** Exec, the start of an Exit, and the end of one. */
  lemma OtherShape(st: State, e: Event)
    requires Inv(st) && Enabled(st, e)
    requires e.Exec? || e.Exit? || (e.Step? && st.procs[e.u].at == ExitRemove)
    ensures forall x | x in st.procs && x != e.u :: x in Next(st, e).procs && Next(st, e).procs[x] == st.procs[x]
    ensures e.Exec? ==> e.u in Next(st, e).procs && Next(st, e).procs[e.u] == st.procs[e.u]
  {
    assert ProcOk(st, e.u);
  }

  // ---------------------------------------------------------------- no access to a deleted block

  /** What the next step of a process waits for. */
  predicate Waits(st: State, u: Uid)
    requires u in st.procs
  {
    match st.procs[u].at
    case JoinWait(c) => HasBlock(st, c) && st.procs[st.table[c]].joinsem == 0
    case ExitWait => st.procs[u].exitsem == 0
    case _ => false
  }

  /** In every reachable state a process inside JoinUpdate or ExitUpdate finds the blocks it
      is about to use: nothing but an empty semaphore can keep it from its next step. */
  lemma BlocksAreThere(sts: seq<State>, es: seq<Event>, k: nat, u: Uid)
    requires IsRun(sts, es) && k <= |es| && u in sts[k].procs && sts[k].procs[u].at != User
    ensures Enabled(sts[k], Step(u)) <==> !Waits(sts[k], u)
  {
    RunKeepsInv(sts, es, k);
    var st := sts[k];
    assert ProcOk(st, u);
    if st.procs[u].parent.Some? && st.procs[u].parent.value in st.procs {
      assert ProcOk(st, st.procs[u].parent.value);
    }
  }

  /** And a slot that is free for Exec has no block of a process in it. */
  lemma FreeSlotIsEmpty(sts: seq<State>, es: seq<Event>, k: nat, p: Pid)
    requires IsRun(sts, es) && k <= |es|
    ensures p in sts[k].marked <==> HasBlock(sts[k], p)
  {
    RunKeepsInv(sts, es, k);
    if HasBlock(sts[k], p) { assert ProcOk(sts[k], sts[k].table[p]); }
  }

  // ---------------------------------------------------------------- the handshake can be had

  /** Slot holds child x of u, which u has not joined yet. */
  ghost predicate Unjoined(st: State, u: Uid, slot: Pid, x: Uid) {
    && x in st.procs && slot in st.table && st.table[slot] == x
    && st.procs[x].pid == slot && st.procs[x].parent == Some(u) && !st.procs[x].joined
  }

  /** Exec puts a child of the caller into the slot; the caller may join it and the child may exit. */
  lemma ExecEffect(st: State, u: Uid, slot: Pid, x: Uid, code: int)
    requires Inv(st) && Enabled(st, Exec(u, slot, x))
    ensures var st' := Next(st, Exec(u, slot, x));
      Unjoined(st', u, slot, x) && Enabled(st', Join(u, slot)) && Enabled(st', Exit(x, code))
  {
    var st' := Next(st, Exec(u, slot, x));
    forall y | y in st'.procs && st'.procs[y].parent == Some(x) ensures st'.procs[y].collected {
      if y in st.procs { assert ProcOk(st, y); }
    }
  }

  lemma UnjoinedStays(st: State, e: Event, u: Uid, slot: Pid, x: Uid)
    requires Inv(st) && Enabled(st, e) && Unjoined(st, u, slot, x) && e != Join(u, slot)
    ensures Unjoined(Next(st, e), u, slot, x)
  {
    assert ProcOk(st, x);
    RecordsLast(st, e, x);
    EventKeepsInv(st, e);
    if x in Next(st, e).procs {
      assert ProcOk(Next(st, e), x);
      hide Inv, Next, Enabled;
      if Next(st, e).procs[x].joined { JoinedNow(st, e, x); }
    }
  }

  lemma {:induction false} StillUnjoined(sts: seq<State>, es: seq<Event>, a: nat, k: nat, u: Uid, slot: Pid, x: Uid)
    requires IsRun(sts, es) && a < k <= |es| && es[a] == Exec(u, slot, x) && Join(u, slot) !in es[a + 1..k]
    ensures Unjoined(sts[k], u, slot, x)
  {
    hide Inv, Next, Enabled, Unjoined, IsRun;
    RunKeepsInv(sts, es, k - 1);
    StepOf(sts, es, k - 1);
    if k == a + 1 {
      ExecEffect(sts[a], u, slot, x, 0);
    } else {
      assert es[a + 1..k] == es[a + 1..k - 1] + [es[k - 1]];
      StillUnjoined(sts, es, a, k - 1, u, slot, x);
      UnjoinedStays(sts[k - 1], es[k - 1], u, slot, x);
    }
  }

  lemma UnjoinedCanBeJoined(st: State, u: Uid, slot: Pid, x: Uid)
    requires Inv(st) && Unjoined(st, u, slot, x)
    ensures u in st.procs && (Enabled(st, Join(u, slot)) <==> st.procs[u].at == User)
  {
    assert ProcOk(st, x);
    hide Inv;
  }

  /** In every run, a process can join a child it made, whenever it is free to and has not done
      so already, however much happens in between. */
  lemma ChildCanBeJoined(sts: seq<State>, es: seq<Event>, a: nat, k: nat, u: Uid, slot: Pid, x: Uid)
    requires IsRun(sts, es) && a < k <= |es| && es[a] == Exec(u, slot, x) && Join(u, slot) !in es[a + 1..k]
    ensures slot in sts[k].table && sts[k].table[slot] == x && u in sts[k].procs
    ensures Enabled(sts[k], Join(u, slot)) <==> sts[k].procs[u].at == User
  {
    RunKeepsInv(sts, es, k);
    StillUnjoined(sts, es, a, k, u, slot, x);
    hide Inv, Next, Enabled, IsRun;
    UnjoinedCanBeJoined(sts[k], u, slot, x);
  }

  ghost predicate CanDo(st: State, es: seq<Event>)
    decreases |es|
  {
    es == [] || (Enabled(st, es[0]) && CanDo(Next(st, es[0]), es[1..]))
  }

  ghost function After(st: State, es: seq<Event>): (r: State)
    requires CanDo(st, es)
    decreases |es|
  {
    if es == [] then st else After(Next(st, es[0]), es[1..])
  }

  lemma DoFirst(st: State, e: Event, es: seq<Event>)
    requires Enabled(st, e) && CanDo(Next(st, e), es)
    ensures CanDo(st, [e] + es) && After(st, [e] + es) == After(Next(st, e), es)
  {
    assert ([e] + es)[0] == e && ([e] + es)[1..] == es;
    hide Next, Enabled;
  }

  /** Once both sides have arrived they can finish without anybody else, and the parent gets
      the code. */
  lemma {:induction false} HandshakeEnds(st: State, x: Uid) returns (es: seq<Event>)
    requires Inv(st) && BothArrived(st, x)
    ensures CanDo(st, es) && x !in After(st, es).procs && (x, st.procs[x].exitcode) in After(st, es).joins
    decreases StepsLeft(st, x)
  {
    NeitherSideStaysBlocked(st, x);
    var e := Step(Turn(st, x));
    var st' := Next(st, e);
    EventKeepsInv(st, e);
    CodeStays(st, e, x);
    hide Inv, Next, Enabled;
    if x in st'.procs {
      var rest := HandshakeEnds(st', x);
      DoFirst(st, e, rest);
      es := [e] + rest;
    } else {
      DoFirst(st, e, []);
      es := [e] + [];
    }
  }

  lemma CodeStays(st: State, e: Event, x: Uid)
    requires Inv(st) && Enabled(st, e) && BothArrived(st, x)
    ensures x in Next(st, e).procs ==> Next(st, e).procs[x].exitcode == st.procs[x].exitcode
    ensures x !in Next(st, e).procs ==> (x, st.procs[x].exitcode) in Next(st, e).joins
  {
    assert ProcOk(st, x);
    RecordsLast(st, e, x);
    LogsGrow(st, e);
    if x in Next(st, e).procs {
      EventKeepsInv(st, e);
      assert ProcOk(Next(st, e), x);
      hide Next, Enabled, Inv;
    } else {
      hide Next, Enabled, Inv;
    }
  }

  /** Nothing holds up a child on its way to the signal. */
  lemma ExitGoesOn(st: State, x: Uid)
    requires Inv(st) && x in st.procs && st.procs[x].joined && Exiting(st.procs[x].at)
    ensures st.procs[x].at == ExitCounting || st.procs[x].at == ExitSignal ==> Enabled(st, Step(x))
  {
    assert ProcOk(st, x);
    if st.procs[x].parent.Some? && st.procs[x].parent.value in st.procs {
      assert ProcOk(st, st.procs[x].parent.value);
    }
  }

  lemma {:induction false} SignalEnds(st: State, x: Uid) returns (es: seq<Event>)
    requires Inv(st) && x in st.procs && st.procs[x].joined && Exiting(st.procs[x].at)
    ensures CanDo(st, es) && x !in After(st, es).procs && (x, st.procs[x].exitcode) in After(st, es).joins
    decreases if st.procs[x].at == ExitCounting then 2 else if st.procs[x].at == ExitSignal then 1 else 0
  {
    if Signalled(st.procs[x].at) {
      es := HandshakeEnds(st, x);
    } else {
      ExitGoesOn(st, x);
      var st' := Next(st, Step(x));
      EventKeepsInv(st, Step(x));
      assert st'.procs[x].joined && Exiting(st'.procs[x].at) && st'.procs[x].exitcode == st.procs[x].exitcode;
      assert st'.procs[x].at == if st.procs[x].at == ExitCounting then ExitSignal else ExitWait;
      hide Inv, Next, Enabled;
      var rest := SignalEnds(st', x);
      DoFirst(st, Step(x), rest);
      es := [Step(x)] + rest;
    }
  }

  /** From every state with a process at user level and a free slot there is a run through Exec,
      Join and Exit, in either order, after which the child is gone and its parent has the code. */
  lemma HandshakeCanBeHad(st: State, u: Uid, slot: Pid, x: Uid, code: int, joinFirst: bool) returns (es: seq<Event>)
    requires Inv(st) && Enabled(st, Exec(u, slot, x))
    ensures CanDo(st, es) && |es| >= 3 && es[0] == Exec(u, slot, x)
    ensures if joinFirst then es[1] == Join(u, slot) && es[2] == Exit(x, code) else es[1] == Exit(x, code) && es[2] == Join(u, slot)
    ensures x !in After(st, es).procs && (x, code) in After(st, es).joins
  {
    ExecEffect(st, u, slot, x, code);
    EventKeepsInv(st, Exec(u, slot, x));
    var st1 := Next(st, Exec(u, slot, x));
    var a, b := if joinFirst then Join(u, slot) else Exit(x, code), if joinFirst then Exit(x, code) else Join(u, slot);
    BothOrders(st1, u, slot, x, code, joinFirst);
    EventKeepsInv(st1, a);
    EventKeepsInv(Next(st1, a), b);
    hide Inv, Next, Enabled, Unjoined;
    var st3 := Next(Next(st1, a), b);
    var rest := SignalEnds(st3, x);
    DoFirst(Next(st1, a), b, rest);
    DoFirst(st1, a, [b] + rest);
    DoFirst(st, Exec(u, slot, x), [a] + ([b] + rest));
    es := [Exec(u, slot, x)] + ([a] + ([b] + rest));
  }

  lemma BothOrders(st: State, u: Uid, slot: Pid, x: Uid, code: int, joinFirst: bool)
    requires Inv(st) && Unjoined(st, u, slot, x) && Enabled(st, Join(u, slot)) && Enabled(st, Exit(x, code)) && x != u
    ensures var a, b := if joinFirst then Join(u, slot) else Exit(x, code), if joinFirst then Exit(x, code) else Join(u, slot);
      && Enabled(st, a) && Enabled(Next(st, a), b)
      && var st' := Next(Next(st, a), b);
         x in st'.procs && st'.procs[x].joined && Exiting(st'.procs[x].at) && st'.procs[x].exitcode == code
  {
    hide Inv;
  }

  /** In particular the main process can have a child and get its code. */
  lemma RunsGoThrough(code: int, joinFirst: bool) returns (es: seq<Event>)
    ensures CanDo(Start(), es) && (1, code) in After(Start(), es).joins
  {
    StartInv();
    es := HandshakeCanBeHad(Start(), 0, 1, 1, code, joinFirst);
  }
}
