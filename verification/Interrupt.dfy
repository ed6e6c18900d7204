/** machine/interrupt.cc: simulated time, the queue of pending interrupts, and their firing. */
module Interrupts {
  import opened Collections
  import opened Lists

  const USER_TICK := 1
  const SYSTEM_TICK := 10

  datatype IntStatus = IntOff | IntOn
  datatype MachineStatus = IdleMode | SystemMode | UserMode
  datatype IntType = TimerInt | DiskInt | ConsoleWriteInt | ConsoleReadInt | NetworkSendInt | NetworkRecvInt

  datatype PendingInterrupt = PendingInterrupt(handler: int, arg: int, when: int, kind: IntType)

  /** A call of Schedule from inside a handler. Devices ask for a time in the future. */
  datatype Request = Request(handler: int, arg: int, fromNow: Delay, kind: IntType)
  type Delay = x: int | x > 0 witness 1

  /** What a handler does to the interrupt simulation: it schedules interrupts and may ask
      for a context switch. What it does depends on the state of its device, so any effect
      is possible each time a handler runs. */
  datatype Effect = Effect(requests: seq<Request>, wantsYield: bool)

  /** One firing: which interrupt, and when its handler ran. */
  datatype Firing = Firing(what: PendingInterrupt, at: int) {
    function Due(): int { what.when }
  }

  // ---------------------------------------------------------------- the queue, as a sequence

  type Queue = seq<Keyed<PendingInterrupt>>

  ghost predicate Consistent(q: Queue) {
    Sorted(q) && forall i | 0 <= i < |q| :: q[i].item.when == q[i].key
  }

  /** How many pending interrupts are due. */
  function DueCount(q: Queue, now: int): (n: nat) {
    if q == [] then 0 else (if q[0].key <= now then 1 else 0) + DueCount(q[1..], now)
  }

  lemma {:induction false} DueCountSplit(a: Queue, b: Queue, now: int)
    ensures DueCount(a + b, now) == DueCount(a, now) + DueCount(b, now)
  {
    if a == [] {
      assert a + b == b;
    } else {
      assert (a + b)[1..] == a[1..] + b;
      DueCountSplit(a[1..], b, now);
    }
  }

  lemma InsertDueCount(q: Queue, e: Keyed<PendingInterrupt>, now: int)
    ensures DueCount(Inserted(q, e), now) == DueCount(q, now) + if e.key <= now then 1 else 0
  {
    var p := InsertPosition(q, e.key);
    assert q == q[..p] + q[p..];
    DueCountSplit(q[..p], q[p..], now);
    DueCountSplit(q[..p] + [e], q[p..], now);
    DueCountSplit(q[..p], [e], now);
    assert DueCount([e], now) == if e.key <= now then 1 else 0;
  }

  lemma InsertKeepsConsistent(q: Queue, e: PendingInterrupt)
    requires Consistent(q)
    ensures Consistent(Inserted(q, Keyed(e.when, e)))
    ensures forall x | x in Inserted(q, Keyed(e.when, e)) :: x in q || x == Keyed(e.when, e)
    ensures forall x | x in q :: x in Inserted(q, Keyed(e.when, e))
    ensures Keyed(e.when, e) in Inserted(q, Keyed(e.when, e))
  {
    var k := Keyed(e.when, e);
    InsertedIsSorted(q, k);
    var p, r := InsertPosition(q, k.key), Inserted(q, k);
    forall i | 0 <= i < |r| ensures r[i].item.when == r[i].key {
      assert r[i] == if i < p then q[i] else if i == p then k else q[i - 1];
    }
    assert q == q[..p] + q[p..];
    assert r[p] == k;
  }

  /** The history of firings: interrupts fire in order of their due times, never before
      they are due, and nothing still pending was due before one that already fired. */
  ghost predicate InOrder(fired: seq<Firing>, q: Queue, now: int) {
    && (forall i, j | 0 <= i < j < |fired| :: fired[i].Due() <= fired[j].Due() && fired[i].at <= fired[j].at)
    && (forall i | 0 <= i < |fired| :: fired[i].Due() <= fired[i].at <= now)
    && (fired != [] ==> forall x | x in q :: fired[|fired| - 1].Due() <= x.key)
  }

  lemma FireKeepsOrder(fired: seq<Firing>, q: Queue, now: int, what: PendingInterrupt)
    requires InOrder(fired, q, now) && what.when <= now && forall x | x in q :: what.when <= x.key
    requires fired != [] ==> fired[|fired| - 1].Due() <= what.when
    ensures InOrder(fired + [Firing(what, now)], q, now)
  {
    if fired != [] {
      var n := |fired| - 1;
      assert forall i | 0 <= i < n :: fired[i].Due() <= fired[n].Due();
    }
  }

  lemma LaterKeepsOrder(fired: seq<Firing>, q: Queue, now: int, later: int)
    requires InOrder(fired, q, now) && now <= later
    ensures InOrder(fired, q, later)
  {
  }

  /** An interrupt for a later time joins the queue. */
  lemma ScheduleKeepsOrder(fired: seq<Firing>, q: Queue, now: int, e: PendingInterrupt)
    requires InOrder(fired, q, now) && Consistent(q) && now <= e.when
    ensures Consistent(Inserted(q, Keyed(e.when, e))) && InOrder(fired, Inserted(q, Keyed(e.when, e)), now)
  {
    InsertKeepsConsistent(q, e);
    hide Inserted, Consistent;
    if fired != [] { assert fired[|fired| - 1].Due() <= now; }
  }

  /** The first interrupt of q can be taken off: nothing that fired was due later, nothing left
      is due earlier. */
  ghost predicate CanFire(fired: seq<Firing>, q: Queue, now: int)
    requires q != []
  {
    && Consistent(q[1..]) && InOrder(fired, q[1..], now) && q[0].item.when == q[0].key
    && (forall x | x in q[1..] :: q[0].key <= x.key)
    && (fired != [] ==> fired[|fired| - 1].Due() <= q[0].key)
    && DueCount(q, now) == DueCount(q[1..], now) + if q[0].key <= now then 1 else 0
  }

  /** And can be put back. */
  ghost predicate CanReturn(fired: seq<Firing>, q: Queue, now: int)
    requires q != []
  {
    var r := Inserted(q[1..], q[0]);
    && Consistent(r) && InOrder(fired, r, now) && multiset(r) == multiset(q)
    && (q[0].key > now ==> r[0].key > now) && (|q| == 1 ==> r == q)
  }

  /** What taking the first interrupt off the queue, and perhaps putting it back, leaves. */
  lemma TakeFirst(fired: seq<Firing>, q: Queue, now: int)
    requires InOrder(fired, q, now) && Consistent(q) && q != []
    ensures CanFire(fired, q, now) && CanReturn(fired, q, now)
  {
    TakeOff(fired, q, now);
    PutBackElements(q);
    hide CanFire, Consistent, Inserted, DueCount;
    SubsetKeepsOrder(fired, q, Inserted(q[1..], q[0]), now);
    hide InOrder;
  }

  lemma PutBackElements(q: Queue)
    requires Consistent(q) && q != []
    ensures var r := Inserted(q[1..], q[0]);
      && Consistent(r) && multiset(r) == multiset(q) && (forall x | x in r :: x in q)
      && r != [] && q[0].key <= r[0].key && (|q| == 1 ==> r == q)
  {
    var rest, r := q[1..], Inserted(q[1..], q[0]);
    HeadIsMinimal(q);
    assert Consistent(rest) && q[0] == Keyed(q[0].item.when, q[0].item);
    hide Inserted, Sorted;
    InsertKeepsConsistent(rest, q[0].item);
    hide Consistent;
    InsertedElements(rest, q[0]);
    InsertIntoEmpty(q[0]);
    SameElements(r, q);
    assert r != [] by { assert q[0] in r; }
    assert r[0] in q;
  }

  lemma SameElements(r: Queue, q: Queue)
    requires multiset(r) == multiset(q)
    ensures forall x | x in r :: x in q
  {
    forall x | x in r ensures x in q {
      assert x in multiset(r);
    }
  }

  lemma InsertIntoEmpty(e: Keyed<PendingInterrupt>)
    ensures Inserted([], e) == [e]
  {
  }

  lemma SubsetKeepsOrder(fired: seq<Firing>, q: Queue, r: Queue, now: int)
    requires InOrder(fired, q, now) && forall x | x in r :: x in q
    ensures InOrder(fired, r, now)
  {
  }

  lemma TakeOff(fired: seq<Firing>, q: Queue, now: int)
    requires InOrder(fired, q, now) && Consistent(q) && q != []
    ensures CanFire(fired, q, now)
    ensures Consistent(q[1..]) && q[0].item.when == q[0].key
  {
    HeadIsMinimal(q);
    assert forall x | x in q[1..] :: x in q;
    assert q[0] in q;
  }

  ghost predicate NothingDue(q: Queue, now: int) {
    forall x | x in q :: x.key > now
  }

  /** Nothing is due when the first interrupt is not. */
  lemma HeadIsNext(q: Queue, now: int)
    requires Consistent(q)
    ensures q == [] || q[0].key > now ==> NothingDue(q, now)
  {
    if q != [] { HeadIsMinimal(q); }
  }

  function Later(a: int, b: int): int { if a < b then b else a }

  // ---------------------------------------------------------------- nothing is lost, nothing made up

  type Entry = Keyed<PendingInterrupt>

  /** What the requests of a handler put on the queue when it runs at time `now`. */
  function Asked(requests: seq<Request>, now: int): (es: seq<Entry>)
    ensures |es| == |requests|
  {
    seq(|requests|, i requires 0 <= i < |requests| =>
      var r := requests[i]; Keyed(now + r.fromNow, PendingInterrupt(r.handler, r.arg, now + r.fromNow, r.kind)))
  }

  /** q' is q and those entries. */
  ghost predicate Joined(q: Queue, q': Queue, added: seq<Entry>) {
    multiset(q') == multiset(q) + multiset(added)
  }

  lemma JoinedByNone(q: Queue)
    ensures Joined(q, q, [])
  {
  }

  lemma JoinedByOne(q: Queue, q': Queue, added: seq<Entry>, e: Entry)
    requires Joined(q, q', added)
    ensures Joined(q, Inserted(q', e), added + [e])
  {
    InsertedElements(q', e);
    assert multiset(added + [e]) == multiset(added) + multiset{e};
    hide Inserted;
  }

  /** The interrupts that fired after the first n. */
  ghost function Went(fired: seq<Firing>, n: nat): (m: multiset<Entry>)
    requires n <= |fired|
  {
    if |fired| == n then multiset{}
    else var f := fired[|fired| - 1]; Went(fired[..|fired| - 1], n) + multiset{Keyed(f.what.when, f.what)}
  }

  /** What the handlers of those asked for. */
  ghost function Requested(effects: nat -> Effect, fired: seq<Firing>, n: nat): (m: multiset<Entry>)
    requires n <= |fired|
  {
    if |fired| == n then multiset{}
    else
      var k := |fired| - 1;
      Requested(effects, fired[..k], n) + multiset(Asked(effects(k).requests, fired[k].at))
  }

  /** Everything that was pending or has been asked for since is pending or has fired, once. */
  ghost predicate Conserved(effects: nat -> Effect, q: Queue, fired: seq<Firing>, q': Queue, fired': seq<Firing>) {
    && fired <= fired'
    && multiset(q') + Went(fired', |fired|) == multiset(q) + Requested(effects, fired', |fired|)
  }

  /** Some handler asked for a context switch. */
  ghost predicate SomeWant(effects: nat -> Effect, n: nat, m: nat) {
    exists i: nat :: n <= i < m && effects(i).wantsYield
  }

  lemma {:induction false} WentSplit(effects: nat -> Effect, fired: seq<Firing>, fired': seq<Firing>, n: nat)
    requires n <= |fired| && fired <= fired'
    ensures Went(fired', n) == Went(fired, n) + Went(fired', |fired|)
    ensures Requested(effects, fired', n) == Requested(effects, fired, n) + Requested(effects, fired', |fired|)
    decreases |fired'|
  {
    if |fired'| == |fired| {
      assert fired' == fired;
    } else {
      WentSplit(effects, fired, fired'[..|fired'| - 1], n);
    }
  }

  lemma ConservedThen(effects: nat -> Effect, q: Queue, fired: seq<Firing>, q': Queue, fired': seq<Firing>,
                      q'': Queue, fired'': seq<Firing>)
    requires Conserved(effects, q, fired, q', fired') && Conserved(effects, q', fired', q'', fired'')
    ensures Conserved(effects, q, fired, q'', fired'')
  {
    assert fired <= fired'';
    WentSplit(effects, fired', fired'', |fired|);
    hide Went, Requested;
    Balance(multiset(q), multiset(q'), multiset(q''), Went(fired', |fired|), Went(fired'', |fired'|),
            Requested(effects, fired', |fired|), Requested(effects, fired'', |fired'|));
  }

  lemma Balance(a: multiset<Entry>, b: multiset<Entry>, c: multiset<Entry>, w: multiset<Entry>, w': multiset<Entry>,
                r: multiset<Entry>, r': multiset<Entry>)
    requires b + w == a + r && c + w' == b + r'
    ensures c + (w + w') == a + (r + r')
  {
    calc {
      c + (w + w');
      (c + w') + w;
      (b + r') + w;
      (b + w) + r';
      (a + r) + r';
      a + (r + r');
    }
  }

  lemma ConservedByNothing(effects: nat -> Effect, q: Queue, q': Queue, fired: seq<Firing>)
    requires multiset(q') == multiset(q)
    ensures Conserved(effects, q, fired, q', fired)
  {
  }

  /** One interrupt fires. */
  lemma ConservedByFiring(effects: nat -> Effect, q: Queue, fired: seq<Firing>, q': Queue, f: Firing)
    requires q != [] && q[0] == Keyed(f.what.when, f.what)
    requires Joined(q[1..], q', Asked(effects(|fired|).requests, f.at))
    ensures Conserved(effects, q, fired, q', fired + [f])
  {
    var fired' := fired + [f];
    assert fired'[..|fired|] == fired && q == [q[0]] + q[1..];
    assert Went(fired', |fired|) == multiset{q[0]};
    assert Requested(effects, fired', |fired|) == multiset(Asked(effects(|fired|).requests, f.at));
  }

  lemma WantThen(effects: nat -> Effect, n: nat, m: nat, k: nat)
    requires n <= m <= k
    ensures SomeWant(effects, n, k) <==> SomeWant(effects, n, m) || SomeWant(effects, m, k)
    ensures !SomeWant(effects, n, n) && (SomeWant(effects, n, n + 1) <==> effects(n).wantsYield)
  {
  }

  /** A lone timer does not keep an idle machine alive. */
  predicate OnlyTimerLeft(status: MachineStatus, q: Queue) {
    status == IdleMode && |q| == 1 && q[0].item.kind == TimerInt
  }

  class Interrupt {
    /** What the n-th handler to run does; any sequence of effects. */
    const effects: nat -> Effect
    const pending: List<PendingInterrupt>
    var level: IntStatus
    var status: MachineStatus
    var inHandler: bool
    var yieldOnReturn: bool
    var totalTicks: int
    var idleTicks: int
    var systemTicks: int
    var userTicks: int
    var firings: nat
    ghost var fired: seq<Firing>

    ghost function Q(): Queue
      reads pending
    {
      pending.Contents()
    }

    ghost predicate Valid()
      reads this, pending, pending.spine
    {
      && pending.Valid() && Consistent(Q())
      && totalTicks == idleTicks + systemTicks + userTicks
      && InOrder(fired, Q(), totalTicks) && firings == |fired|
    }

    constructor (effects: nat -> Effect)
      ensures Valid() && fresh(pending) && fresh(pending.spine) && Q() == [] && fired == []
      ensures level == IntOff && status == SystemMode && !inHandler && !yieldOnReturn
    {
      this.effects := effects;
      pending := new List<PendingInterrupt>();
      level, status, inHandler, yieldOnReturn := IntOff, SystemMode, false, false;
      totalTicks, idleTicks, systemTicks, userTicks := 0, 0, 0, 0;
      firings, fired := 0, [];
    }

    method Schedule(handler: int, arg: int, fromNow: int, kind: IntType)
      requires Valid() && fromNow > 0
      modifies pending, pending.spine
      ensures Valid() && fresh(set c | c in pending.spine && c !in old(pending.spine))
      ensures var e := PendingInterrupt(handler, arg, totalTicks + fromNow, kind); Q() == Inserted(old(Q()), Keyed(e.when, e))
    {
      var when := totalTicks + fromNow;
      var toOccur := PendingInterrupt(handler, arg, when, kind);
      ScheduleKeepsOrder(fired, Q(), totalTicks, toOccur);
      hide InOrder, Consistent, Inserted;
      pending.SortedInsert(toOccur, when);
    }

    /** The calls of Schedule that a handler makes. Whatever they add is due strictly later. */
    method ScheduleAll(requests: seq<Request>)
      requires Valid()
      modifies pending, pending.spine
      ensures Valid() && fresh(set c | c in pending.spine && c !in old(pending.spine))
      ensures DueCount(Q(), totalTicks) == DueCount(old(Q()), totalTicks)
      ensures forall x | x in Q() :: x in old(Q()) || x.key > totalTicks
      ensures Joined(old(Q()), Q(), Asked(requests, totalTicks))
    {
      hide InOrder, Consistent, DueCount, Inserted, Joined;
      ghost var asked := Asked(requests, totalTicks);
      JoinedByNone(Q());
      for i := 0 to |requests|
        invariant Valid() && fresh(set c | c in pending.spine && c !in old(pending.spine))
        invariant DueCount(Q(), totalTicks) == DueCount(old(Q()), totalTicks)
        invariant forall x | x in Q() :: x in old(Q()) || x.key > totalTicks
        invariant Joined(old(Q()), Q(), asked[..i])
      {
        var r := requests[i];
        ghost var q, e := Q(), PendingInterrupt(r.handler, r.arg, totalTicks + r.fromNow, r.kind);
        InsertDueCount(q, Keyed(e.when, e), totalTicks);
        assert Consistent(q);
        InsertKeepsConsistent(q, e);
        JoinedByOne(old(Q()), q, asked[..i], Keyed(e.when, e));
        assert asked[..i + 1] == asked[..i] + [Keyed(e.when, e)];
        Schedule(r.handler, r.arg, r.fromNow, r.kind);
      }
      assert asked[..|requests|] == asked;
    }

    /** Runs the handler of the first interrupt of q, which was just taken off the queue. Whatever it
        schedules joins the queue, and is due strictly later. */
    method Fire(toOccur: PendingInterrupt, ghost q: Queue)
      requires Valid() && toOccur.when <= totalTicks
      requires q != [] && q[0] == Keyed(toOccur.when, toOccur) && Q() == q[1..]
      requires forall x | x in Q() :: toOccur.when <= x.key
      requires fired != [] ==> fired[|fired| - 1].Due() <= toOccur.when
      modifies this, pending, pending.spine
      ensures Valid() && fresh(set c | c in pending.spine && c !in old(pending.spine))
      ensures fired == old(fired) + [Firing(toOccur, totalTicks)]
      ensures DueCount(Q(), totalTicks) == DueCount(old(Q()), totalTicks)
      ensures forall x | x in Q() :: x in old(Q()) || x.key > totalTicks
      ensures Joined(old(Q()), Q(), Asked(effects(old(firings)).requests, totalTicks))
      ensures level == old(level) && status == old(status) && !inHandler
      ensures totalTicks == old(totalTicks) && idleTicks == old(idleTicks)
      ensures systemTicks == old(systemTicks) && userTicks == old(userTicks)
      ensures Conserved(effects, q, old(fired), Q(), fired)
      ensures yieldOnReturn == (old(yieldOnReturn) || SomeWant(effects, |old(fired)|, |fired|))
    {
      hide InOrder, Consistent, DueCount, Asked, Joined, Conserved, SomeWant, List.Valid, List.Contents;
      WantThen(effects, |fired|, |fired|, |fired|);
      FireKeepsOrder(fired, Q(), totalTicks, toOccur);
      var before := status;
      inHandler := true;
      status := SystemMode;
      fired := fired + [Firing(toOccur, totalTicks)];
      var effect := effects(firings);
      firings := firings + 1;
      ScheduleAll(effect.requests);
      if effect.wantsYield { yieldOnReturn := true; }
      status := before;
      inHandler := false;
      ConservedByFiring(effects, q, old(fired), Q(), Firing(toOccur, totalTicks));
    }

    /** Fires the next interrupt if it is due, moving the clock up to it if asked to.
        Nothing fires exactly when nothing is pending, when the next one is not due and the
        clock may not move, or when an idle machine has only its timer left. */
    method CheckIfDue(advanceClock: bool) returns (any: bool)
      requires Valid() && level == IntOff
      modifies this, pending, pending.spine
      ensures Valid() && fresh(set c | c in pending.spine && c !in old(pending.spine))
      ensures level == IntOff && status == old(status) && systemTicks == old(systemTicks) && userTicks == old(userTicks)
      ensures totalTicks == if advanceClock && old(Q()) != [] && old(Q())[0].key > old(totalTicks)
                            then old(Q())[0].key else old(totalTicks)
      ensures any <==> old(Q()) != [] && (advanceClock || old(Q())[0].key <= old(totalTicks))
                       && !OnlyTimerLeft(status, old(Q()))
      ensures !any ==> fired == old(fired) && multiset(Q()) == multiset(old(Q()))
      ensures !any ==> Q() == [] || (!advanceClock && Q()[0].key > totalTicks) || OnlyTimerLeft(status, Q())
      ensures any ==> fired == old(fired) + [Firing(old(Q())[0].item, totalTicks)]
      ensures any && !advanceClock ==> DueCount(Q(), totalTicks) < DueCount(old(Q()), totalTicks)
      ensures Conserved(effects, old(Q()), old(fired), Q(), fired)
      ensures yieldOnReturn == (old(yieldOnReturn) || SomeWant(effects, |old(fired)|, |fired|))
    {
      hide InOrder, Inserted, Consistent, DueCount, InsertPosition, CanReturn, Conserved, SomeWant, Asked, Joined, List.Valid, List.Contents;
      ghost var q := Q();
      WantThen(effects, |fired|, |fired|, |fired|);
      if q != [] { TakeFirst(fired, q, totalTicks); }
      var next := pending.SortedRemove();
      if next == None {
        ConservedByNothing(effects, q, Q(), fired);
        return false;
      }
      var when, toOccur := next.value.key, next.value.item;
      if advanceClock && when > totalTicks {
        LaterKeepsOrder(fired, q, totalTicks, when);
        idleTicks := idleTicks + (when - totalTicks);
        totalTicks := when;
        TakeFirst(fired, q, when);
      } else if when > totalTicks {
        PutBack(next.value, q);
        return false;
      }
      if status == IdleMode && toOccur.kind == TimerInt && pending.IsEmpty() {
        PutBack(next.value, q);
        return false;
      }
      Fire(toOccur, q);
      return true;
    }

    /** Puts the first interrupt of q back, after it was taken off. */
    method PutBack(first: Keyed<PendingInterrupt>, ghost q: Queue)
      requires pending.Valid() && totalTicks == idleTicks + systemTicks + userTicks && firings == |fired|
      requires q != [] && CanReturn(fired, q, totalTicks) && Q() == q[1..] && first == q[0]
      modifies pending, pending.spine
      ensures Valid() && fresh(set c | c in pending.spine && c !in old(pending.spine))
      ensures multiset(Q()) == multiset(q) && (|q| == 1 ==> Q() == q) && Conserved(effects, q, fired, Q(), fired)
      ensures q[0].key > totalTicks ==> Q() != [] && Q()[0].key > totalTicks
    {
      hide InOrder, Consistent, InsertPosition, Conserved;
      pending.SortedInsert(first.item, first.key);
      ConservedByNothing(effects, q, Q(), fired);
    }

    /** while (CheckIfDue(FALSE)): ends, because every firing leaves one due interrupt fewer,
        and leaves nothing due, except a lone timer when the machine idles. */
    method Drain()
      requires Valid() && level == IntOff
      modifies this, pending, pending.spine
      ensures Valid() && fresh(set c | c in pending.spine && c !in old(pending.spine))
      ensures level == IntOff && status == old(status) && totalTicks == old(totalTicks)
      ensures idleTicks == old(idleTicks) && systemTicks == old(systemTicks) && userTicks == old(userTicks)
      ensures old(fired) <= fired && forall i | |old(fired)| <= i < |fired| :: fired[i].at == totalTicks
      ensures NothingDue(Q(), totalTicks) || OnlyTimerLeft(status, Q())
      ensures Conserved(effects, old(Q()), old(fired), Q(), fired)
      ensures yieldOnReturn == (old(yieldOnReturn) || SomeWant(effects, |old(fired)|, |fired|))
    {
      hide InOrder, DueCount, Consistent, OnlyTimerLeft, NothingDue, Conserved, SomeWant;
      var more := CheckIfDue(false);
      while more
        invariant Valid() && fresh(set c | c in pending.spine && c !in old(pending.spine))
        invariant level == IntOff && status == old(status) && totalTicks == old(totalTicks)
        invariant idleTicks == old(idleTicks) && systemTicks == old(systemTicks) && userTicks == old(userTicks)
        invariant old(fired) <= fired && forall i | |old(fired)| <= i < |fired| :: fired[i].at == totalTicks
        invariant !more ==> Q() == [] || Q()[0].key > totalTicks || OnlyTimerLeft(status, Q())
        invariant Conserved(effects, old(Q()), old(fired), Q(), fired)
        invariant yieldOnReturn == (old(yieldOnReturn) || SomeWant(effects, |old(fired)|, |fired|))
        decreases more, DueCount(Q(), totalTicks)
      {
        ghost var q, before := Q(), fired;
        more := CheckIfDue(false);
        ConservedThen(effects, old(Q()), old(fired), q, before, Q(), fired);
        WantThen(effects, |old(fired)|, |before|, |fired|);
      }
      HeadIsNext(Q(), totalTicks);
    }

    /** Advances simulated time and fires everything that is then due. Returns whether a
        handler asked for a context switch, which happens next. */
    method OneTick() returns (switch: bool)
      requires Valid() && level == IntOn && status != IdleMode
      modifies this, pending, pending.spine
      ensures Valid() && fresh(set c | c in pending.spine && c !in old(pending.spine))
      ensures level == IntOn && status == old(status) && !yieldOnReturn
      ensures totalTicks == old(totalTicks) + if status == SystemMode then SYSTEM_TICK else USER_TICK
      ensures idleTicks == old(idleTicks) && old(fired) <= fired
      ensures forall i | |old(fired)| <= i < |fired| :: fired[i].at == totalTicks
      ensures NothingDue(Q(), totalTicks)
      ensures Conserved(effects, old(Q()), old(fired), Q(), fired)
      ensures switch <==> old(yieldOnReturn) || SomeWant(effects, |old(fired)|, |fired|)
    {
      hide InOrder, Conserved, SomeWant;
      var tick := if status == SystemMode then SYSTEM_TICK else USER_TICK;
      LaterKeepsOrder(fired, Q(), totalTicks, totalTicks + tick);
      if status == SystemMode {
        totalTicks := totalTicks + SYSTEM_TICK;
        systemTicks := systemTicks + SYSTEM_TICK;
      } else {
        totalTicks := totalTicks + USER_TICK;
        userTicks := userTicks + USER_TICK;
      }
      level := IntOff;
      Drain();
      level := IntOn;
      switch := yieldOnReturn;
      yieldOnReturn := false;
    }

    method SetLevel(now: IntStatus) returns (before: IntStatus, switch: bool)
      requires Valid() && status != IdleMode && (now == IntOff || !inHandler)
      modifies this, pending, pending.spine
      ensures Valid() && level == now && before == old(level) && status == old(status)
      ensures if now == IntOn && before == IntOff then
                && NothingDue(Q(), totalTicks) && totalTicks > old(totalTicks)
                && Conserved(effects, old(Q()), old(fired), Q(), fired)
                && (switch <==> old(yieldOnReturn) || SomeWant(effects, |old(fired)|, |fired|))
              else totalTicks == old(totalTicks) && Q() == old(Q()) && fired == old(fired) && !switch
    {
      hide Conserved, SomeWant;
      before, switch := level, false;
      level := now;
      if now == IntOn && before == IntOff {
        switch := OneTick();
      }
    }

    /** Nothing is ready to run: skip to the next interrupt and fire all that are due. Halts
        exactly when there is nothing to wait for, or only the timer. */
    method Idle() returns (halted: bool)
      requires Valid() && level == IntOff
      modifies this, pending, pending.spine
      ensures Valid() && fresh(set c | c in pending.spine && c !in old(pending.spine))
      ensures level == IntOff && systemTicks == old(systemTicks) && userTicks == old(userTicks)
      ensures halted <==> old(Q()) == [] || OnlyTimerLeft(IdleMode, old(Q()))
      ensures !halted ==> status == SystemMode && !yieldOnReturn && old(fired) < fired
      ensures old(Q()) == [] ==> totalTicks == old(totalTicks)
      ensures old(Q()) != [] ==> totalTicks == Later(old(totalTicks), old(Q())[0].key)
      ensures !halted ==> fired[|old(fired)|] == Firing(old(Q())[0].item, totalTicks)
      ensures forall i | |old(fired)| <= i < |fired| :: fired[i].at == totalTicks
      ensures !halted ==> NothingDue(Q(), totalTicks) || OnlyTimerLeft(IdleMode, Q())
      ensures Conserved(effects, old(Q()), old(fired), Q(), fired)
    {
      hide InOrder, DueCount, Conserved, SomeWant;
      status := IdleMode;
      var any := CheckIfDue(true);
      if any {
        ghost var q, before := Q(), fired;
        Drain();
        ConservedThen(effects, old(Q()), old(fired), q, before, Q(), fired);
        yieldOnReturn := false;
        status := SystemMode;
        return false;
      }
      return true;
    }
  }
}
