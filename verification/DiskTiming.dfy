/** machine/disk.cc: how long the simulated disk takes for a request. The platter turns one
    sector per ROTATION_TIME ticks: during slot k, from k * ROTATION_TIME on, the sector
    passing under the head is number k modulo SECTORS_PER_TRACK of its track. */
module DiskTiming {
  import opened DiskGeometry

  const ROTATION_TIME := 500
  const SEEK_TIME := 500

  function Track(sector: nat): nat { sector / SECTORS_PER_TRACK }

  // ---------------------------------------------------------------- the code's arithmetic

  /** The seek part of TimeToSeek. */
  function SeekTicks(last: nat, target: nat): (seek: nat) {
    (if Track(target) >= Track(last) then Track(target) - Track(last) else Track(last) - Track(target)) * SEEK_TIME
  }

  /** The rotation part of TimeToSeek: from the end of the seek to the next sector boundary. */
  function RotationTicks(seek: nat, now: nat): (rotation: nat)
    ensures rotation < ROTATION_TIME && (now + seek + rotation) % ROTATION_TIME == 0
  {
    var over := (now + seek) % ROTATION_TIME;
    if over > 0 then ROTATION_TIME - over else 0
  }

  lemma TurnBy(to: nat, from: nat)
    ensures var d := (to % 32 - from % 32 + 32) % 32; 0 <= d && (from + d) % 32 == to % 32
  {
    var q, f, t := from / 32, from % 32, to % 32;
    var d := if t >= f then t - f else t - f + 32;
    assert (t - f + 32) % 32 == d;
    assert from + d == 32 * (if t >= f then q else q + 1) + t;
  }

  function ModuloDiff(to: nat, from: nat): (d: nat)
    ensures d < SECTORS_PER_TRACK && (from + d) % SECTORS_PER_TRACK == to % SECTORS_PER_TRACK
  {
    TurnBy(to, from);
    ((to % SECTORS_PER_TRACK - from % SECTORS_PER_TRACK) + SECTORS_PER_TRACK) % SECTORS_PER_TRACK
  }

  /** The first sector boundary at which the head is over the right track. */
  function TimeAfter(last: nat, target: nat, now: nat): (t: nat)
    ensures t % ROTATION_TIME == 0
  {
    var seek := SeekTicks(last, target);
    now + seek + RotationTicks(seek, now)
  }

  /** The test for the track buffer. */
  predicate BufferHit(last: nat, bufferInit: int, target: nat, writing: bool, now: nat)
    requires 0 <= bufferInit <= now
  {
    && !writing && SeekTicks(last, target) == 0
    && (TimeAfter(last, target, now) - bufferInit) / ROTATION_TIME > ModuloDiff(target, bufferInit / ROTATION_TIME)
  }

  function ComputeLatency(last: nat, bufferInit: int, target: nat, writing: bool, now: nat): (ticks: nat)
    requires 0 <= bufferInit <= now
  {
    if BufferHit(last, bufferInit, target, writing, now) then ROTATION_TIME
    else
      var seek := SeekTicks(last, target);
      var rotation := RotationTicks(seek, now)
                      + ModuloDiff(target, TimeAfter(last, target, now) / ROTATION_TIME) * ROTATION_TIME;
      seek + rotation + ROTATION_TIME
  }

  // ---------------------------------------------------------------- what the arm does

  /** Where the arm is some time after it left a track for another: it moves by one track every
      SEEK_TIME ticks, and stays where it was asked to go. */
  ghost function ArmAt(from: nat, to: nat, elapsed: nat): (track: nat)
    decreases elapsed
  {
    if elapsed < SEEK_TIME then from
    else ArmAt(if from < to then from + 1 else if from > to then from - 1 else from, to, elapsed - SEEK_TIME)
  }

  lemma {:induction false} ArmArrives(from: nat, to: nat, elapsed: nat)
    ensures ArmAt(from, to, elapsed) == to <==> elapsed >= (if from < to then to - from else from - to) * SEEK_TIME
    decreases elapsed
  {
    if elapsed >= SEEK_TIME {
      ArmArrives(if from < to then from + 1 else if from > to then from - 1 else from, to, elapsed - SEEK_TIME);
    }
  }

  /** The seek time is exactly the time the arm needs: it is over the track of the target from
      then on, and not before. */
  lemma SeekIsExact(last: nat, target: nat, elapsed: nat)
    ensures ArmAt(Track(last), Track(target), elapsed) == Track(target) <==> elapsed >= SeekTicks(last, target)
  {
    ArmArrives(Track(last), Track(target), elapsed);
  }

  /** At time t, the arm that was sent at time `now` from the track of one sector to that of
      another has got there. */
  ghost predicate OnTrack(last: nat, target: nat, now: int, t: int) {
    now <= t && ArmAt(Track(last), Track(target), t - now) == Track(target)
  }

  /** The first moment it is there. */
  ghost predicate Arrives(last: nat, target: nat, now: int, t: int) {
    OnTrack(last, target, now, t) && forall u | now <= u < t :: !OnTrack(last, target, now, u)
  }

  lemma ArrivesAfterSeek(last: nat, target: nat, now: int)
    ensures Arrives(last, target, now, now + SeekTicks(last, target))
    ensures forall t :: OnTrack(last, target, now, t) <==> t >= now + SeekTicks(last, target)
  {
    forall t | now <= t ensures OnTrack(last, target, now, t) <==> t >= now + SeekTicks(last, target) {
      SeekIsExact(last, target, t - now);
    }
  }

  /** The first sector boundary from a time on. */
  ghost predicate NextBoundary(t: int, b: int) {
    t <= b < t + ROTATION_TIME && b % ROTATION_TIME == 0
  }

  lemma BoundaryIsUnique(t: int, b: int, c: int)
    requires NextBoundary(t, b) && NextBoundary(t, c)
    ensures b == c
  {
  }

  lemma AfterIsBoundary(last: nat, target: nat, now: nat)
    ensures NextBoundary(now + SeekTicks(last, target), TimeAfter(last, target, now))
  {
  }

  // ---------------------------------------------------------------- what the platter does

  /** The sector passes completely under the head during slot k, within the given times. */
  ghost predicate PassesInSlot(sector: nat, k: int, from: int, until: int) {
    from <= k * ROTATION_TIME && (k + 1) * ROTATION_TIME <= until && k % SECTORS_PER_TRACK == sector % SECTORS_PER_TRACK
  }

  ghost predicate PassesUnderHead(sector: nat, from: int, until: int) {
    exists k :: PassesInSlot(sector, k, from, until)
  }

  /** Two slots of the same sector are a whole number of turns apart. */
  lemma NextTurn(sector: nat, k: int, start: int, d: nat)
    requires k >= start && k % SECTORS_PER_TRACK == sector % SECTORS_PER_TRACK
    requires d < SECTORS_PER_TRACK && (start + d) % SECTORS_PER_TRACK == sector % SECTORS_PER_TRACK
    ensures k >= start + d
  {
  }

  /** The track buffer answers a request exactly when it is a read of the current track and
      the sector has passed completely under the head since the buffer began to fill. */
  lemma BufferHitIsExact(last: nat, bufferInit: int, target: nat, writing: bool, now: nat)
    requires 0 <= bufferInit <= now && bufferInit % ROTATION_TIME == 0
    ensures BufferHit(last, bufferInit, target, writing, now)
            <==> !writing && Track(target) == Track(last)
                 && PassesUnderHead(target, bufferInit, TimeAfter(last, target, now))
  {
    var start, until := bufferInit / ROTATION_TIME, TimeAfter(last, target, now);
    var d := ModuloDiff(target, start);
    if BufferHit(last, bufferInit, target, writing, now) {
      assert PassesInSlot(target, start + d, bufferInit, until);
    }
    if k :| PassesInSlot(target, k, bufferInit, until) {
      NextTurn(target, k, start, d);
    }
  }

  /** Otherwise the request ends at a sector boundary, with the slot just over being one of
      the sector, begun after the seek; and no earlier slot after the seek would do. */
  lemma SlowPathIsEarliest(last: nat, bufferInit: int, target: nat, writing: bool, now: nat, k: int)
    requires 0 <= bufferInit <= now && !BufferHit(last, bufferInit, target, writing, now)
    ensures var done := now + ComputeLatency(last, bufferInit, target, writing, now);
      && done % ROTATION_TIME == 0
      && PassesInSlot(target, done / ROTATION_TIME - 1, now + SeekTicks(last, target), done)
      && (now + SeekTicks(last, target) <= k * ROTATION_TIME && k % SECTORS_PER_TRACK == target % SECTORS_PER_TRACK
          ==> done <= (k + 1) * ROTATION_TIME)
  {
    SlowEnd(last, bufferInit, target, writing, now);
    AfterIsBoundary(last, target, now);
    var after, from := TimeAfter(last, target, now), now + SeekTicks(last, target);
    var start := after / ROTATION_TIME;
    var d := ModuloDiff(target, start);
    hide ComputeLatency, TimeAfter, SeekTicks, ModuloDiff, BufferHit;
    WholeSlots(after, d + 1);
    if from <= k * ROTATION_TIME && k % SECTORS_PER_TRACK == target % SECTORS_PER_TRACK {
      assert k >= start;
      NextTurn(target, k, start, d);
    }
  }

  lemma SlowEnd(last: nat, bufferInit: int, target: nat, writing: bool, now: nat)
    requires 0 <= bufferInit <= now && !BufferHit(last, bufferInit, target, writing, now)
    ensures var after := TimeAfter(last, target, now);
      now + ComputeLatency(last, bufferInit, target, writing, now)
      == after + (ModuloDiff(target, after / ROTATION_TIME) + 1) * ROTATION_TIME
  {
    hide BufferHit, SeekTicks, RotationTicks, ModuloDiff;
  }

  lemma WholeSlots(t: nat, n: nat)
    requires t % 500 == 0
    ensures t == t / 500 * 500 && (t + n * 500) % 500 == 0 && (t + n * 500) / 500 == t / 500 + n
  {
  }

  /** A latency is never zero, so Schedule accepts it, and never more than the longest seek,
      a whole turn and a transfer. */
  lemma LatencyBounds(last: nat, bufferInit: int, target: nat, writing: bool, now: nat)
    requires last < NUM_SECTORS && target < NUM_SECTORS && 0 <= bufferInit <= now
    ensures 0 < ComputeLatency(last, bufferInit, target, writing, now)
              <= (NUM_TRACKS - 1) * SEEK_TIME + SECTORS_PER_TRACK * ROTATION_TIME + ROTATION_TIME
  {
    assert SeekTicks(last, target) <= (NUM_TRACKS - 1) * SEEK_TIME;
  }

  // ---------------------------------------------------------------- the device, over time

  /** The sector last asked for, when the head reached its track, and when the track buffer
      began to fill. */
  datatype Head = Head(sector: nat, arrived: int, bufferInit: int)

  /** A request leaves the head and the buffer alone on the same track; on another one the head
      is there when the arm arrives, and the buffer starts over at the next sector boundary. */
  ghost predicate Moved(h: Head, sector: nat, now: nat, h': Head) {
    if Track(sector) == Track(h.sector) then h' == h.(sector := sector)
    else h'.sector == sector && Arrives(h.sector, sector, now, h'.arrived) && NextBoundary(h'.arrived, h'.bufferInit)
  }

  class Disk {
    var active: bool
    var lastSector: nat
    var bufferInit: int
    /** When the head reached the track of lastSector. */
    ghost var arrived: int
    /** When the request in progress will be done. */
    ghost var doneAt: int

    /** What holds of the disk at any time `now`, whatever requests came before. The buffer
        starts at a sector boundary with the head already on the track; when no request is
        in progress, that start is in the past. */
    ghost predicate Valid(now: int)
      reads this
    {
      && 0 <= now && lastSector < NUM_SECTORS
      && 0 <= bufferInit && bufferInit % ROTATION_TIME == 0 && arrived <= bufferInit
      && (if active then bufferInit <= doneAt else bufferInit <= now)
    }

    ghost function Position(): Head
      reads this
    {
      Head(lastSector, arrived, bufferInit)
    }

    constructor ()
      ensures Valid(0) && !active && Position() == Head(0, 0, 0)
    {
      active, lastSector, bufferInit, arrived, doneAt := false, 0, 0, 0, 0;
    }

    /** ReadRequest and WriteRequest, apart from the data: only one request at a time. */
    method Request(sector: nat, writing: bool, now: nat) returns (ticks: nat)
      requires Valid(now) && !active && sector < NUM_SECTORS
      modifies this
      ensures Valid(now) && active && doneAt == now + ticks
      ensures ticks == ComputeLatency(old(lastSector), old(bufferInit), sector, writing, now) > 0
      ensures Moved(old(Position()), sector, now, Position())
    {
      ticks := ComputeLatency(lastSector, bufferInit, sector, writing, now);
      LatencyBounds(lastSector, bufferInit, sector, writing, now);
      ghost var after := TimeAfter(lastSector, sector, now);
      assert after <= now + ticks || Track(sector) == Track(lastSector);
      ArrivesAfterSeek(lastSector, sector, now);
      AfterIsBoundary(lastSector, sector, now);
      hide ComputeLatency, TimeAfter, OnTrack, SeekTicks;
      active := true;
      doneAt := now + ticks;
      UpdateLast(sector, now);
      if Track(sector) != Track(old(lastSector)) {
        BoundaryIsUnique(arrived, bufferInit, after);
      }
    }

    method UpdateLast(sector: nat, now: nat)
      requires sector < NUM_SECTORS
      modifies this`lastSector, this`bufferInit, this`arrived
      ensures Moved(old(Position()), sector, now, Position())
    {
      var seek := SeekTicks(lastSector, sector);
      ArrivesAfterSeek(lastSector, sector, now);
      hide Arrives;
      if seek != 0 {
        bufferInit := now + seek + RotationTicks(seek, now);
        arrived := now + seek;
      }
      lastSector := sector;
    }

    /** Called by the interrupt that Request scheduled, which never comes early. */
    method HandleInterrupt(now: nat)
      requires Valid(now) && active && doneAt <= now
      modifies this`active
      ensures Valid(now) && !active
    {
      active := false;
    }

    /** Time passes. */
    lemma Later(now: nat, later: nat)
      requires Valid(now) && now <= later
      ensures Valid(later)
    {
    }
  }

  /** A request, and how long the kernel lets the disk rest after it completes. */
  datatype Access = Access(sector: nat, writing: bool, rest: nat)

  /** When a request was issued, and when it was done. */
  datatype Outcome = Outcome(start: nat, end: nat)

  /** The sector has passed under the head, on its track, since the buffer began to fill and up
      to the first sector boundary from now on. */
  ghost predicate InBuffer(a: Access, h: Head, now: nat) {
    Track(a.sector) == Track(h.sector)
    && exists b :: NextBoundary(now, b) && PassesUnderHead(a.sector, h.bufferInit, b)
  }

  /** The sector passes completely under the head, with the arm over its track, after a request
      that was issued at time `now`. */
  ghost predicate PassesOnTrack(a: Access, h: Head, now: nat, until: int) {
    exists k :: PassesInSlot(a.sector, k, now, until) && OnTrack(h.sector, a.sector, now, k * ROTATION_TIME)
  }

  /** What arm and platter make of a request, with the head where it was: a read of a sector that
      is in the buffer takes one transfer; any other request ends just when the sector has
      passed for the first time under a head that is over its track. */
  ghost predicate Physical(a: Access, o: Outcome, h: Head) {
    if !a.writing && InBuffer(a, h, o.start) then o.end == o.start + ROTATION_TIME
    else PassesOnTrack(a, h, o.start, o.end) && !PassesOnTrack(a, h, o.start, o.end - 1)
  }

  /** That leaves no choice: the end of a request is determined by arm, platter and head. */
  lemma PhysicalIsUnique(a: Access, o: Outcome, p: Outcome, h: Head)
    requires o.start == p.start && Physical(a, o, h) && Physical(a, p, h)
    ensures o == p
  {
    hide PassesOnTrack;
    if a.writing || !InBuffer(a, h, o.start) {
      if o.end < p.end { PassesLonger(a, h, o.start, o.end, p.end - 1); }
      if p.end < o.end { PassesLonger(a, h, o.start, p.end, o.end - 1); }
    }
  }

  lemma PassesLonger(a: Access, h: Head, now: nat, until: int, later: int)
    requires PassesOnTrack(a, h, now, until) && until <= later
    ensures PassesOnTrack(a, h, now, later)
  {
    var k :| PassesInSlot(a.sector, k, now, until) && OnTrack(h.sector, a.sector, now, k * ROTATION_TIME);
    assert PassesInSlot(a.sector, k, now, later);
  }

  lemma InBufferIsHit(a: Access, h: Head, now: nat)
    requires Buffering(h, now)
    ensures !a.writing && InBuffer(a, h, now) <==> BufferHit(h.sector, h.bufferInit, a.sector, a.writing, now)
  {
    BufferHitIsExact(h.sector, h.bufferInit, a.sector, a.writing, now);
    AfterIsBoundary(h.sector, a.sector, now);
    var after := TimeAfter(h.sector, a.sector, now);
    hide BufferHit, TimeAfter, PassesUnderHead;
    if b :| Track(a.sector) == Track(h.sector) && NextBoundary(now, b) && PassesUnderHead(a.sector, h.bufferInit, b) {
      BoundaryIsUnique(now, b, after);
    }
  }

  /** The buffer was empty when the head reached the track, and has filled since. */
  predicate Buffering(h: Head, now: int) {
    0 <= h.bufferInit <= now && h.bufferInit % ROTATION_TIME == 0 && h.arrived <= h.bufferInit
  }

  lemma RequestIsPhysical(a: Access, h: Head, now: nat)
    requires Buffering(h, now)
    ensures Physical(a, Outcome(now, now + ComputeLatency(h.sector, h.bufferInit, a.sector, a.writing, now)), h)
  {
    InBufferIsHit(a, h, now);
    if !BufferHit(h.sector, h.bufferInit, a.sector, a.writing, now) {
      var end := now + ComputeLatency(h.sector, h.bufferInit, a.sector, a.writing, now);
      ArrivesAfterSeek(h.sector, a.sector, now);
      SlowPathIsEarliest(h.sector, h.bufferInit, a.sector, a.writing, now, 0);
      hide ComputeLatency, BufferHit, InBuffer, OnTrack, Arrives, SeekTicks;
      assert PassesInSlot(a.sector, end / ROTATION_TIME - 1, now, end);
      assert PassesOnTrack(a, h, now, end);
      if PassesOnTrack(a, h, now, end - 1) {
        var k :| PassesInSlot(a.sector, k, now, end - 1) && OnTrack(h.sector, a.sector, now, k * ROTATION_TIME);
        SlowPathIsEarliest(h.sector, h.bufferInit, a.sector, a.writing, now, k);
        assert false;
      }
    }
  }

  /** The platter served a request, and the head went from where it was to where it is. */
  ghost predicate Served(a: Access, o: Outcome, h: Head, h': Head) {
    Moved(h, a.sector, o.start, h') && Buffering(h, o.start) && Physical(a, o, h)
  }

  /** One access from issue to completion interrupt. */
  method Perform(disk: Disk, a: Access, now: nat) returns (o: Outcome)
    requires disk.Valid(now) && !disk.active && a.sector < NUM_SECTORS
    modifies disk
    ensures disk.Valid(o.end) && !disk.active && o.start == now
    ensures Served(a, o, old(disk.Position()), disk.Position())
  {
    hide Physical, ComputeLatency, TimeAfter, SeekTicks;
    RequestIsPhysical(a, disk.Position(), now);
    var ticks := disk.Request(a.sector, a.writing, now);
    disk.Later(now, now + ticks);
    disk.HandleInterrupt(now + ticks);
    o := Outcome(now, now + ticks);
  }

  /** Any sequence of accesses to a fresh disk, each issued once the one before is done. The
      head goes from request to request as Moved says, from sector 0 on. */
  method Run(accesses: seq<Access>) returns (outcomes: seq<Outcome>, ghost heads: seq<Head>)
    requires forall i | 0 <= i < |accesses| :: accesses[i].sector < NUM_SECTORS
    ensures |outcomes| == |accesses| && |heads| == |accesses| + 1 && heads[0] == Head(0, 0, 0)
    ensures |accesses| > 0 ==> outcomes[0].start == 0
    ensures forall i {:trigger accesses[i]} | 0 <= i < |accesses| - 1 ::
              outcomes[i + 1].start == outcomes[i].end + accesses[i].rest
    ensures forall i {:trigger accesses[i]} | 0 <= i < |accesses| :: Served(accesses[i], outcomes[i], heads[i], heads[i + 1])
  {
    var disk := new Disk();
    var now: nat := 0;
    outcomes, heads := [], [disk.Position()];
    hide Physical, Moved, Buffering, Served, TimeAfter, SeekTicks;
    for k := 0 to |accesses|
      invariant disk.Valid(now) && !disk.active && fresh(disk) && |outcomes| == k && |heads| == k + 1
      invariant heads[0] == Head(0, 0, 0) && heads[k] == disk.Position()
      invariant now == (if k == 0 then 0 else outcomes[k - 1].end + accesses[k - 1].rest)
      invariant k > 0 ==> outcomes[0].start == 0
      invariant forall i {:trigger accesses[i]} | 0 <= i < k - 1 :: outcomes[i + 1].start == outcomes[i].end + accesses[i].rest
      invariant forall i {:trigger accesses[i]} | 0 <= i < k :: Served(accesses[i], outcomes[i], heads[i], heads[i + 1])
    {
      var o := Perform(disk, accesses[k], now);
      disk.Later(o.end, o.end + accesses[k].rest);
      now := o.end + accesses[k].rest;
      outcomes, heads := outcomes + [o], heads + [disk.Position()];
    }
  }
}
