/** Files held open while other files come and go (filesys/filesys.cc, openfile.cc). An open file
    has its own copy of the file header; this module says what it stands for, and when not. */
module Handles {
  import opened Words
  import opened Collections
  import opened DiskGeometry
  import opened Layout
  import opened BitMaps
  import opened Ownerships
  import opened FileHeaders
  import opened OpenFiles
  import opened Directories
  import opened Volumes
  import opened Accounting
  import opened FileSystems

  // ---------------------------------------------------------------- what keeps a handle good

  lemma CreateKeeps(d: Image, d': Image, j: int, created: CString, size: nat, h: Header, i: int, name: CString)
    requires CreatedIn(d, d', j, created, size) && Denotes(d, h, i, name)
    ensures Denotes(d', h, i, name)
  {
    hide Inv, Owners, Slots;
  }

  lemma RemoveKeeps(d: Image, d': Image, j: int, removed: CString, h: Header, i: int, name: CString)
    requires RemovedFrom(d, d', j, removed) && Denotes(d, h, i, name) && name != removed
    ensures Denotes(d', h, i, name)
  {
    hide Inv, Owners, Slots;
  }

  /** A write through one handle keeps all of them. */
  lemma WriteKeeps(d: Image, d': Image, g: Header, j: int, written: CString, h: Header, i: int, name: CString)
    requires Denotes(d, g, j, written) && SameOutside(d, d', g.Blocks()) && Denotes(d, h, i, name)
    ensures Denotes(d', h, i, name)
  {
    WriteDone(d, d', g, j, written);
    hide Inv, Owners, Slots, Files, Contents, SameOutside;
  }

  /** Removing the file ends it: the handle then stands for no file at all, unless the file had no
      data sectors in the first place. */
  lemma RemoveEnds(d: Image, d': Image, h: Header, i: int, j: int, name: CString, k: int, other: CString)
    requires Denotes(d, h, i, name) && RemovedFrom(d, d', j, name) && h.Blocks() != []
    ensures !Denotes(d', h, k, other)
  {
    var own, s := Owners(d), h.Blocks()[0];
    assert i == j by { assert DistinctSlots(Slots(d)); }
    BlocksAreOwned(d, h, i, name, s);
    assert forall n | 0 <= n < |own| && n != i + 2 :: s !in own[n] by { assert Partition(own, Bits(d)); }
    assert forall n | 0 <= n < |own| :: s !in Owners(d')[n];
    hide RemovedFrom;
    if Denotes(d', h, k, other) {
      BlocksAreOwned(d', h, k, other, s);
    }
  }

  lemma BlocksAreOwned(d: Image, h: Header, i: int, name: CString, s: int)
    requires Denotes(d, h, i, name) && s in h.Blocks()
    ensures s in Owners(d)[i + 2]
  {
    var mine := Owners(d)[i + 2];
    hide Partition, DistinctSlots, Slots, Owners;
    assert mine[1..] == h.Blocks() && forall x | x in mine[1..] :: x in mine;
  }

  // ---------------------------------------------------------------- what a stale handle can hit

  /** The sectors of the bitmap and of the directory. No file is ever given one of them. */
  ghost predicate AvoidsSystem(d: Image, blocks: seq<int>)
    requires Inv(d)
  {
    forall s | s in blocks :: s !in Owners(d)[0] && s !in Owners(d)[1]
  }

  /** No header of a file in the directory is among the sectors. */
  ghost predicate AvoidsHeaders(d: Image, blocks: seq<int>)
    requires Inv(d)
  {
    forall i | 0 <= i < NUM_DIR_ENTRIES && Table(d)[i].inUse :: Table(d)[i].sector !in blocks
  }

  lemma DenotedAvoidsSystem(d: Image, h: Header, i: int, name: CString)
    requires Denotes(d, h, i, name)
    ensures AvoidsSystem(d, h.Blocks())
  {
    var own := Owners(d);
    assert Partition(own, Bits(d));
    forall s | s in h.Blocks() ensures s !in own[0] && s !in own[1] {
      BlocksAreOwned(d, h, i, name, s);
    }
  }

  lemma SystemKept(d: Image, d': Image, blocks: seq<int>)
    requires Inv(d) && SameOutside(d, d', blocks) && AvoidsSystem(d, blocks)
    ensures Bootable(d') && MapHeader(d') == MapHeader(d) && DirHeader(d') == DirHeader(d)
    ensures Table(d') == Table(d) && Bits(d') == Bits(d)
  {
    hide Partition, DistinctSlots, BitsOf, DecodeTable, Contents, Slots;
    OwnedSectors(d);
    assert FREE_MAP_SECTOR in Owners(d)[0] && DIRECTORY_SECTOR in Owners(d)[1];
    assert forall s | s in MapHeader(d).Blocks() :: s in Owners(d)[0];
    assert forall s | s in DirHeader(d).Blocks() :: s in Owners(d)[1];
    assert MapHeader(d') == MapHeader(d) && DirHeader(d') == DirHeader(d);
    hide Owners;
    ContentsFrame(d, d', MapHeader(d), blocks);
    ContentsFrame(d, d', DirHeader(d), blocks);
  }

  lemma HeadersKept(d: Image, d': Image, blocks: seq<int>)
    requires Inv(d) && SameOutside(d, d', blocks) && AvoidsHeaders(d, blocks)
    requires Bootable(d') && Table(d') == Table(d) && MapHeader(d') == MapHeader(d) && DirHeader(d') == DirHeader(d)
    ensures Readable(d') && Owners(d') == Owners(d)
    ensures forall i | 0 <= i < NUM_DIR_ENTRIES && Table(d)[i].inUse :: HeaderOf(d', Table(d)[i]) == HeaderOf(d, Table(d)[i])
  {
    hide Partition, DistinctSlots, Table, MapHeader, DirHeader, Slots, Bits;
    forall i | 0 <= i < NUM_DIR_ENTRIES && Table(d)[i].inUse
      ensures ReadableEntry(d', Table(d)[i]) && HeaderOf(d', Table(d)[i]) == HeaderOf(d, Table(d)[i])
    {
      assert ReadableEntry(d, Table(d)[i]);
    }
    assert Readable(d');
    OwnedSectors(d);
    OwnedSectors(d');
  }

  /** Whatever is written to data sectors, the bitmap, the directory, the headers and the owner of
      every sector stay; a file can change only if one of its own data sectors was written. */
  lemma DataWriteViews(d: Image, d': Image, blocks: seq<int>)
    requires Inv(d) && SameOutside(d, d', blocks) && AvoidsSystem(d, blocks) && AvoidsHeaders(d, blocks)
    ensures Readable(d') && Bits(d') == Bits(d) && Table(d') == Table(d) && Owners(d') == Owners(d)
    ensures forall i | 0 <= i < NUM_DIR_ENTRIES ::
              && (Slots(d)[i].Vacant? <==> Slots(d')[i].Vacant?)
              && (Slots(d)[i].Taken? ==> Slots(d')[i].name == Slots(d)[i].name && |Slots(d')[i].body| == |Slots(d)[i].body|)
              && (Avoids(Owners(d)[i + 2], blocks) ==> Slots(d')[i] == Slots(d)[i])
  {
    SystemKept(d, d', blocks);
    HeadersKept(d, d', blocks);
    hide Partition, DistinctSlots, Table, MapHeader, DirHeader, Bits, Contents, NameOf, AvoidsSystem, AvoidsHeaders;
    OwnedSectors(d);
    hide Owners;
    forall i | 0 <= i < NUM_DIR_ENTRIES && Table(d)[i].inUse && Avoids(Owners(d)[i + 2], blocks)
      ensures Slots(d')[i] == Slots(d)[i]
    {
      EntryFrame(d, d', Table(d)[i], blocks);
    }
  }

  lemma DataWriteKeepsInv(d: Image, d': Image, blocks: seq<int>)
    requires Inv(d) && SameOutside(d, d', blocks) && AvoidsSystem(d, blocks) && AvoidsHeaders(d, blocks)
    ensures Inv(d')
  {
    DataWriteViews(d, d', blocks);
    hide Partition, Owners, Bits, Slots, Readable;
  }

  /** A sector that is no header. */
  function Garbage(): (s: Sector)
    ensures !DecodeHeader(s).Valid()
  {
    var h := Header(-1, 0, seq(NUM_DIRECT, _ => 0));
    HeaderRoundTrip(h);
    EncodeHeader(h)
  }

  /** What WriteAt may make of the disk: n bytes of src, clipped to the file, replace those of the
      file from position on, and only data sectors of the file change. The bytes that lie after
      the end of the file in its last sector may get any value: they come from a buffer that
      was never filled. */
  ghost predicate WriteOutcome(d: Image, d': Image, h: Header, src: seq<byte>, numBytes: int, position: nat, n: nat)
    requires h.Valid()
  {
    && n == Clip(numBytes, position, h.numBytes) && n <= |src| && SameOutside(d, d', h.Blocks())
    && Contents(d', h) == (if n > 0 then Splice(Contents(d, h), position, src[..n]) else Contents(d, h))
    && (n == 0 ==> d' == d)
  }

  /** Whatever changes in the data sectors of a file, some write can have done it. */
  lemma EveryChangeIsAWrite(d: Image, d': Image, h: Header)
    requires h.Valid()
    ensures SameOutside(d, d', h.Blocks()) <==>
              exists src, numBytes, position, n :: WriteOutcome(d, d', h, src, numBytes, position, n)
  {
    if SameOutside(d, d', h.Blocks()) {
      var src := Contents(d', h);
      if h.numBytes == 0 {
        assert h.Blocks() == [] && d' == d;
        assert WriteOutcome(d, d', h, [], 0, 0, 0);
      } else {
        assert src[..h.numBytes] == src && Splice(Contents(d, h), 0, src) == src;
        assert WriteOutcome(d, d', h, src, h.numBytes, 0, h.numBytes);
      }
    }
  }

  /** No write through a handle whose file is gone can harm the file system, whatever is written
      and wherever, if and only if none of its sectors has become the header of another file. */
  lemma StaleWriteIsSafeIff(d: Image, h: Header)
    requires Inv(d) && h.Valid() && AvoidsSystem(d, h.Blocks())
    ensures (forall d', src, numBytes, position, n | WriteOutcome(d, d', h, src, numBytes, position, n) :: Inv(d'))
            <==> AvoidsHeaders(d, h.Blocks())
  {
    hide Inv, AvoidsHeaders, AvoidsSystem, SameOutside, WriteOutcome;
    if AvoidsHeaders(d, h.Blocks()) {
      forall d', src, numBytes, position, n | WriteOutcome(d, d', h, src, numBytes, position, n) ensures Inv(d') {
        EveryChangeIsAWrite(d, d', h);
        DataWriteKeepsInv(d, d', h.Blocks());
      }
    } else {
      var d' := StaleWriteCanHarm(d, h.Blocks());
      EveryChangeIsAWrite(d, d', h);
    }
  }

  lemma StaleWriteCanHarm(d: Image, blocks: seq<int>) returns (d': Image)
    requires Inv(d) && !AvoidsHeaders(d, blocks)
    ensures SameOutside(d, d', blocks) && !Inv(d')
  {
    var i := HeaderHit(d, blocks);
    hide Inv, AvoidsHeaders, Garbage;
    d' := d[Table(d)[i].sector := Garbage()];
    hide Table;
    HeaderLost(d, d', i);
  }

  lemma HeaderHit(d: Image, blocks: seq<int>) returns (i: nat)
    requires Inv(d) && !AvoidsHeaders(d, blocks)
    ensures i < NUM_DIR_ENTRIES && Table(d)[i].inUse && Table(d)[i].sector in blocks
    ensures 0 <= Table(d)[i].sector < NUM_SECTORS
  {
    i :| 0 <= i < NUM_DIR_ENTRIES && Table(d)[i].inUse && Table(d)[i].sector in blocks;
    assert ReadableEntry(d, Table(d)[i]);
  }

  lemma HeaderLost(d: Image, d': Image, i: nat)
    requires Inv(d) && i < NUM_DIR_ENTRIES && Table(d)[i].inUse && d' == d[Table(d)[i].sector := Garbage()]
    ensures !Inv(d')
  {
    hide BitsOf, DecodeTable, Contents, NameOf, Garbage, DistinctSlots;
    var s := Table(d)[i].sector;
    OwnedSectors(d);
    var own := Owners(d);
    assert s in own[i + 2];
    assert FREE_MAP_SECTOR in own[0] && DIRECTORY_SECTOR in own[1];
    assert s !in own[0] && s !in own[1];
    assert s != FREE_MAP_SECTOR && s != DIRECTORY_SECTOR && s !in DirHeader(d).Blocks();
    assert DirHeader(d') == DirHeader(d);
    ContentsFrame(d, d', DirHeader(d), [s as int]);
    assert Bootable(d') ==> Table(d') == Table(d);
    assert !ReadableEntry(d', Table(d)[i]);
  }

  /** Until a new file takes one of its sectors, it hits nothing at all. */
  lemma FreeSectorsHitNothing(d: Image, d': Image, blocks: seq<int>)
    requires Inv(d) && SameOutside(d, d', blocks) && forall s | s in blocks :: 0 <= s < NUM_SECTORS && !Bits(d)[s]
    ensures Inv(d') && Files(d') == Files(d) && Bits(d') == Bits(d)
  {
    var own := Owners(d);
    OwnedSectors(d);
    forall k, s | 0 <= k < |own| && s in own[k] ensures s !in blocks { assert HasOwner(own, s); }
    forall i | 0 <= i < NUM_DIR_ENTRIES && Table(d)[i].inUse ensures Table(d)[i].sector !in blocks {
      assert Table(d)[i].sector in own[i + 2];
    }
    assert forall k | 0 <= k < |own| :: Avoids(own[k], blocks);
    hide Partition, Owners, Bits, Readable, Files;
    DataWriteKeepsInv(d, d', blocks);
    DataWriteViews(d, d', blocks);
    assert Slots(d') == Slots(d);
  }

  // ---------------------------------------------------------------- which file has which sectors

  type Sectors = map<CString, seq<int>>

  ghost function SectorMap(t: seq<Slot>, own: Ownership): (m: Sectors)
    requires DistinctSlots(t) && |own| == |t| + 2
  {
    map i | 0 <= i < |t| && t[i].Taken? :: t[i].name := own[i + 2]
  }

  /** The sectors of each file, its header first. */
  ghost function SectorsOf(d: Image): (m: Sectors)
    requires Inv(d)
  {
    SectorMap(Slots(d), Owners(d))
  }

  lemma SectorMapPut(t: seq<Slot>, own: Ownership, i: nat, c: Slot, mine: seq<int>)
    requires i < |t| && DistinctSlots(t) && DistinctSlots(t[i := c]) && |own| == |t| + 2 && t[i].Vacant? && c.Taken?
    ensures SectorMap(t[i := c], own[i + 2 := mine]) == SectorMap(t, own)[c.name := mine]
  {
    var t' := t[i := c];
    assert forall j | 0 <= j < |t| && j != i :: t'[j] == t[j];
    assert t'[i].Taken?;
  }

  lemma SectorMapDelete(t: seq<Slot>, own: Ownership, i: nat)
    requires i < |t| && DistinctSlots(t) && DistinctSlots(t[i := Vacant]) && |own| == |t| + 2 && t[i].Taken?
    ensures SectorMap(t[i := Vacant], own[i + 2 := []]) == SectorMap(t, own) - {t[i].name}
  {
    var m, m' := SectorMap(t, own), SectorMap(t[i := Vacant], own[i + 2 := []]);
    hide SectorMap, DistinctSlots;
    forall n | n in m && n != t[i].name ensures n in m' && m'[n] == m[n] {
      SectorsKept(t, own, i, n);
    }
    forall n | n in m' ensures n in m && n != t[i].name {
      SectorsWere(t, own, i, n);
    }
  }

  lemma SectorsKept(t: seq<Slot>, own: Ownership, i: nat, n: CString)
    requires i < |t| && DistinctSlots(t) && DistinctSlots(t[i := Vacant]) && |own| == |t| + 2 && t[i].Taken?
    requires n in SectorMap(t, own) && n != t[i].name
    ensures var m, m' := SectorMap(t, own), SectorMap(t[i := Vacant], own[i + 2 := []]); n in m' && m'[n] == m[n]
  {
    var t', own' := t[i := Vacant], own[i + 2 := []];
    var j :| 0 <= j < |t| && t[j].Taken? && t[j].name == n;
    assert t'[j] == t[j] && own'[j + 2] == own[j + 2];
    hide SectorMap, DistinctSlots;
    NamedSlot(t, own, j);
    NamedSlot(t', own', j);
  }

  lemma SectorsWere(t: seq<Slot>, own: Ownership, i: nat, n: CString)
    requires i < |t| && DistinctSlots(t) && DistinctSlots(t[i := Vacant]) && |own| == |t| + 2 && t[i].Taken?
    requires n in SectorMap(t[i := Vacant], own[i + 2 := []])
    ensures n in SectorMap(t, own) && n != t[i].name
  {
    var t' := t[i := Vacant];
    var j :| 0 <= j < |t| && t'[j].Taken? && t'[j].name == n;
    assert t'[j] == t[j] && j != i;
    NamedSlot(t, own, j);
    hide SectorMap;
  }

  lemma SectorMapSame(t: seq<Slot>, t': seq<Slot>, own: Ownership)
    requires |t'| == |t| && DistinctSlots(t) && DistinctSlots(t') && |own| == |t| + 2
    requires forall i | 0 <= i < |t| :: (t[i].Taken? <==> t'[i].Taken?) && (t[i].Taken? ==> t'[i].name == t[i].name)
    ensures SectorMap(t', own) == SectorMap(t, own)
  {
    forall n | n in SectorMap(t, own) ensures n in SectorMap(t', own) && SectorMap(t', own)[n] == SectorMap(t, own)[n] {
      var i :| 0 <= i < |t| && t[i].Taken? && t[i].name == n;
      assert t'[i].Taken? && t'[i].name == n;
    }
    forall n | n in SectorMap(t', own) ensures n in SectorMap(t, own) {
      var i :| 0 <= i < |t'| && t'[i].Taken? && t'[i].name == n;
      assert t[i].Taken? && t[i].name == n;
    }
  }

  /** No sector is among the headers of the files. */
  ghost predicate NoHeaderIn(m: Sectors, blocks: seq<int>) {
    forall n | n in m && m[n] != [] :: m[n][0] !in blocks
  }

  lemma HeadersSeen(d: Image, blocks: seq<int>)
    requires Inv(d)
    ensures NoHeaderIn(SectorsOf(d), blocks) <==> AvoidsHeaders(d, blocks)
  {
    EntryHeaders(d);
    assert DistinctSlots(Slots(d));
    var t, own, m := Slots(d), Owners(d), SectorsOf(d);
    hide Inv, Owners, Slots, Table, SectorsOf;
    forall i | 0 <= i < NUM_DIR_ENTRIES && Table(d)[i].inUse ensures t[i].name in m && m[t[i].name] == own[i + 2] {
      NamedSlot(t, own, i);
    }
    forall n | n in m ensures exists i :: 0 <= i < NUM_DIR_ENTRIES && Table(d)[i].inUse && t[i].name == n {
      var i :| 0 <= i < |t| && t[i].Taken? && t[i].name == n;
      assert Table(d)[i].inUse;
    }
    hide SectorMap, DistinctSlots;
  }

  /** Each entry in use is a taken slot, whose first sector is its header. */
  lemma EntryHeaders(d: Image)
    requires Inv(d)
    ensures forall i | 0 <= i < NUM_DIR_ENTRIES ::
              && (Table(d)[i].inUse <==> Slots(d)[i].Taken?)
              && (Table(d)[i].inUse ==> Owners(d)[i + 2] != [] && Owners(d)[i + 2][0] == Table(d)[i].sector)
  {
    hide Partition, DistinctSlots, Contents, NameOf, Bits, MapHeader, DirHeader, Table;
    OwnedSectors(d);
  }

  // ---------------------------------------------------------------- runs, as a plain map sees them

  type Listing = map<CString, seq<byte>>

  /** A file held open: the name it was opened under, the length and data sectors it had; not
      live once that name has been removed. */
  datatype Hold = Hold(name: CString, live: bool, length: nat, blocks: seq<int>)

  datatype Op =
    | Create(name: CString, size: int32)
    | Remove(name: CString)
    | Open(name: CString)
    | Write(k: nat, data: seq<byte>, position: int32)
    | Read(k: nat, numBytes: int32, position: int32)

  /** Success, the number of bytes transferred, and the bytes read. */
  datatype Result = Result(ok: bool, count: int, data: seq<byte>)

  /** The files, the sectors they occupy, and the files held open, in the order they were opened. */
  datatype State = State(files: Listing, sectors: Sectors, holds: seq<Hold>)

  function Dropped(hold: Hold, name: CString): (r: Hold) {
    hold.(live := hold.live && hold.name != name)
  }

  function DroppedAll(holds: seq<Hold>, name: CString): (r: seq<Hold>)
    ensures |r| == |holds| && forall k | 0 <= k < |r| :: r[k] == Dropped(holds[k], name)
  {
    seq(|holds|, k requires 0 <= k < |holds| => Dropped(holds[k], name))
  }

  /** What callers keep to: no file that overruns a header, no request that overruns an int, and
      no write through a file that was removed once one of its sectors is the header of another. */
  ghost predicate Legal(a: State, op: Op) {
    match op
    case Create(name, size) => SafeSize(a.files, Short(name), size)
    case Remove(_) => true
    case Open(_) => true
    case Write(k, data, position) =>
      && k < |a.holds| && 0 <= position && position + |data| < INT_LIMIT
      && (a.holds[k].live || NoHeaderIn(a.sectors, a.holds[k].blocks))
    case Read(k, numBytes, position) => k < |a.holds| && 0 <= position && position + numBytes < INT_LIMIT
  }

  /** The part of a file that a read asks for. */
  function Slice(body: seq<byte>, numBytes: int, position: nat): (r: seq<byte>)
    ensures |r| == Clip(numBytes, position, |body|)
  {
    if position < |body| && numBytes > 0 then body[position..position + Min(numBytes, |body| - position)] else []
  }

  /** Sectors for a new file: as many as it needs, none of them in use. */
  ghost predicate NewSectors(m: Sectors, mine: seq<int>, size: nat) {
    |mine| == 1 + SectorsFor(size) && NoDuplicates(mine) && forall n, x | n in m && x in mine :: x !in m[n]
  }

  /** A write through a file that is gone: no file is longer or shorter, and only files that now
      have one of its sectors change. */
  ghost predicate Strayed(a: State, a': State, blocks: seq<int>) {
    && a'.holds == a.holds && a'.sectors == a.sectors && a'.files.Keys == a.files.Keys
    && forall n | n in a.files ::
         && |a'.files[n]| == |a.files[n]|
         && (n in a.sectors && Avoids(a.sectors[n], blocks) ==> a'.files[n] == a.files[n])
  }

  /** One operation on a plain map from names to bytes, with its result. A new file holds
      whatever its sectors held before, and a read through a file that is gone returns whatever
      its sectors hold now. */
  ghost predicate Step(a: State, op: Op, r: Result, a': State) {
    Legal(a, op) &&
    match op
    case Create(name, size) =>
      && (r.ok <==> Short(name) !in a.files && Room(a.files, size)) && a'.holds == a.holds
      && (if r.ok then
            && Short(name) in a'.files && |a'.files[Short(name)]| == size
            && a'.files == a.files[Short(name) := a'.files[Short(name)]]
            && Short(name) in a'.sectors && NewSectors(a.sectors, a'.sectors[Short(name)], size)
            && a'.sectors == a.sectors[Short(name) := a'.sectors[Short(name)]]
          else a' == a)
    case Remove(name) =>
      && (r.ok <==> Short(name) in a.files)
      && a' == State(a.files - {Short(name)}, a.sectors - {Short(name)}, DroppedAll(a.holds, Short(name)))
    case Open(name) =>
      && (r.ok <==> Short(name) in a.files) && a'.files == a.files && a'.sectors == a.sectors
      && (if r.ok then
            && Short(name) in a.sectors && a.sectors[Short(name)] != []
            && a'.holds == a.holds + [Hold(Short(name), true, |a.files[Short(name)]|, a.sectors[Short(name)][1..])]
          else a'.holds == a.holds)
    case Write(k, data, position) =>
      && r.count == Clip(|data|, position, a.holds[k].length)
      && (if a.holds[k].live then
            && a'.holds == a.holds && a'.sectors == a.sectors
            && a.holds[k].name in a.files && |a.files[a.holds[k].name]| == a.holds[k].length
            && Written(a.files, a'.files, a.holds[k].name, data, |data|, position)
          else Strayed(a, a', a.holds[k].blocks))
    case Read(k, numBytes, position) =>
      && a' == a && r.count == |r.data| == Clip(numBytes, position, a.holds[k].length)
      && (a.holds[k].live ==>
            a.holds[k].name in a.files && r.data == Slice(a.files[a.holds[k].name], numBytes, position))
  }

  /** The run keeps to legal operations, however it comes out. */
  ghost predicate LegalRun(a: State, ops: seq<Op>)
    decreases |ops|
  {
    ops == [] || (Legal(a, ops[0]) && forall r, a' | Step(a, ops[0], r, a') :: LegalRun(a', ops[1..]))
  }

  lemma LegalNow(a: State, ops: seq<Op>)
    requires LegalRun(a, ops) && ops != []
    ensures Legal(a, ops[0])
  {
  }

  lemma LegalNext(a: State, ops: seq<Op>, r: Result, a': State)
    requires LegalRun(a, ops) && ops != [] && Step(a, ops[0], r, a')
    ensures LegalRun(a', ops[1..])
  {
  }

  // ---------------------------------------------------------------- the same with a disk

  /** What is known of a header in memory: its sectors were given to a file once, and as long as
      the file has not been removed they still are. */
  ghost predicate Kept(d: Image, h: Header, hold: Hold) {
    && Inv(d) && h.Valid() && h.numBytes == hold.length && h.Blocks() == hold.blocks
    && AvoidsSystem(d, h.Blocks()) && (hold.live ==> exists i :: Denotes(d, h, i, hold.name))
  }

  lemma KeptByOpen(d: Image, h: Header, i: int, name: CString)
    requires OpenedAt(d, h, i, name)
    ensures Kept(d, h, Hold(name, true, h.numBytes, h.Blocks()))
    ensures name in Files(d) && |Files(d)[name]| == h.numBytes
    ensures name in SectorsOf(d) && SectorsOf(d)[name] != [] && SectorsOf(d)[name][1..] == h.Blocks()
  {
    OpenedDenotes(d, h, i, name);
    DenotedAvoidsSystem(d, h, i, name);
    DenotesContents(d, h, i, name);
    hide Inv, Files, OpenedAt;
    assert Slots(d)[i].name in SectorsOf(d);
  }

  lemma CreatedSectors(d: Image, d': Image, j: int, name: CString, size: nat)
    requires CreatedIn(d, d', j, name, size)
    ensures name in SectorsOf(d') && SectorsOf(d') == SectorsOf(d)[name := SectorsOf(d')[name]]
    ensures NewSectors(SectorsOf(d), SectorsOf(d')[name], size)
  {
    hide Inv, Bootable, Readable, Slots, Owners, Bits, Files, FirstFit, DistinctSlots, Partition, SectorMap, NoDuplicates, Marked;
    DistinctParts(d);
    DistinctParts(d');
    OwnLength(d', j);
    var t, own, mine := Slots(d), Owners(d), Owners(d')[j + 2];
    SectorMapPut(t, own, j, Slots(d')[j], mine);
    OthersAvoid(t, own, j, mine, Bits(d'));
  }

  lemma DistinctParts(d: Image)
    requires Inv(d)
    ensures Bootable(d) && Readable(d) && DistinctSlots(Slots(d)) && Partition(Owners(d), Bits(d))
  {
  }

  lemma OthersAvoid(t: seq<Slot>, own: Ownership, j: nat, mine: seq<int>, bits: seq<bool>)
    requires j < |t| && DistinctSlots(t) && t[j].Vacant? && |own| == |t| + 2 && Partition(own[j + 2 := mine], bits)
    ensures NoDuplicates(mine) && forall n, x | n in SectorMap(t, own) && x in mine :: x !in SectorMap(t, own)[n]
  {
    var own' := own[j + 2 := mine];
    assert own'[j + 2] == mine;
    forall n, x | n in SectorMap(t, own) && x in mine ensures x !in SectorMap(t, own)[n] {
      var i :| 0 <= i < |t| && t[i].Taken? && t[i].name == n;
      assert own'[i + 2] == own[i + 2] && x in own'[j + 2];
    }
  }

  lemma OwnLength(d: Image, i: int)
    requires Inv(d) && 0 <= i < NUM_DIR_ENTRIES && Slots(d)[i].Taken?
    ensures |Owners(d)[i + 2]| == 1 + SectorsFor(|Slots(d)[i].body|)
  {
    hide Partition, DistinctSlots, NameOf;
    OwnedSectors(d);
  }

  lemma RemovedSectors(d: Image, d': Image, j: int, name: CString)
    requires RemovedFrom(d, d', j, name)
    ensures SectorsOf(d') == SectorsOf(d) - {name}
  {
    SectorMapDelete(Slots(d), Owners(d), j);
  }

  lemma KeptByCreate(d: Image, d': Image, j: int, name: CString, size: nat, h: Header, hold: Hold)
    requires CreatedIn(d, d', j, name, size) && Kept(d, h, hold)
    ensures Kept(d', h, hold)
  {
    assert Inv(d') && Owners(d')[0] == Owners(d)[0] && Owners(d')[1] == Owners(d)[1];
    if hold.live {
      var i :| Denotes(d, h, i, hold.name);
      CreateKeeps(d, d', j, name, size, h, i, hold.name);
    }
    hide Denotes, Slots, Owners, CreatedIn, Inv;
  }

  lemma KeptByRemove(d: Image, d': Image, j: int, name: CString, h: Header, hold: Hold)
    requires RemovedFrom(d, d', j, name) && Kept(d, h, hold)
    ensures Kept(d', h, Dropped(hold, name))
  {
    assert Inv(d') && Owners(d')[0] == Owners(d)[0] && Owners(d')[1] == Owners(d)[1];
    if hold.live && hold.name != name {
      var i :| Denotes(d, h, i, hold.name);
      RemoveKeeps(d, d', j, name, h, i, hold.name);
    }
    hide Denotes, Slots, Owners, RemovedFrom, Inv;
  }

  lemma DroppedIsKept(d: Image, h: Header, hold: Hold, name: CString)
    requires Kept(d, h, hold)
    ensures Kept(d, h, Dropped(hold, name))
  {
  }

  lemma KeptByWrite(d: Image, d': Image, g: Header, j: int, name: CString, h: Header, hold: Hold)
    requires Denotes(d, g, j, name) && SameOutside(d, d', g.Blocks()) && Kept(d, h, hold)
    ensures Kept(d', h, hold)
  {
    WriteDone(d, d', g, j, name);
    if hold.live {
      var i :| Denotes(d, h, i, hold.name);
      WriteKeeps(d, d', g, j, name, h, i, hold.name);
    }
    hide Denotes, Slots, Owners, Files, SameOutside, Contents;
  }

  lemma WrittenSectors(d: Image, d': Image, g: Header, j: int, name: CString)
    requires Denotes(d, g, j, name) && SameOutside(d, d', g.Blocks())
    ensures Inv(d') && SectorsOf(d') == SectorsOf(d)
  {
    WriteDone(d, d', g, j, name);
    assert Slots(d)[j].Taken? && Slots(d)[j].name == name && DistinctSlots(Slots(d)) && DistinctSlots(Slots(d'));
    hide Partition, DistinctSlots, Slots, Owners, Bits, Readable, Files, Contents, SameOutside, Denotes, SectorMap;
    RewrittenSectors(Slots(d), Owners(d), j, Contents(d', g));
  }

  lemma RewrittenSectors(t: seq<Slot>, own: Ownership, j: nat, body: seq<byte>)
    requires j < |t| && t[j].Taken? && |own| == |t| + 2
    requires DistinctSlots(t) && DistinctSlots(t[j := Taken(t[j].name, body)])
    ensures SectorMap(t[j := Taken(t[j].name, body)], own) == SectorMap(t, own)
  {
    hide SectorMap;
    SectorMapSame(t, t[j := Taken(t[j].name, body)], own);
  }

  /** A write through a file that is there, seen on the map. */
  lemma LiveWrite(d: Image, d': Image, h: Header, i: int, name: CString, data: seq<byte>, position: nat, n: nat)
    requires Denotes(d, h, i, name) && SameOutside(d, d', h.Blocks()) && n == Clip(|data|, position, h.numBytes)
    requires Contents(d', h) == if n > 0 then Splice(Contents(d, h), position, data[..n]) else Contents(d, h)
    ensures Inv(d') && MapHeader(d') == MapHeader(d) && DirHeader(d') == DirHeader(d) && SectorsOf(d') == SectorsOf(d)
    ensures name in Files(d) && |Files(d)[name]| == h.numBytes
    ensures Written(Files(d), Files(d'), name, data, |data|, position)
  {
    WriteDone(d, d', h, i, name);
    WrittenSectors(d, d', h, i, name);
    hide Inv, Files, Contents, Denotes, SameOutside, Splice, SectorsOf;
    WrittenIs(Files(d), Files(d'), name, data, |data|, position, n);
  }

  lemma SameNames(d: Image)
    requires Inv(d)
    ensures SectorsOf(d).Keys == Files(d).Keys
  {
    hide Partition, Owners, Readable, Bits;
  }

  /** A write through a file that is gone, seen on the map. */
  lemma StrayWrite(d: Image, d': Image, blocks: seq<int>, holds: seq<Hold>)
    requires Inv(d) && SameOutside(d, d', blocks) && AvoidsSystem(d, blocks) && AvoidsHeaders(d, blocks)
    ensures Inv(d') && MapHeader(d') == MapHeader(d) && DirHeader(d') == DirHeader(d)
    ensures Strayed(State(Files(d), SectorsOf(d), holds), State(Files(d'), SectorsOf(d'), holds), blocks)
  {
    SystemKept(d, d', blocks);
    DataWriteKeepsInv(d, d', blocks);
    DataWriteViews(d, d', blocks);
    hide Partition, Owners, Bits, Readable, Table, SameOutside, AvoidsSystem, AvoidsHeaders, MapHeader, DirHeader;
    SectorMapSame(Slots(d), Slots(d'), Owners(d));
    StrayedFiles(Slots(d), Slots(d'), Owners(d), blocks);
  }

  lemma StrayedFiles(t: seq<Slot>, t': seq<Slot>, own: Ownership, blocks: seq<int>)
    requires |t'| == |t| && DistinctSlots(t) && DistinctSlots(t') && |own| == |t| + 2
    requires forall i | 0 <= i < |t| ::
               && (t[i].Vacant? <==> t'[i].Vacant?)
               && (t[i].Taken? ==> t'[i].name == t[i].name && |t'[i].body| == |t[i].body|)
               && (Avoids(own[i + 2], blocks) ==> t'[i] == t[i])
    ensures FileMap(t').Keys == FileMap(t).Keys
    ensures forall n | n in FileMap(t) ::
              && |FileMap(t')[n]| == |FileMap(t)[n]|
              && n in SectorMap(t, own) && (Avoids(SectorMap(t, own)[n], blocks) ==> FileMap(t')[n] == FileMap(t)[n])
  {
    forall i | 0 <= i < |t| && t[i].Taken?
      ensures t'[i].Taken? && t'[i].name == t[i].name && t[i].name in FileMap(t) && t[i].name in FileMap(t')
      ensures FileMap(t)[t[i].name] == t[i].body && FileMap(t')[t[i].name] == t'[i].body
      ensures t[i].name in SectorMap(t, own) && SectorMap(t, own)[t[i].name] == own[i + 2]
    {
      NamedSlot(t, own, i);
      NamedSlot(t', own, i);
    }
    forall n | n in FileMap(t) ensures exists i :: 0 <= i < |t| && t[i].Taken? && t[i].name == n { var i := HasSlot(t, n); }
    forall n | n in FileMap(t') ensures n in FileMap(t) {
      var i := HasSlot(t', n);
      assert t[i].Taken? && t[i].name == n;
    }
    hide FileMap, SectorMap, DistinctSlots, Avoids;
  }

  lemma NamedSlot(t: seq<Slot>, own: Ownership, i: nat)
    requires i < |t| && t[i].Taken? && DistinctSlots(t) && |own| == |t| + 2
    ensures t[i].name in FileMap(t) && FileMap(t)[t[i].name] == t[i].body
    ensures t[i].name in SectorMap(t, own) && SectorMap(t, own)[t[i].name] == own[i + 2]
  {
  }

  lemma HasSlot(t: seq<Slot>, n: CString) returns (i: nat)
    requires DistinctSlots(t) && n in FileMap(t)
    ensures i < |t| && t[i].Taken? && t[i].name == n
  {
    i :| 0 <= i < |t| && t[i].Taken? && t[i].name == n;
  }

  lemma KeptByStrayWrite(d: Image, d': Image, blocks: seq<int>, h: Header, hold: Hold)
    requires SameOutside(d, d', blocks) && Kept(d, h, hold) && AvoidsSystem(d, blocks) && AvoidsHeaders(d, blocks)
    ensures Kept(d', h, hold)
  {
    DataWriteKeepsInv(d, d', blocks);
    DataWriteViews(d, d', blocks);
    if hold.live {
      var i :| Denotes(d, h, i, hold.name);
      assert Denotes(d', h, i, hold.name);
    }
    hide Slots, Owners, Inv, SameOutside, Denotes;
  }

  lemma KeptFacts(d: Image, h: Header, hold: Hold)
    requires Kept(d, h, hold)
    ensures Inv(d) && h.Valid() && h.numBytes == hold.length && h.Blocks() == hold.blocks && AvoidsSystem(d, h.Blocks())
  {
  }

  lemma KeptDenotes(d: Image, h: Header, hold: Hold) returns (i: int)
    requires Kept(d, h, hold) && hold.live
    ensures h.Valid() && Denotes(d, h, i, hold.name) && Inv(d)
    ensures hold.name in Files(d) && Files(d)[hold.name] == Contents(d, h)
  {
    i :| Denotes(d, h, i, hold.name);
    DenotesContents(d, h, i, hold.name);
  }

  /** A run of the map from a to z, with the states in between. */
  ghost predicate IsRun(a: State, ops: seq<Op>, results: seq<Result>, states: seq<State>, z: State) {
    && |results| == |ops| && |states| == |ops| + 1 && states[0] == a && states[|ops|] == z
    && forall i {:trigger ops[i]} | 0 <= i < |ops| :: Step(states[i], ops[i], results[i], states[i + 1])
  }

  lemma RunOfNone(a: State)
    ensures IsRun(a, [], [], [a], a)
  {
  }

  lemma RunOfMore(a: State, ops: seq<Op>, results: seq<Result>, states: seq<State>, y: State, op: Op, r: Result, z: State)
    requires IsRun(a, ops, results, states, y) && Step(y, op, r, z)
    ensures IsRun(a, ops + [op], results + [r], states + [z], z)
  {
    hide Step;
    var ops', results', states' := ops + [op], results + [r], states + [z];
    forall i {:trigger ops'[i]} | 0 <= i < |ops'| ensures Step(states'[i], ops'[i], results'[i], states'[i + 1]) {
      if i < |ops| { assert Step(states[i], ops[i], results[i], states[i + 1]); }
    }
  }

  /** A buffer filled by ReadAt holds the part of the file that was asked for. */
  lemma ReadIsSlice(body: seq<byte>, numBytes: int32, position: int32, n: int, blank: seq<byte>)
    requires 0 <= position && |blank| == if numBytes > 0 then numBytes else 0
    requires n == if position < |body| && numBytes > 0 then Min(numBytes, |body| - position) else 0
    ensures n <= |blank| && Splice(blank, 0, if n > 0 then body[position..position + n] else [])[..n] == Slice(body, numBytes, position)
  {
  }

  /** A read into a buffer of the size that is asked for. */
  method Fetch(file: OpenFile, numBytes: int32, position: int32) returns (data: seq<byte>)
    requires file.Valid() && 0 <= position && position + numBytes < INT_LIMIT
    ensures data == Slice(file.Bytes(), numBytes, position)
  {
    hide Contents, Slice;
    var into := new byte[if numBytes > 0 then numBytes else 0](_ => 0);
    ghost var blank := into[..];
    var n := file.ReadAt(into, 0, numBytes, position);
    ReadIsSlice(file.Bytes(), numBytes, position, n, blank);
    data := into[..n];
  }

  class Session {
    const fs: FileSystem
    var held: seq<OpenFile>
    ghost var holds: seq<Hold>

    ghost predicate Valid()
      reads this, fs.disk, fs.freeMapFile.hdr, fs.freeMapFile.hdr.dataSectors
      reads fs.directoryFile.hdr, fs.directoryFile.hdr.dataSectors
      reads set f | f in held :: f.hdr, set f | f in held :: f.hdr.dataSectors
    {
      && fs.Valid() && |held| == |holds|
      && (forall k | 0 <= k < |held| :: held[k].disk == fs.disk)
      && forall k | 0 <= k < |held| :: Kept(fs.disk.sectors, held[k].hdr.Value(), holds[k])
    }

    ghost function Abs(): (a: State)
      requires Inv(fs.disk.sectors)
      reads this, fs.disk
    {
      State(Files(fs.disk.sectors), SectorsOf(fs.disk.sectors), holds)
    }

    constructor (fs: FileSystem)
      requires fs.Valid()
      ensures Valid() && this.fs == fs && Abs() == State(Files(fs.disk.sectors), SectorsOf(fs.disk.sectors), [])
    {
      this.fs, held, holds := fs, [], [];
    }

    method Create(name: CString, size: int32) returns (r: Result)
      requires Valid() && Legal(Abs(), Op.Create(name, size))
      modifies fs.disk
      ensures Valid() && Step(old(Abs()), Op.Create(name, size), r, Abs())
    {
      hide Inv, Files, CreatedIn, Room, Kept, SectorsOf, NewSectors;
      ghost var d := fs.disk.sectors;
      var ok := fs.Create(name, size);
      r := Result(ok, 0, []);
      if ok {
        ghost var j :| CreatedIn(d, fs.disk.sectors, j, Short(name), size);
        forall k | 0 <= k < |held| ensures Kept(fs.disk.sectors, held[k].hdr.Value(), holds[k]) {
          KeptByCreate(d, fs.disk.sectors, j, Short(name), size, held[k].hdr.Value(), holds[k]);
        }
        CreateStep(d, fs.disk.sectors, j, name, size);
        CreatedSectors(d, fs.disk.sectors, j, Short(name), size);
      }
    }

    method Remove(name: CString) returns (r: Result)
      requires Valid()
      modifies this, fs.disk
      ensures Valid() && Step(old(Abs()), Op.Remove(name), r, Abs())
    {
      hide Inv, Files, RemovedFrom, Kept, Dropped, SectorsOf;
      ghost var d, before := fs.disk.sectors, holds;
      var ok := fs.Remove(name);
      r := Result(ok, 0, []);
      holds := DroppedAll(holds, Short(name));
      forall k | 0 <= k < |held| ensures Kept(fs.disk.sectors, held[k].hdr.Value(), holds[k]) {
        if ok {
          ghost var j :| RemovedFrom(d, fs.disk.sectors, j, Short(name));
          KeptByRemove(d, fs.disk.sectors, j, Short(name), held[k].hdr.Value(), before[k]);
        } else {
          DroppedIsKept(d, held[k].hdr.Value(), before[k], Short(name));
        }
      }
      if ok {
        ghost var j :| RemovedFrom(d, fs.disk.sectors, j, Short(name));
        RemovedFiles(d, fs.disk.sectors, j, Short(name));
        RemovedSectors(d, fs.disk.sectors, j, Short(name));
      } else {
        SameNames(d);
      }
    }

    method Open(name: CString) returns (r: Result)
      requires Valid()
      modifies this
      ensures Valid() && Step(old(Abs()), Op.Open(name), r, Abs())
    {
      hide Inv, Files, Kept, OpenedAt, SectorsOf;
      var file := fs.Open(name);
      r := Result(file != null, 0, []);
      if file != null {
        ghost var i :| OpenedAt(fs.disk.sectors, file.hdr.Value(), i, Short(name));
        KeptByOpen(fs.disk.sectors, file.hdr.Value(), i, Short(name));
        held, holds := held + [file], holds + [Hold(Short(name), true, file.hdr.numBytes, file.hdr.Value().Blocks())];
      }
    }

    method Write(k: nat, data: seq<byte>, position: int32) returns (r: Result)
      requires Valid() && Legal(Abs(), Op.Write(k, data, position))
      modifies fs.disk
      ensures Valid() && Step(old(Abs()), Op.Write(k, data, position), r, Abs())
    {
      hide Inv, Files, Denotes, Written, Contents, SectorsOf, AvoidsSystem, AvoidsHeaders, SameOutside, Strayed, NoHeaderIn, Splice, Kept;
      ghost var d, h := fs.disk.sectors, held[k].hdr.Value();
      KeptFacts(d, h, holds[k]);
      var from := FromSeq(data);
      var n := held[k].WriteAt(from, |data|, position);
      r := Result(true, n, []);
      assert n > 0 ==> from[..n] == data[..n];
      ghost var hold, d' := holds[k], fs.disk.sectors;
      if hold.live {
        ghost var i := KeptDenotes(d, h, hold);
        LiveWrite(d, d', h, i, hold.name, data, position, n);
        forall j | 0 <= j < |held| ensures Kept(d', held[j].hdr.Value(), holds[j]) {
          KeptByWrite(d, d', h, i, hold.name, held[j].hdr.Value(), holds[j]);
        }
      } else {
        HeadersSeen(d, h.Blocks());
        StrayWrite(d, d', h.Blocks(), holds);
        forall j | 0 <= j < |held| ensures Kept(d', held[j].hdr.Value(), holds[j]) {
          KeptByStrayWrite(d, d', h.Blocks(), held[j].hdr.Value(), holds[j]);
        }
      }
    }

    method Read(k: nat, numBytes: int32, position: int32) returns (r: Result)
      requires Valid() && Legal(Abs(), Op.Read(k, numBytes, position))
      ensures Valid() && Step(Abs(), Op.Read(k, numBytes, position), r, Abs())
    {
      hide Inv, Files, Denotes, Contents, Slice, SectorsOf, AvoidsSystem;
      if holds[k].live { ghost var i := KeptDenotes(fs.disk.sectors, held[k].hdr.Value(), holds[k]); }
      assert Kept(fs.disk.sectors, held[k].hdr.Value(), holds[k]);
      hide Kept;
      var data := Fetch(held[k], numBytes, position);
      r := Result(true, |data|, data);
    }

    /** Any run of operations, with files held open across them, refines the same run on a plain
        map: every result and every state in between is one that the map gives. */
    method Run(ops: seq<Op>) returns (results: seq<Result>, ghost states: seq<State>)
      requires Valid() && LegalRun(Abs(), ops)
      modifies this, fs.disk
      ensures Valid() && IsRun(old(Abs()), ops, results, states, Abs())
    {
      results, states := [], [Abs()];
      ghost var first := Abs();
      hide *;
      RunOfNone(first);
      for k := 0 to |ops|
        invariant Valid() && Inv(fs.disk.sectors) && LegalRun(Abs(), ops[k..])
        invariant IsRun(first, ops[..k], results, states, Abs())
      {
        assert ops[k..][0] == ops[k] && ops[k..][1..] == ops[k + 1..] && ops[..k + 1] == ops[..k] + [ops[k]];
        ghost var a := Abs();
        LegalNow(a, ops[k..]);
        var r := Perform(ops[k]);
        LegalNext(a, ops[k..], r, Abs());
        RunOfMore(first, ops[..k], results, states, a, ops[k], r, Abs());
        results, states := results + [r], states + [Abs()];
      }
      assert ops[..|ops|] == ops;
    }

    method Perform(op: Op) returns (r: Result)
      requires Valid() && Legal(Abs(), op)
      modifies this, fs.disk
      ensures Valid() && Inv(fs.disk.sectors) && Step(old(Abs()), op, r, Abs())
    {
      hide Step, Inv, Files, Kept;
      match op
      case Create(name, size) => r := Create(name, size);
      case Remove(name) => r := Remove(name);
      case Open(name) => r := Open(name);
      case Write(k, data, position) => r := Write(k, data, position);
      case Read(k, numBytes, position) => r := Read(k, numBytes, position);
    }

    /** What a handle of this session can do to the file system, live or not. */
    lemma HandleIsSafeIff(k: nat)
      requires Valid() && k < |held|
      ensures var d, h := fs.disk.sectors, held[k].hdr.Value();
        (forall d', src, numBytes, position, n | WriteOutcome(d, d', h, src, numBytes, position, n) :: Inv(d'))
        <==> AvoidsHeaders(d, h.Blocks())
    {
      StaleWriteIsSafeIff(fs.disk.sectors, held[k].hdr.Value());
    }
  }

  // ---------------------------------------------------------------- how it goes wrong

  lemma FirstClearIsUnique(bits: seq<bool>, s: int, t: int)
    requires FirstClear(bits, s) && FirstClear(bits, t)
    ensures s == t
  {
  }

  lemma OneMarked(bits: seq<bool>, s: int)
    requires 0 <= s < |bits|
    ensures Marked(bits, [s]) == bits[s := true]
  {
  }

  /** A file of one data sector comes and goes, then two empty files come: the header of the second
      is where the data of the first was. */
  lemma DataBecomesHeader(d: Image, d1: Image, d2: Image, d3: Image, d4: Image,
                          a: CString, b: CString, c: CString, ia: int, ra: int, ib: int, ic: int, h: Header)
    requires CreatedIn(d, d1, ia, a, SECTOR_SIZE) && Denotes(d1, h, ia, a) && RemovedFrom(d1, d2, ra, a)
    requires CreatedIn(d2, d3, ib, b, 0) && CreatedIn(d3, d4, ic, c, 0)
    ensures !AvoidsHeaders(d4, h.Blocks())
  {
    hide Inv, Files, CreatedIn, RemovedFrom, Denotes, Owners;
    CreateUndone(d, d1, d2, ia, ra, a, SECTOR_SIZE);
    var s, t := OneBlock(d, d1, ia, a, h);
    var sb := HeaderOnly(d2, d3, ib, b);
    FirstClearIsUnique(Bits(d), s, sb);
    OneMarked(Bits(d), s);
    var sc := HeaderOnly(d3, d4, ic, c);
    FirstClearIsUnique(Bits(d3), t, sc);
    hide Bits, Table, Marked;
    assert Table(d4)[ic].sector == t && t in h.Blocks();
  }

  /** A file of one sector takes the first clear sector for its header and the next for its data. */
  lemma OneBlock(d: Image, d': Image, i: int, name: CString, h: Header) returns (s: int, t: int)
    requires CreatedIn(d, d', i, name, SECTOR_SIZE) && Denotes(d', h, i, name)
    ensures Bootable(d) && FirstClear(Bits(d), s) && h.Blocks() == [t] && FirstClear(Bits(d)[s := true], t)
  {
    var own := Owners(d')[i + 2];
    assert own[1..] == h.Blocks() && FirstFit(Bits(d), own[0], own[1..]);
    FirstFitStarts(Bits(d), own[0], own[1..]);
    assert h.numBytes == SECTOR_SIZE && h.Valid();
    hide Denotes, CreatedIn, Inv, Bits, Owners;
    assert |h.Blocks()| == 1;
    s, t := own[0], own[1];
  }

  /** An empty file takes the first clear sector, for its header, and no other. */
  lemma HeaderOnly(d: Image, d': Image, i: int, name: CString) returns (s: int)
    requires CreatedIn(d, d', i, name, 0)
    ensures Inv(d') && Bootable(d) && Bootable(d') && FirstClear(Bits(d), s) && Bits(d') == Marked(Bits(d), [s])
    ensures 0 <= i < NUM_DIR_ENTRIES && Table(d')[i].inUse && Table(d')[i].sector == s
  {
    hide Partition, DistinctSlots;
    OwnedSectors(d');
    var own := Owners(d')[i + 2];
    s := own[0];
    assert |HeaderOf(d', Table(d')[i]).Blocks()| == 0;
    assert own == [s];
  }

  /** The kernel can get there: a file is opened, removed while it is open, and two more files are
      created. A write through the open file then overwrites the header of the last one. */
  method StaleHandle(fs: FileSystem, a: CString, b: CString, c: CString) returns (file: OpenFile)
    requires fs.Valid() && Short(a) !in Files(fs.disk.sectors) && Short(b) !in Files(fs.disk.sectors)
    requires Short(c) !in Files(fs.disk.sectors) && Short(b) != Short(c)
    requires Room(Files(fs.disk.sectors), SECTOR_SIZE) && |Files(fs.disk.sectors)| + 1 < NUM_DIR_ENTRIES
    modifies fs.disk
    ensures fs.Valid() && file.disk == fs.disk && file.Valid() && file.hdr.numBytes == SECTOR_SIZE
    ensures fresh(file) && fresh(file.hdr) && fresh(file.hdr.dataSectors)
    ensures !AvoidsHeaders(fs.disk.sectors, file.hdr.Value().Blocks())
  {
    hide CreatedIn, RemovedFrom, OpenedAt, Denotes, Inv, Files, Room;
    ghost var d := fs.disk.sectors;
    var _ := fs.Create(a, SECTOR_SIZE);
    ghost var d1 := fs.disk.sectors;
    ghost var ia :| CreatedIn(d, d1, ia, Short(a), SECTOR_SIZE);
    CreatedFiles(d, d1, ia, Short(a), SECTOR_SIZE);
    var found := fs.Open(a);
    file := found;
    ghost var io :| OpenedAt(d1, file.hdr.Value(), io, Short(a));
    OpenedDenotes(d1, file.hdr.Value(), io, Short(a));
    SameSlot(d1, d, file.hdr.Value(), io, ia, Short(a), SECTOR_SIZE);
    var _ := fs.Remove(a);
    ghost var d2 := fs.disk.sectors;
    ghost var ra :| RemovedFrom(d1, d2, ra, Short(a));
    CreateUndone(d, d1, d2, ia, ra, Short(a), SECTOR_SIZE);
    RoomForTwo(Files(d), Short(b));
    var _ := fs.Create(b, 0);
    ghost var d3 := fs.disk.sectors;
    ghost var ib :| CreatedIn(d2, d3, ib, Short(b), 0);
    CreatedFiles(d2, d3, ib, Short(b), 0);
    CreatedIsEmpty(d2, d3, ib, Short(b));
    var _ := fs.Create(c, 0);
    ghost var ic :| CreatedIn(d3, fs.disk.sectors, ic, Short(c), 0);
    DataBecomesHeader(d, d1, d2, d3, fs.disk.sectors, Short(a), Short(b), Short(c), ia, ra, ib, ic, file.hdr.Value());
  }

  /** The whole story: the write goes through, and the file system is no longer sound. */
  method StaleWrite(fs: FileSystem, a: CString, b: CString, c: CString) returns (n: int32)
    requires fs.Valid() && Short(a) !in Files(fs.disk.sectors) && Short(b) !in Files(fs.disk.sectors)
    requires Short(c) !in Files(fs.disk.sectors) && Short(b) != Short(c)
    requires Room(Files(fs.disk.sectors), SECTOR_SIZE) && |Files(fs.disk.sectors)| + 1 < NUM_DIR_ENTRIES
    modifies fs.disk
    ensures n == SECTOR_SIZE && !Inv(fs.disk.sectors)
  {
    hide Room, Files, Garbage, AvoidsHeaders, Contents, Splice;
    var file := StaleHandle(fs, a, b, c);
    ghost var d, h := fs.disk.sectors, file.hdr.Value();
    hide Inv, SameOutside;
    n := WriteGarbage(file);
    GarbageWritten(d, fs.disk.sectors, h);
  }

  method WriteGarbage(file: OpenFile) returns (n: int32)
    requires file.Valid() && file.hdr.numBytes == SECTOR_SIZE
    modifies file.disk
    ensures n == SECTOR_SIZE && file.Bytes() == Splice(old(file.Bytes()), 0, Garbage())
    ensures SameOutside(old(file.disk.sectors), file.disk.sectors, file.hdr.Value().Blocks())
  {
    hide Garbage, Contents, Splice, SameOutside;
    var from := FromSeq(Garbage());
    n := file.WriteAt(from, SECTOR_SIZE, 0);
    assert from[..n] == Garbage();
  }

  /** The header of a file is overwritten through a handle that has its sector for data. */
  lemma GarbageWritten(d: Image, d': Image, h: Header)
    requires Inv(d) && !AvoidsHeaders(d, h.Blocks()) && h.Valid() && h.numBytes == SECTOR_SIZE
    requires SameOutside(d, d', h.Blocks()) && Contents(d', h) == Splice(Contents(d, h), 0, Garbage())
    ensures !Inv(d')
  {
    hide Inv, AvoidsHeaders, Garbage, Contents, SameOutside, Splice;
    var i := HeaderHit(d, h.Blocks());
    SpliceAll(Contents(d, h), Garbage());
    OneSectorReplaced(d, d', h, Garbage());
    DistinctParts(d);
    hide Table, Readable;
    HeaderLost(d, d', i);
  }

  lemma SpliceAll(c: seq<byte>, src: seq<byte>)
    requires |src| == |c|
    ensures Splice(c, 0, src) == src
  {
  }

  lemma OneSectorReplaced(d: Image, d': Image, h: Header, g: Sector)
    requires h.Valid() && h.numBytes == SECTOR_SIZE && SameOutside(d, d', h.Blocks()) && Contents(d', h) == g
    ensures h.Blocks() == [h.data[0]] && d' == d[h.data[0] := g]
  {
    OneSector(d', h);
    hide Contents;
  }

  lemma OneSector(d: Image, h: Header)
    requires h.Valid() && h.numBytes == SECTOR_SIZE
    ensures d[h.data[0]] == Contents(d, h)
  {
    forall p | 0 <= p < SECTOR_SIZE ensures Contents(d, h)[p] == d[h.data[0]][p] {
      assert p / SECTOR_SIZE == 0 && p % SECTOR_SIZE == p;
    }
  }

  lemma SameSlot(d1: Image, d: Image, h: Header, io: int, ia: int, name: CString, size: nat)
    requires Denotes(d1, h, io, name) && CreatedIn(d, d1, ia, name, size)
    ensures io == ia && h.numBytes == size
  {
    assert DistinctSlots(Slots(d1));
  }

  lemma CreatedIsEmpty(d: Image, d': Image, i: int, name: CString)
    requires CreatedIn(d, d', i, name, 0)
    ensures Files(d') == Files(d)[name := []]
  {
    CreatedFiles(d, d', i, name, 0);
    hide Inv, Files;
  }

  /** Where there was room for a file of one sector and there are two slots, there is room for two
      empty ones. */
  lemma RoomForTwo(m: Listing, b: CString)
    requires Room(m, SECTOR_SIZE) && |m| + 1 < NUM_DIR_ENTRIES && b !in m
    ensures Room(m, 0) && Room(m[b := []], 0)
  {
    var m' := m[b := []];
    assert m' - {b} == m && |m'| == |m| + 1;
    FootprintRemove(m', b);
  }
}
