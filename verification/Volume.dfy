/** The state of a whole file system, read off the disk image alone: who owns which sector,
    what the on-disk bitmap says, and which files there are. */
module Volumes {
  import opened Words
  import opened Collections
  import opened DiskGeometry
  import opened Layout
  import opened BitMaps
  import opened Ownerships
  import opened FileHeaders
  import opened Directories

  const FREE_MAP_SECTOR := 0
  const DIRECTORY_SECTOR := 1
  const FREE_MAP_FILE_SIZE := 128
  const DIRECTORY_FILE_SIZE := ENTRY_SIZE * NUM_DIR_ENTRIES

  // ---------------------------------------------------------------- reading the image

  ghost function MapHeader(d: Image): (h: Header) { DecodeHeader(d[FREE_MAP_SECTOR]) }

  ghost function DirHeader(d: Image): (h: Header) { DecodeHeader(d[DIRECTORY_SECTOR]) }

  /** The bitmap file and the directory file are there, with the sizes they were formatted to. */
  ghost predicate Bootable(d: Image) {
    && MapHeader(d).Valid() && MapHeader(d).numBytes == FREE_MAP_FILE_SIZE
    && DirHeader(d).Valid() && DirHeader(d).numBytes == DIRECTORY_FILE_SIZE
  }

  ghost function Bits(d: Image): (bits: seq<bool>)
    requires Bootable(d)
    ensures |bits| == NUM_SECTORS
  {
    BitsOf(BytesToWords(Contents(d, MapHeader(d))), NUM_SECTORS)
  }

  ghost function Table(d: Image): (t: seq<Entry>)
    requires Bootable(d)
    ensures |t| == NUM_DIR_ENTRIES && ValidTable(t)
  {
    DecodeTable(Contents(d, DirHeader(d)))
  }

  /** Every entry in use names the header sector of a well-formed file. */
  ghost predicate Readable(d: Image) {
    Bootable(d) && forall i | 0 <= i < NUM_DIR_ENTRIES && Table(d)[i].inUse :: ReadableEntry(d, Table(d)[i])
  }

  ghost predicate ReadableEntry(d: Image, e: Entry) {
    0 <= e.sector < NUM_SECTORS && HeaderOf(d, e).Valid()
  }

  ghost function HeaderOf(d: Image, e: Entry): (h: Header)
    requires 0 <= e.sector < NUM_SECTORS
  {
    DecodeHeader(d[e.sector])
  }

  const NUM_OWNERS := NUM_DIR_ENTRIES + 2

  ghost function EntrySectors(d: Image, e: Entry): (s: seq<int>)
    requires e.inUse ==> ReadableEntry(d, e)
  {
    if e.inUse then [e.sector as int] + HeaderOf(d, e).Blocks() else []
  }

  /** Owner 0 is the bitmap file, owner 1 the directory file, owner i+2 directory entry i. */
  ghost function Owners(d: Image): (own: Ownership)
    requires Readable(d)
    ensures |own| == NUM_OWNERS
  {
    [[FREE_MAP_SECTOR] + MapHeader(d).Blocks(), [DIRECTORY_SECTOR] + DirHeader(d).Blocks()]
    + seq(NUM_DIR_ENTRIES, i requires 0 <= i < NUM_DIR_ENTRIES => EntrySectors(d, Table(d)[i]))
  }

  /** The file system invariant. */
  ghost predicate Inv(d: Image) {
    Readable(d) && Partition(Owners(d), Bits(d)) && DistinctSlots(Slots(d))
  }

  /** A directory slot, seen from outside. */
  datatype Slot = Vacant | Taken(name: CString, body: seq<byte>)

  ghost predicate DistinctSlots(t: seq<Slot>) {
    forall i, j | 0 <= i < |t| && 0 <= j < |t| && i != j && t[i].Taken? && t[j].Taken? :: t[i].name != t[j].name
  }

  ghost function FileMap(t: seq<Slot>): (m: map<CString, seq<byte>>)
    requires DistinctSlots(t)
  {
    map i | 0 <= i < |t| && t[i].Taken? :: t[i].name := t[i].body
  }

  ghost function SlotOf(d: Image, e: Entry): (c: Slot)
    requires e.inUse ==> ReadableEntry(d, e)
  {
    if e.inUse then Taken(NameOf(e), Contents(d, HeaderOf(d, e))) else Vacant
  }

  ghost function Slots(d: Image): (c: seq<Slot>)
    requires Readable(d)
    ensures |c| == NUM_DIR_ENTRIES
    ensures forall i | 0 <= i < NUM_DIR_ENTRIES :: c[i] == SlotOf(d, Table(d)[i])
  {
    seq(NUM_DIR_ENTRIES, i requires 0 <= i < NUM_DIR_ENTRIES => SlotOf(d, Table(d)[i]))
  }

  /** What the file system means: a finite map from short names to byte strings. */
  ghost function Files(d: Image): (m: map<CString, seq<byte>>)
    requires Inv(d)
  {
    FileMap(Slots(d))
  }

  /** Filling a vacant slot, or rewriting a taken one under its name, updates the map. */
  lemma FileMapPut(t: seq<Slot>, i: nat, name: CString, body: seq<byte>)
    requires i < |t| && DistinctSlots(t) && DistinctSlots(t[i := Taken(name, body)])
    requires t[i].Taken? ==> t[i].name == name
    ensures FileMap(t[i := Taken(name, body)]) == FileMap(t)[name := body]
  {
    var t' := t[i := Taken(name, body)];
    assert forall j | 0 <= j < |t| && j != i :: t'[j] == t[j];
    assert t'[i].Taken?;
  }

  lemma FileMapDelete(t: seq<Slot>, i: nat)
    requires i < |t| && DistinctSlots(t) && t[i].Taken?
    ensures DistinctSlots(t[i := Vacant]) && FileMap(t[i := Vacant]) == FileMap(t) - {t[i].name}
  {
    var t', n := t[i := Vacant], t[i].name;
    assert forall j | 0 <= j < |t| :: t'[j] == if j == i then Vacant else t[j];
    assert DistinctSlots(t');
    forall m | m in FileMap(t) && m != n ensures m in FileMap(t') && FileMap(t')[m] == FileMap(t)[m] {
      var j :| 0 <= j < |t| && t[j].Taken? && t[j].name == m;
      assert t'[j] == t[j];
    }
    forall m | m in FileMap(t') ensures m in FileMap(t) && m != n {
      var j :| 0 <= j < |t| && t'[j].Taken? && t'[j].name == m;
      assert t'[j] == t[j];
    }
    hide FileMap, DistinctSlots;
  }

  // ---------------------------------------------------------------- what a write leaves alone

  lemma OwnedSectors(d: Image)
    requires Readable(d)
    ensures Owners(d)[0] == [FREE_MAP_SECTOR] + MapHeader(d).Blocks()
    ensures Owners(d)[1] == [DIRECTORY_SECTOR] + DirHeader(d).Blocks()
    ensures forall i | 0 <= i < NUM_DIR_ENTRIES :: Owners(d)[i + 2] == EntrySectors(d, Table(d)[i])
  {
  }

  ghost predicate Avoids(s: seq<int>, touched: seq<int>) {
    forall x | x in s :: x !in touched
  }

  /** A write that avoids an entry's sectors leaves its header and its bytes alone. */
  lemma EntryFrame(d: Image, d': Image, e: Entry, touched: seq<int>)
    requires e.inUse && ReadableEntry(d, e) && SameOutside(d, d', touched)
    requires Avoids(EntrySectors(d, e), touched)
    ensures ReadableEntry(d', e) && HeaderOf(d', e) == HeaderOf(d, e)
    ensures EntrySectors(d', e) == EntrySectors(d, e)
    ensures Contents(d', HeaderOf(d', e)) == Contents(d, HeaderOf(d, e))
  {
    assert e.sector in EntrySectors(d, e);
    ContentsFrame(d, d', HeaderOf(d, e), touched);
  }

  ghost function SystemBlocks(d: Image): (s: seq<int>) {
    MapHeader(d).Blocks() + DirHeader(d).Blocks()
  }

  /** Writing the bitmap file, the directory file and free sectors touches no file. */
  lemma SystemWriteFrame(d: Image, d': Image, spare: seq<int>)
    requires Inv(d) && SameOutside(d, d', spare + SystemBlocks(d))
    requires forall s | s in spare :: 0 <= s < NUM_SECTORS && !Bits(d)[s]
    ensures Bootable(d') && MapHeader(d') == MapHeader(d) && DirHeader(d') == DirHeader(d)
    ensures forall i | 0 <= i < NUM_DIR_ENTRIES && Table(d)[i].inUse ::
              Avoids(EntrySectors(d, Table(d)[i]), spare + SystemBlocks(d))
  {
    OwnedSectors(d);
    var own := Owners(d);
    assert FREE_MAP_SECTOR in own[0] && DIRECTORY_SECTOR in own[1];
    assert HasOwner(own, FREE_MAP_SECTOR) && HasOwner(own, DIRECTORY_SECTOR);
    assert FREE_MAP_SECTOR !in MapHeader(d).Blocks() by { HeadNotInTail(FREE_MAP_SECTOR, MapHeader(d).Blocks()); }
    assert DIRECTORY_SECTOR !in DirHeader(d).Blocks() by { HeadNotInTail(DIRECTORY_SECTOR, DirHeader(d).Blocks()); }
    assert forall s | s in MapHeader(d).Blocks() :: s in own[0];
    assert forall s | s in DirHeader(d).Blocks() :: s in own[1];
    forall i, s | 0 <= i < NUM_DIR_ENTRIES && Table(d)[i].inUse && s in EntrySectors(d, Table(d)[i])
      ensures s !in spare + SystemBlocks(d)
    {
      assert s in own[i + 2];
      assert HasOwner(own, s);
    }
  }

  /** The image after a system write has the ownership and the files of the old one,
      changed in slot i only. */
  lemma SystemWriteEffect(d: Image, d': Image, spare: seq<int>, i: nat, e: Entry)
    requires Inv(d) && SameOutside(d, d', spare + SystemBlocks(d))
    requires forall s | s in spare :: 0 <= s < NUM_SECTORS && !Bits(d)[s]
    requires i < NUM_DIR_ENTRIES && (e.inUse ==> ReadableEntry(d', e))
    requires Bootable(d') && Table(d') == Table(d)[i := e]
    ensures Readable(d') && Owners(d') == Owners(d)[i + 2 := EntrySectors(d', e)]
    ensures Slots(d') == Slots(d)[i := SlotOf(d', e)]
  {
    hide Partition, DistinctSlots, Bits, Table, MapHeader, DirHeader, Contents, NameOf, SameOutside;
    SystemWriteFrame(d, d', spare);
    forall j | 0 <= j < NUM_DIR_ENTRIES && j != i && Table(d)[j].inUse
      ensures ReadableEntry(d', Table(d)[j]) && EntrySectors(d', Table(d)[j]) == EntrySectors(d, Table(d)[j])
      ensures SlotOf(d', Table(d)[j]) == SlotOf(d, Table(d)[j])
    {
      EntryFrame(d, d', Table(d)[j], spare + SystemBlocks(d));
    }
    OneSlotChanged(d, d', i, e);
  }

  /** When all entries but one read the same, so do all owners and slots but one. */
  lemma OneSlotChanged(d: Image, d': Image, i: nat, e: Entry)
    requires Readable(d) && Bootable(d') && MapHeader(d') == MapHeader(d) && DirHeader(d') == DirHeader(d)
    requires i < NUM_DIR_ENTRIES && (e.inUse ==> ReadableEntry(d', e)) && Table(d') == Table(d)[i := e]
    requires forall j | 0 <= j < NUM_DIR_ENTRIES && j != i && Table(d)[j].inUse ::
               && ReadableEntry(d', Table(d)[j]) && EntrySectors(d', Table(d)[j]) == EntrySectors(d, Table(d)[j])
               && SlotOf(d', Table(d)[j]) == SlotOf(d, Table(d)[j])
    ensures Readable(d') && Owners(d') == Owners(d)[i + 2 := EntrySectors(d', e)]
    ensures Slots(d') == Slots(d)[i := SlotOf(d', e)]
  {
    hide Table, MapHeader, DirHeader, ReadableEntry, HeaderOf;
    forall j | 0 <= j < NUM_DIR_ENTRIES && Table(d')[j].inUse ensures ReadableEntry(d', Table(d')[j]) {
      assert j != i ==> Table(d')[j] == Table(d)[j];
    }
    assert Readable(d');
    OwnedSectors(d);
    OwnedSectors(d');
    var own, own' := Owners(d), Owners(d');
    hide Owners;
    forall k | 0 <= k < NUM_OWNERS ensures own'[k] == own[i + 2 := EntrySectors(d', e)][k] {
      if k >= 2 { assert own'[k - 2 + 2] == EntrySectors(d', Table(d')[k - 2]) && own[k - 2 + 2] == EntrySectors(d, Table(d)[k - 2]); }
    }
  }

  /** Create: slot i, a free header sector and free data sectors become a file. */
  lemma CreateEffect(d: Image, d': Image, i: nat, e: Entry, h: Header)
    requires Inv(d) && i < NUM_DIR_ENTRIES && !Table(d)[i].inUse
    requires e.inUse && 0 <= e.sector < NUM_SECTORS && !Bits(d)[e.sector]
    requires h.Valid() && forall s | s in h.Blocks() :: !Marked(Bits(d), [e.sector])[s]
    requires NameOf(e) !in Files(d)
    requires SameOutside(d, d', [e.sector as int] + SystemBlocks(d))
    requires DecodeHeader(d'[e.sector]) == h
    requires Bootable(d') && Table(d') == Table(d)[i := e]
    requires Bits(d') == Marked(Bits(d), [e.sector as int] + h.Blocks())
    ensures Inv(d')
    ensures Owners(d') == Owners(d)[i + 2 := [e.sector as int] + h.Blocks()]
    ensures Slots(d') == Slots(d)[i := Taken(NameOf(e), Contents(d, h))]
    ensures Files(d') == Files(d)[NameOf(e) := Contents(d, h)]
  {
    hide Partition, DistinctSlots, Marked, DecodeTable, BitsOf, Contents, NameOf;
    SystemWriteEffect(d, d', [e.sector], i, e);
    NewFilePartition(d, i, e.sector, h);
    FreshBlocks(d, e.sector, h);
    ContentsFrame(d, d', h, [e.sector as int] + SystemBlocks(d));
    FreshNameStaysDistinct(Slots(d), i, NameOf(e), Contents(d, h));
    FileMapPut(Slots(d), i, NameOf(e), Contents(d, h));
  }

  lemma FreshNameStaysDistinct(t: seq<Slot>, i: nat, name: CString, body: seq<byte>)
    requires i < |t| && DistinctSlots(t) && name !in FileMap(t)
    ensures DistinctSlots(t[i := Taken(name, body)])
  {
    forall j | 0 <= j < |t| && t[j].Taken? ensures t[j].name != name {
      assert t[j].name in FileMap(t);
    }
  }

  lemma NewFilePartition(d: Image, i: nat, sector: int, h: Header)
    requires Inv(d) && i < NUM_DIR_ENTRIES && !Table(d)[i].inUse
    requires 0 <= sector < NUM_SECTORS && !Bits(d)[sector]
    requires h.Valid() && forall s | s in h.Blocks() :: !Marked(Bits(d), [sector])[s]
    ensures Partition(Owners(d)[i + 2 := [sector] + h.Blocks()], Marked(Bits(d), [sector] + h.Blocks()))
  {
    var got, bits := [sector] + h.Blocks(), Bits(d);
    OwnedSectors(d);
    forall s | s in h.Blocks() ensures s != sector && 0 <= s < NUM_SECTORS && !bits[s] {
      assert !Marked(bits, [sector])[s];
    }
    ConsNoDuplicates(sector, h.Blocks());
    PartitionGrow(Owners(d), Bits(d), i + 2, got);
  }

  lemma FreshBlocks(d: Image, sector: int, h: Header)
    requires Inv(d) && h.Valid() && forall s | s in h.Blocks() :: !Marked(Bits(d), [sector])[s]
    ensures Avoids(h.Blocks(), [sector] + SystemBlocks(d))
  {
    OwnedSectors(d);
    assert forall s | s in MapHeader(d).Blocks() :: s in Owners(d)[0] && HasOwner(Owners(d), s);
    assert forall s | s in DirHeader(d).Blocks() :: s in Owners(d)[1] && HasOwner(Owners(d), s);
  }

  /** d' is d after the bitmap and the directory have been rewritten without slot i. */
  ghost predicate SlotDropped(d: Image, d': Image, i: nat)
    requires Inv(d) && i < NUM_DIR_ENTRIES
  {
    && SameOutside(d, d', SystemBlocks(d)) && Bootable(d')
    && Table(d') == Table(d)[i := Table(d)[i].(inUse := false)]
    && Bits(d') == Cleared(Bits(d), EntrySectors(d, Table(d)[i]))
  }

  lemma SlotDroppedViews(d: Image, d': Image, i: nat)
    requires Inv(d) && i < NUM_DIR_ENTRIES && SlotDropped(d, d', i)
    ensures Readable(d') && Owners(d') == Owners(d)[i + 2 := []] && Slots(d') == Slots(d)[i := Vacant]
    ensures Bits(d') == Cleared(Bits(d), Owners(d)[i + 2])
  {
    hide Partition, DistinctSlots, Cleared, DecodeTable, BitsOf, Contents;
    assert [] + SystemBlocks(d) == SystemBlocks(d);
    SystemWriteEffect(d, d', [], i, Table(d)[i].(inUse := false));
    OwnedSectors(d);
  }

  /** Remove: slot i and all its sectors become free. */
  lemma RemoveEffect(d: Image, d': Image, i: nat)
    requires Inv(d) && i < NUM_DIR_ENTRIES && Table(d)[i].inUse && SlotDropped(d, d', i)
    ensures Inv(d')
    ensures Owners(d') == Owners(d)[i + 2 := []] && Slots(d') == Slots(d)[i := Vacant]
    ensures Files(d') == Files(d) - {NameOf(Table(d)[i])}
  {
    hide Partition, DistinctSlots, Cleared, Owners, SlotDropped, Bits, FileMap;
    SlotDroppedViews(d, d', i);
    PartitionShrink(Owners(d), Bits(d), i + 2);
    FileMapDelete(Slots(d), i);
  }

  /** Writing through an open file: only that file changes, and only its bytes. */
  lemma WriteEffect(d: Image, d': Image, i: nat)
    requires Inv(d) && i < NUM_DIR_ENTRIES && Table(d)[i].inUse
    requires SameOutside(d, d', HeaderOf(d, Table(d)[i]).Blocks())
    ensures Inv(d') && Table(d') == Table(d) && Bits(d') == Bits(d) && Owners(d') == Owners(d)
    ensures HeaderOf(d', Table(d)[i]) == HeaderOf(d, Table(d)[i])
    ensures Files(d') == Files(d)[NameOf(Table(d)[i]) := Contents(d', HeaderOf(d, Table(d)[i]))]
  {
    hide Partition, DistinctSlots, Owners, Bits, FileMap;
    FileWriteFrame(d, d', i);
    FileWriteViews(d, d', i);
    var e := Table(d)[i];
    RewriteStaysDistinct(Slots(d), i, Contents(d', HeaderOf(d, e)));
    FileMapPut(Slots(d), i, NameOf(e), Contents(d', HeaderOf(d, e)));
  }

  lemma RewriteStaysDistinct(t: seq<Slot>, i: nat, body: seq<byte>)
    requires i < |t| && DistinctSlots(t) && t[i].Taken?
    ensures DistinctSlots(t[i := Taken(t[i].name, body)])
  {
  }

  lemma FileWriteViews(d: Image, d': Image, i: nat)
    requires Inv(d) && i < NUM_DIR_ENTRIES && Table(d)[i].inUse
    requires SameOutside(d, d', HeaderOf(d, Table(d)[i]).Blocks())
    ensures Readable(d') && Owners(d') == Owners(d)
    ensures Slots(d') == Slots(d)[i := Taken(NameOf(Table(d)[i]), Contents(d', HeaderOf(d, Table(d)[i])))]
  {
    FileWriteFrame(d, d', i);
    hide Partition, DistinctSlots, Bits, Table, MapHeader, DirHeader, Contents, NameOf, SameOutside;
    var e := Table(d)[i];
    forall j | 0 <= j < NUM_DIR_ENTRIES && j != i && Table(d)[j].inUse
      ensures ReadableEntry(d', Table(d)[j]) && EntrySectors(d', Table(d)[j]) == EntrySectors(d, Table(d)[j])
      ensures SlotOf(d', Table(d)[j]) == SlotOf(d, Table(d)[j])
    {
      EntryFrame(d, d', Table(d)[j], HeaderOf(d, e).Blocks());
    }
    assert Table(d)[i := e] == Table(d);
    OneSlotChanged(d, d', i, e);
    OwnedSectors(d);
    assert Owners(d)[i + 2 := EntrySectors(d', e)] == Owners(d);
  }

  lemma FileWriteFrame(d: Image, d': Image, i: nat)
    requires Inv(d) && i < NUM_DIR_ENTRIES && Table(d)[i].inUse
    requires SameOutside(d, d', HeaderOf(d, Table(d)[i]).Blocks())
    ensures Bootable(d') && MapHeader(d') == MapHeader(d) && DirHeader(d') == DirHeader(d)
    ensures Bits(d') == Bits(d) && Table(d') == Table(d)
    ensures HeaderOf(d', Table(d)[i]) == HeaderOf(d, Table(d)[i])
    ensures forall j | 0 <= j < NUM_DIR_ENTRIES && j != i && Table(d)[j].inUse ::
              Avoids(EntrySectors(d, Table(d)[j]), HeaderOf(d, Table(d)[i]).Blocks())
  {
    OwnedSectors(d);
    var own, e := Owners(d), Table(d)[i];
    var touched := HeaderOf(d, e).Blocks();
    assert forall s | s in touched :: s in own[i + 2];
    assert FREE_MAP_SECTOR in own[0] && DIRECTORY_SECTOR in own[1];
    assert e.sector !in touched by { HeadNotInTail(e.sector, touched); }
    assert Avoids(MapHeader(d).Blocks(), touched) by { assert Avoids(own[0], touched); }
    assert Avoids(DirHeader(d).Blocks(), touched) by { assert Avoids(own[1], touched); }
    ContentsFrame(d, d', MapHeader(d), touched);
    ContentsFrame(d, d', DirHeader(d), touched);
    forall j | 0 <= j < NUM_DIR_ENTRIES && j != i && Table(d)[j].inUse
      ensures Avoids(EntrySectors(d, Table(d)[j]), touched)
    {
      assert Avoids(own[j + 2], touched);
    }
  }

  // ---------------------------------------------------------------- the writes of one operation

  /** Sectors 0 and 1 and the blocks of the two system files are four disjoint, marked groups. */
  lemma SystemSectors(d: Image)
    requires Inv(d)
    ensures forall s | s in SystemBlocks(d) || s == FREE_MAP_SECTOR || s == DIRECTORY_SECTOR ::
              0 <= s < NUM_SECTORS && Bits(d)[s]
    ensures Avoids([FREE_MAP_SECTOR, DIRECTORY_SECTOR], SystemBlocks(d))
    ensures Avoids(MapHeader(d).Blocks(), DirHeader(d).Blocks())
  {
    OwnedSectors(d);
    hide Contents, DecodeTable, DistinctSlots;
    var own := Owners(d);
    HeadNotInTail(FREE_MAP_SECTOR, MapHeader(d).Blocks());
    HeadNotInTail(DIRECTORY_SECTOR, DirHeader(d).Blocks());
    assert FREE_MAP_SECTOR in own[0] && DIRECTORY_SECTOR in own[1];
    assert forall s | s in MapHeader(d).Blocks() :: s in own[0];
    assert forall s | s in DirHeader(d).Blocks() :: s in own[1];
    assert forall s | s in own[0] || s in own[1] :: HasOwner(own, s);
  }

  /** Header, then directory, then bitmap: the three writes of Create read back together. */
  lemma CreateWrites(d: Image, d1: Image, d2: Image, d3: Image, sector: int, h: Header)
    requires Inv(d) && 0 <= sector < NUM_SECTORS && !Bits(d)[sector]
    requires SameOutside(d, d1, [sector]) && DecodeHeader(d1[sector]) == h
    requires SameOutside(d1, d2, DirHeader(d).Blocks()) && SameOutside(d2, d3, MapHeader(d).Blocks())
    ensures SameOutside(d, d3, [sector] + SystemBlocks(d)) && DecodeHeader(d3[sector]) == h
    ensures Bootable(d3) && MapHeader(d3) == MapHeader(d) && DirHeader(d3) == DirHeader(d)
    ensures Contents(d3, DirHeader(d)) == Contents(d2, DirHeader(d))
  {
    SystemSectors(d);
    ContentsFrame(d2, d3, DirHeader(d), MapHeader(d).Blocks());
  }

  /** Bitmap, then directory: the two writes of Remove. */
  lemma RemoveWrites(d: Image, d1: Image, d2: Image)
    requires Inv(d)
    requires SameOutside(d, d1, MapHeader(d).Blocks()) && SameOutside(d1, d2, DirHeader(d).Blocks())
    ensures SameOutside(d, d2, SystemBlocks(d))
    ensures Bootable(d2) && MapHeader(d2) == MapHeader(d) && DirHeader(d2) == DirHeader(d)
    ensures Contents(d2, MapHeader(d)) == Contents(d1, MapHeader(d))
  {
    SystemSectors(d);
    ContentsFrame(d1, d2, MapHeader(d), DirHeader(d).Blocks());
  }

  /** Looking a name up in the directory decides membership in the map. */
  lemma LookupIsMembership(d: Image, name: CString, i: int)
    requires Inv(d) && IsLookup(Table(d), name, i)
    ensures i == -1 <==> Short(name) !in Files(d)
    ensures i != -1 ==> Table(d)[i].inUse && NameOf(Table(d)[i]) == Short(name)
                        && Files(d)[Short(name)] == Contents(d, HeaderOf(d, Table(d)[i]))
  {
    if i == -1 {
      forall j | 0 <= j < NUM_DIR_ENTRIES && Slots(d)[j].Taken? ensures Slots(d)[j].name != Short(name) {
        assert !Matches(Table(d)[j], name);
      }
    } else {
      assert Slots(d)[i].Taken? && Slots(d)[i].name in FileMap(Slots(d));
    }
  }
}
