/** filesys/filesys.cc: formatting a disk, and creating, opening, writing and removing files,
    each proved against the map from names to bytes that the disk stands for. */
module FileSystems {
  import opened Words
  import opened Collections
  import opened DiskGeometry
  import opened Layout
  import opened BitMaps
  import opened Ownerships
  import opened FileHeaders
  import opened OpenFiles
  import opened Directories
  import opened Volumes
  import opened Accounting

  /** BitMap::FetchFrom */
  method FetchBitMap(bitmap: BitMap, file: OpenFile)
    requires bitmap.Valid() && file.Valid() && 4 * bitmap.numWords < INT_LIMIT
    modifies bitmap.words
    ensures bitmap.words[..] == BytesToWords(Overlay(WordsToBytes(old(bitmap.words[..])), file.Bytes()))
  {
    var image := ReadImage(file, WordsToBytes(bitmap.words[..]));
    var ws := BytesToWords(image);
    forall i | 0 <= i < bitmap.numWords { bitmap.words[i] := ws[i]; }
    assert bitmap.words[..] == ws;
  }

  /** BitMap::WriteBack */
  method WriteBackBitMap(bitmap: BitMap, file: OpenFile)
    requires bitmap.Valid() && file.Valid() && 4 * bitmap.numWords < INT_LIMIT
    modifies file.disk
    ensures SameOutside(old(file.disk.sectors), file.disk.sectors, file.hdr.Value().Blocks())
    ensures file.Bytes() == Overlay(old(file.Bytes()), WordsToBytes(bitmap.words[..]))
    ensures file.hdr.numBytes == 4 * bitmap.numWords ==> BytesToWords(file.Bytes()) == bitmap.words[..]
  {
    WriteImage(file, WordsToBytes(bitmap.words[..]));
    WordsRoundTrip(bitmap.words[..]);
  }

  // ---------------------------------------------------------------- what the operations mean

  /** d' is d with a new file in the vacant slot i. */
  ghost predicate CreatedIn(d: Image, d': Image, i: int, name: CString, size: nat) {
    && Inv(d) && Inv(d') && 0 <= i < NUM_DIR_ENTRIES && Slots(d)[i] == Vacant && name !in Files(d)
    && Slots(d')[i].Taken? && Slots(d')[i].name == name && |Slots(d')[i].body| == size
    && Slots(d') == Slots(d)[i := Slots(d')[i]]
    && Owners(d)[i + 2] == [] && Owners(d') == Owners(d)[i + 2 := Owners(d')[i + 2]]
    && |Owners(d')[i + 2]| > 0 && Bits(d') == Marked(Bits(d), Owners(d')[i + 2])
    && FirstFit(Bits(d), Owners(d')[i + 2][0], Owners(d')[i + 2][1..])
  }

  /** d' is d without the file in slot i. */
  ghost predicate RemovedFrom(d: Image, d': Image, i: int, name: CString) {
    && Inv(d) && Inv(d') && 0 <= i < NUM_DIR_ENTRIES && Slots(d)[i].Taken? && Slots(d)[i].name == name
    && Slots(d') == Slots(d)[i := Vacant] && Owners(d') == Owners(d)[i + 2 := []]
  }

  lemma CreateDone(d: Image, d': Image, i: nat, e: Entry, h: Header, name: CString)
    requires Inv(d) && IsFirstFree(Table(d), i) && Matches(e, name)
    requires 0 <= e.sector < NUM_SECTORS && !Bits(d)[e.sector]
    requires h.Valid() && TakenFrom(Marked(Bits(d), [e.sector as int]), h.Blocks())
    requires Short(name) !in Files(d)
    requires SameOutside(d, d', [e.sector as int] + SystemBlocks(d))
    requires DecodeHeader(d'[e.sector]) == h
    requires Bootable(d') && Table(d') == Table(d)[i := e]
    requires Bits(d') == Marked(Bits(d), [e.sector as int] + h.Blocks()) && FirstFit(Bits(d), e.sector, h.Blocks())
    ensures CreatedIn(d, d', i, Short(name), h.numBytes)
  {
    CreateEffect(d, d', i, e, h);
    OwnedSectors(d);
    var got := [e.sector as int] + h.Blocks();
    assert got[0] == e.sector && got[1..] == h.Blocks();
  }

  /** Whether there is room, in the directory and on the disk, for one more file of that size. */
  ghost predicate Room(m: map<CString, seq<byte>>, size: nat) {
    |m| < NUM_DIR_ENTRIES && Footprint(m) + 1 + SectorsFor(size) <= DATA_CAPACITY
  }

  /** A file no larger than a header can describe, or one that Create turns down before it
      allocates anything. */
  ghost predicate SafeSize(m: map<CString, seq<byte>>, name: CString, size: int) {
    0 <= size && (size <= MAX_FILE_SIZE || name in m || !Room(m, size))
  }

  lemma RoomInTheBitmap(d: Image, size: nat)
    requires Inv(d)
    ensures Room(Files(d), size) <==> (exists i :: 0 <= i < NUM_DIR_ENTRIES && Slots(d)[i].Vacant?)
                                      && 1 + SectorsFor(size) <= CountClear(Bits(d))
  {
    FreeSpace(d);
    SectorsUsedIsFootprint(Slots(d));
    FileCount(Slots(d));
    TakenCountFull(Slots(d));
  }

  // ---------------------------------------------------------------- formatting

  /** The bitmap of a disk being formatted, when only the two header sectors are taken. */
  function HeadersMarked(): (bits: seq<bool>)
    ensures |bits| == NUM_SECTORS
  {
    seq(NUM_SECTORS, i => i == FREE_MAP_SECTOR || i == DIRECTORY_SECTOR)
  }

  lemma EmptyPartition(mh: seq<int>, dh: seq<int>)
    requires TakenFrom(HeadersMarked(), mh) && TakenFrom(Marked(HeadersMarked(), mh), dh)
    ensures Partition([[FREE_MAP_SECTOR] + mh, [DIRECTORY_SECTOR] + dh] + seq(NUM_DIR_ENTRIES, _ => []),
                      Marked(Marked(HeadersMarked(), mh), dh))
  {
    var none: Ownership := seq(NUM_OWNERS, _ => []);
    var free := seq(NUM_SECTORS, _ => false);
    forall s | 0 <= s < NUM_SECTORS ensures !HasOwner(none, s) {}
    assert Partition(none, free);
    assert forall s | s in mh :: !HeadersMarked()[s];
    assert forall s | s in dh :: !Marked(HeadersMarked(), mh)[s];
    ConsNoDuplicates(FREE_MAP_SECTOR, mh);
    ConsNoDuplicates(DIRECTORY_SECTOR, dh);
    var bitmap, dir := [FREE_MAP_SECTOR] + mh, [DIRECTORY_SECTOR] + dh;
    PartitionGrow(none, free, 0, bitmap);
    PartitionGrow(none[0 := bitmap], Marked(free, bitmap), 1, dir);
    assert none[0 := bitmap][1 := dir] == [bitmap, dir] + seq(NUM_DIR_ENTRIES, _ => []);
    assert Marked(Marked(free, bitmap), dir) == Marked(Marked(HeadersMarked(), mh), dh);
  }

  /** A freshly formatted disk satisfies the invariant and holds no files. */
  lemma FormatEffect(d: Image, mh: Header, dh: Header)
    requires MapHeader(d) == mh && DirHeader(d) == dh && Bootable(d)
    requires TakenFrom(HeadersMarked(), mh.Blocks()) && TakenFrom(Marked(HeadersMarked(), mh.Blocks()), dh.Blocks())
    requires Bits(d) == Marked(Marked(HeadersMarked(), mh.Blocks()), dh.Blocks())
    requires forall i | 0 <= i < NUM_DIR_ENTRIES :: !Table(d)[i].inUse
    ensures Inv(d) && Slots(d) == seq(NUM_DIR_ENTRIES, _ => Vacant)
  {
    assert Readable(d);
    EmptyPartition(mh.Blocks(), dh.Blocks());
    assert Owners(d) == [[FREE_MAP_SECTOR] + mh.Blocks(), [DIRECTORY_SECTOR] + dh.Blocks()] + seq(NUM_DIR_ENTRIES, _ => []);
    assert forall i | 0 <= i < NUM_DIR_ENTRIES :: Slots(d)[i] == Vacant;
  }

  /** The format branch of the constructor: its assertions that both Allocates succeed hold. */
  method Format(disk: Disk)
    modifies disk
    ensures Inv(disk.sectors) && Slots(disk.sectors) == seq(NUM_DIR_ENTRIES, _ => Vacant)
  {
    hide Partition, DistinctSlots, Slots, TakenFrom, CountClear, BitsOf;
    var freeMap := new BitMap(NUM_SECTORS);
    var directory := new Directory(NUM_DIR_ENTRIES);
    var mapHdr := new FileHeader();
    var dirHdr := new FileHeader();
    CountClearAllFree(freeMap.Bits());
    CountClearUpdate(freeMap.Bits(), FREE_MAP_SECTOR);
    freeMap.Mark(FREE_MAP_SECTOR);
    CountClearUpdate(freeMap.Bits(), DIRECTORY_SECTOR);
    freeMap.Mark(DIRECTORY_SECTOR);
    assert freeMap.Bits() == HeadersMarked();
    var ok := mapHdr.Allocate(freeMap, FREE_MAP_FILE_SIZE);
    assert ok;
    CountMarked(HeadersMarked(), mapHdr.Value().Blocks());
    ok := dirHdr.Allocate(freeMap, DIRECTORY_FILE_SIZE);
    assert ok;
    FlushFormat(disk, mapHdr, dirHdr, directory, freeMap);
  }

  /** The end of formatting: both headers, then both files, go to disk. */
  method FlushFormat(disk: Disk, mapHdr: FileHeader, dirHdr: FileHeader, directory: Directory, freeMap: BitMap)
    requires directory.Valid() && directory.tableSize == NUM_DIR_ENTRIES
    requires forall i | 0 <= i < NUM_DIR_ENTRIES :: !directory.table[i].inUse
    requires freeMap.Valid() && freeMap.numBits == NUM_SECTORS && freeMap.numWords == 32
    requires mapHdr.Value().Valid() && mapHdr.numBytes == FREE_MAP_FILE_SIZE
    requires dirHdr.Value().Valid() && dirHdr.numBytes == DIRECTORY_FILE_SIZE
    requires TakenFrom(HeadersMarked(), mapHdr.Value().Blocks())
    requires TakenFrom(Marked(HeadersMarked(), mapHdr.Value().Blocks()), dirHdr.Value().Blocks())
    requires freeMap.Bits() == Marked(Marked(HeadersMarked(), mapHdr.Value().Blocks()), dirHdr.Value().Blocks())
    modifies disk
    ensures Inv(disk.sectors) && Slots(disk.sectors) == seq(NUM_DIR_ENTRIES, _ => Vacant)
  {
    hide Partition, DistinctSlots, Slots, Files, Marked, TakenFrom, HeadersMarked, BitsOf, DecodeTable,
         EncodeTable, BytesToWords, WordsToBytes, Overlay, Contents;
    ghost var mh, dh := mapHdr.Value(), dirHdr.Value();
    mapHdr.WriteBack(disk, FREE_MAP_SECTOR);
    dirHdr.WriteBack(disk, DIRECTORY_SECTOR);
    var freeMapFile := new OpenFile(disk, FREE_MAP_SECTOR);
    var directoryFile := new OpenFile(disk, DIRECTORY_SECTOR);
    ghost var d0 := disk.sectors;
    WriteBackBitMap(freeMap, freeMapFile);
    ghost var d1 := disk.sectors;
    directory.WriteBack(directoryFile);
    FormatWrites(d0, d1, disk.sectors, mh, dh);
    FormatEffect(disk.sectors, mh, dh);
  }

  lemma FormatWrites(d: Image, d1: Image, d2: Image, mh: Header, dh: Header)
    requires MapHeader(d) == mh && DirHeader(d) == dh && mh.Valid() && dh.Valid()
    requires TakenFrom(HeadersMarked(), mh.Blocks()) && TakenFrom(Marked(HeadersMarked(), mh.Blocks()), dh.Blocks())
    requires SameOutside(d, d1, mh.Blocks()) && SameOutside(d1, d2, dh.Blocks())
    ensures MapHeader(d2) == mh && DirHeader(d2) == dh && Contents(d2, mh) == Contents(d1, mh)
  {
    var m := HeadersMarked();
    assert m[0] && m[1] && Marked(m, mh.Blocks())[0] && Marked(m, mh.Blocks())[1];
    assert Avoids(mh.Blocks(), dh.Blocks()) by {
      forall s | s in mh.Blocks() ensures s !in dh.Blocks() {
        assert 0 <= s < |m| && Marked(m, mh.Blocks())[s];
      }
    }
    ContentsFrame(d1, d2, mh, dh.Blocks());
  }

  /** Every file of d is on d' with the same bytes. */
  ghost predicate FilesKept(d: Image, d': Image) {
    Inv(d) && Inv(d') && forall n | n in Files(d) :: n in Files(d') && Files(d')[n] == Files(d)[n]
  }

  /** What an attempt to create an empty file leaves behind. */
  ghost predicate TriedToCreate(d: Image, d': Image, name: CString) {
    && Inv(d) && Inv(d')
    && (if name !in Files(d) && Room(Files(d), 0) then exists i :: CreatedIn(d, d', i, name, 0) else d' == d)
  }

  lemma CreatedFiles(d: Image, d': Image, i: int, name: CString, size: nat)
    requires CreatedIn(d, d', i, name, size)
    ensures Files(d') == Files(d)[name := Slots(d')[i].body]
  {
    FileMapPut(Slots(d), i, name, Slots(d')[i].body);
  }

  lemma TriedFilesKept(d: Image, d': Image, name: CString)
    requires TriedToCreate(d, d', name)
    ensures FilesKept(d, d')
    ensures name !in Files(d) && Room(Files(d), 0) ==>
              Files(d') == Files(d)[name := []]
  {
    hide Partition, DistinctSlots, Slots, FileMap, Room, Table, Owners;
    if name !in Files(d) && Room(Files(d), 0) {
      var i :| CreatedIn(d, d', i, name, 0);
      CreatedFiles(d, d', i, name, 0);
    }
  }

  lemma VacantMeansEmpty(d: Image)
    requires Inv(d) && Slots(d) == seq(NUM_DIR_ENTRIES, _ => Vacant)
    ensures Files(d) == map[]
  {
  }

  lemma ConsoleFiles(d: Image, d1: Image, d2: Image)
    requires TriedToCreate(d, d1, STDIN) && TriedToCreate(d1, d2, STDOUT)
    ensures FilesKept(d, d2)
    ensures Files(d) == map[] ==> Files(d2) == map[STDIN := [], STDOUT := []]
  {
    hide Partition, DistinctSlots, CreatedIn, Slots, FileMap, Files, Inv;
    TriedFilesKept(d, d1, STDIN);
    TriedFilesKept(d1, d2, STDOUT);
    if Files(d) == map[] {
      FootprintRemove(map[STDIN := []], STDIN);
      assert map[STDIN := []] - {STDIN} == Files(d);
      assert STDIN[3] != STDOUT[3];
    }
  }

  const STDIN: CString := [115, 116, 100, 105, 110]
  const STDOUT: CString := [115, 116, 100, 111, 117, 116]

  lemma MarkedTwice(bits: seq<bool>, s: int, blocks: seq<int>)
    requires 0 <= s < |bits|
    ensures bits[s := true] == Marked(bits, [s])
    ensures Marked(bits[s := true], blocks) == Marked(bits, [s] + blocks)
  {
  }

  lemma NoEntryMatches(d: Image, name: CString)
    requires Inv(d) && Short(name) !in Files(d)
    ensures IsLookup(Table(d), name, -1)
    ensures forall i | 0 <= i < NUM_DIR_ENTRIES :: Slots(d)[i].Vacant? <==> !Table(d)[i].inUse
  {
    forall i | 0 <= i < NUM_DIR_ENTRIES ensures !Matches(Table(d)[i], name) {
      assert Slots(d)[i].Taken? ==> Slots(d)[i].name in FileMap(Slots(d));
    }
  }

  lemma CreateUndone(d: Image, d1: Image, d2: Image, i: int, j: int, name: CString, size: nat)
    requires CreatedIn(d, d1, i, name, size) && RemovedFrom(d1, d2, j, name)
    ensures Bits(d2) == Bits(d) && Owners(d2) == Owners(d) && Files(d2) == Files(d)
  {
    assert i == j;
    assert Slots(d2) == Slots(d);
    assert Owners(d2) == Owners(d);
    PartitionDetermines(Owners(d), Bits(d), Bits(d2));
  }

  /** Removing never disturbs another file. */
  lemma RemovedFiles(d: Image, d': Image, i: int, name: CString)
    requires RemovedFrom(d, d', i, name)
    ensures Files(d') == Files(d) - {name}
  {
    FileMapDelete(Slots(d), i);
  }

  lemma RemoveDone(d: Image, d': Image, i: nat, name: CString)
    requires Inv(d) && IsLookup(Table(d), name, i) && Table(d)[i].inUse && SlotDropped(d, d', i)
    ensures RemovedFrom(d, d', i, Short(name))
  {
    RemoveEffect(d, d', i);
  }

  lemma ClearedTwice(bits: seq<bool>, s: int, blocks: seq<int>)
    requires 0 <= s < |bits|
    ensures Cleared(bits, blocks)[s := false] == Cleared(bits, [s] + blocks)
  {
  }

  lemma LookupUnique(t: seq<Entry>, name: CString, i: int)
    requires IsLookup(t, name, i)
    ensures forall j | IsLookup(t, name, j) :: j == i
  {
  }

  lemma EntryIsMarked(d: Image, i: nat)
    requires Inv(d) && i < NUM_DIR_ENTRIES && Table(d)[i].inUse
    ensures forall s | s in EntrySectors(d, Table(d)[i]) :: 0 <= s < NUM_SECTORS && Bits(d)[s]
    ensures forall s | s in HeaderOf(d, Table(d)[i]).Blocks() :: 0 <= s < NUM_SECTORS && Bits(d)[s]
  {
    OwnedSectors(d);
    forall s | s in EntrySectors(d, Table(d)[i]) ensures 0 <= s < NUM_SECTORS && Bits(d)[s] {
      assert s in Owners(d)[i + 2] && HasOwner(Owners(d), s);
    }
    assert forall s | s in HeaderOf(d, Table(d)[i]).Blocks() :: s in EntrySectors(d, Table(d)[i]);
  }

  /** h is the header of the file in slot i, which has that name. */
  ghost predicate OpenedAt(d: Image, h: Header, i: int, name: CString) {
    && Inv(d) && 0 <= i < NUM_DIR_ENTRIES && Table(d)[i].inUse
    && NameOf(Table(d)[i]) == name && HeaderOf(d, Table(d)[i]) == h
  }

  /** A header in memory stands for the file in slot i: it has its length and its data sectors. */
  ghost predicate Denotes(d: Image, h: Header, i: int, name: CString) {
    && Inv(d) && 0 <= i < NUM_DIR_ENTRIES && h.Valid()
    && Slots(d)[i].Taken? && Slots(d)[i].name == name && |Slots(d)[i].body| == h.numBytes
    && |Owners(d)[i + 2]| > 0 && Owners(d)[i + 2][1..] == h.Blocks()
  }

  /** A file that has just been opened. */
  lemma OpenedDenotes(d: Image, h: Header, i: int, name: CString)
    requires OpenedAt(d, h, i, name)
    ensures Denotes(d, h, i, name)
  {
    OwnedSectors(d);
  }

  lemma SameBlocks(d: Image, g: Header, h: Header)
    requires g.Valid() && h.Valid() && g.Blocks() == h.Blocks() && g.numBytes == h.numBytes
    ensures Contents(d, g) == Contents(d, h)
  {
    forall p | 0 <= p < h.numBytes ensures Contents(d, g)[p] == Contents(d, h)[p] {
      assert g.Blocks()[p / SECTOR_SIZE] == g.data[p / SECTOR_SIZE] && h.Blocks()[p / SECTOR_SIZE] == h.data[p / SECTOR_SIZE];
    }
  }

  /** The header in memory shows the bytes of the file. */
  lemma DenotesContents(d: Image, h: Header, i: int, name: CString)
    requires Denotes(d, h, i, name)
    ensures h.Valid() && Table(d)[i].inUse && NameOf(Table(d)[i]) == name
    ensures HeaderOf(d, Table(d)[i]).Blocks() == h.Blocks() && HeaderOf(d, Table(d)[i]).numBytes == h.numBytes
    ensures name in Files(d) && Files(d)[name] == Contents(d, h)
  {
    hide Partition;
    OwnedSectors(d);
    var g := HeaderOf(d, Table(d)[i]);
    assert Owners(d)[i + 2] == [Table(d)[i].sector as int] + g.Blocks();
    SameBlocks(d, g, h);
    assert Slots(d)[i].Taken? && Files(d)[name] == Slots(d)[i].body;
  }

  /** m' is m after a write of src[..numBytes] at a position of the file, clipped to the file. */
  ghost predicate Written(m: map<CString, seq<byte>>, m': map<CString, seq<byte>>, name: CString,
                          src: seq<byte>, numBytes: int, position: nat)
  {
    if name in m && position < |m[name]| && 0 < numBytes <= |src| then
      m' == m[name := Splice(m[name], position, src[..Min(numBytes, |m[name]| - position)])]
    else m' == m
  }

  lemma WriteDone(d: Image, d': Image, h: Header, i: int, name: CString)
    requires Denotes(d, h, i, name) && SameOutside(d, d', h.Blocks())
    ensures Inv(d') && MapHeader(d') == MapHeader(d) && DirHeader(d') == DirHeader(d)
    ensures Bits(d') == Bits(d) && Owners(d') == Owners(d)
    ensures name in Files(d) && Files(d)[name] == Contents(d, h)
    ensures Files(d') == Files(d)[name := Contents(d', h)]
    ensures Slots(d') == Slots(d)[i := Taken(name, Contents(d', h))]
  {
    hide Partition, Contents, Files, DistinctSlots;
    DenotesContents(d, h, i, name);
    var g := HeaderOf(d, Table(d)[i]);
    SameBlocks(d', g, h);
    WriteEffect(d, d', i);
    FileWriteFrame(d, d', i);
    FileWriteViews(d, d', i);
  }

  lemma WrittenIs(m: map<CString, seq<byte>>, m': map<CString, seq<byte>>, name: CString,
                  src: seq<byte>, numBytes: int, position: nat, n: int)
    requires name in m && numBytes <= |src|
    requires n == Clip(numBytes, position, |m[name]|)
    requires m' == m[name := if n > 0 then Splice(m[name], position, src[..n]) else m[name]]
    ensures Written(m, m', name, src, numBytes, position)
  {
  }

  // ---------------------------------------------------------------- the file system

  lemma CreateStep(d: Image, d': Image, i: int, name: CString, size: int32)
    requires 0 <= size && CreatedIn(d, d', i, Short(name), size)
    ensures var m, m' := Files(d), Files(d');
      Short(name) in m' && |m'[Short(name)]| == size && m' == m[Short(name) := m'[Short(name)]]
  {
    CreatedFiles(d, d', i, Short(name), size);
  }

  class FileSystem {
    const disk: Disk
    const freeMapFile: OpenFile
    const directoryFile: OpenFile

    /** The image satisfies the invariant, and the two files kept open are the bitmap and
        the directory of that image. */
    ghost predicate Valid()
      reads disk
      reads freeMapFile.hdr, freeMapFile.hdr.dataSectors
      reads directoryFile.hdr, directoryFile.hdr.dataSectors
    {
      && Inv(disk.sectors)
      && freeMapFile.disk == disk && freeMapFile.hdr.Value() == MapHeader(disk.sectors)
      && directoryFile.disk == disk && directoryFile.hdr.Value() == DirHeader(disk.sectors)
    }

    /** Boots from a disk: formats it first if asked to, then makes sure that the two
        console files exist. */
    constructor (disk: Disk, format: bool)
      requires format || Inv(disk.sectors)
      modifies disk
      ensures Valid() && this.disk == disk
      ensures format ==> Files(disk.sectors) == map[STDIN := [], STDOUT := []]
      ensures !format ==> FilesKept(old(disk.sectors), disk.sectors)
    {
      hide Partition, DistinctSlots, Slots, Files, FilesKept;
      if format {
        Format(disk);
      }
      this.disk := disk;
      freeMapFile := new OpenFile(disk, FREE_MAP_SECTOR);
      directoryFile := new OpenFile(disk, DIRECTORY_SECTOR);
      new;
      CreateConsoleFiles();
    }

    method CreateConsoleFiles()
      requires Valid()
      modifies disk
      ensures Valid()
      ensures Slots(old(disk.sectors)) == seq(NUM_DIR_ENTRIES, _ => Vacant)
              ==> Files(disk.sectors) == map[STDIN := [], STDOUT := []]
      ensures FilesKept(old(disk.sectors), disk.sectors)
    {
      hide Partition, Files, Room, CreatedIn, DistinctSlots, Slots;
      ghost var d := disk.sectors;
      var _ := Create(STDIN, 0);
      ghost var d1 := disk.sectors;
      var _ := Create(STDOUT, 0);
      ConsoleFiles(d, d1, disk.sectors);
      if Slots(d) == seq(NUM_DIR_ENTRIES, _ => Vacant) { VacantMeansEmpty(d); }
    }

    method FetchDirectory() returns (directory: Directory)
      requires Valid()
      ensures fresh(directory) && fresh(directory.table) && directory.Valid()
      ensures directory.tableSize == NUM_DIR_ENTRIES && directory.table[..] == Table(disk.sectors)
    {
      directory := new Directory(NUM_DIR_ENTRIES);
      directory.FetchFrom(directoryFile);
    }

    method FetchFreeMap() returns (freeMap: BitMap)
      requires Valid()
      ensures fresh(freeMap) && fresh(freeMap.words) && freeMap.Valid()
      ensures freeMap.numBits == NUM_SECTORS && freeMap.numWords == 32 && freeMap.Bits() == Bits(disk.sectors)
    {
      freeMap := new BitMap(NUM_SECTORS);
      FetchBitMap(freeMap, freeMapFile);
    }

    /** Creates a file, exactly when the name is new and there is room for it. A failing
        Create changes nothing on the disk; a successful one adds that file and no more. */
    method Create(name: CString, initialSize: int32) returns (success: bool)
      requires Valid() && SafeSize(Files(disk.sectors), Short(name), initialSize)
      modifies disk
      ensures Valid()
      ensures success <==> Short(name) !in Files(old(disk.sectors)) && Room(Files(old(disk.sectors)), initialSize)
      ensures !success ==> disk.sectors == old(disk.sectors)
      ensures success ==> exists i :: CreatedIn(old(disk.sectors), disk.sectors, i, Short(name), initialSize)
    {
      hide Partition, DistinctSlots, Files, Room, BitsOf, DecodeTable, Matches, CreatedIn;
      ghost var d := disk.sectors;
      var directory := FetchDirectory();
      var found := directory.Find(name);
      ghost var at :| IsLookup(directory.table[..], name, at) && found == if at == -1 then -1 else directory.table[at].sector;
      LookupIsMembership(d, name, at);
      if found != -1 {
        return false;
      }
      success := CreateNew(name, initialSize, directory);
    }

    /** Create, once the name is known to be new: a header sector, a directory slot and the
        data sectors are reserved in memory, and nothing is written unless all three succeed. */
    method CreateNew(name: CString, initialSize: int32, directory: Directory) returns (success: bool)
      requires Valid() && SafeSize(Files(disk.sectors), Short(name), initialSize) && Short(name) !in Files(disk.sectors)
      requires directory.Valid() && directory.tableSize == NUM_DIR_ENTRIES && directory.table[..] == Table(disk.sectors)
      modifies disk, directory.table
      ensures Valid()
      ensures success <==> Room(Files(old(disk.sectors)), initialSize)
      ensures !success ==> disk.sectors == old(disk.sectors)
      ensures success ==> exists i :: CreatedIn(old(disk.sectors), disk.sectors, i, Short(name), initialSize)
    {
      hide Partition, DistinctSlots, Files, Room, CountClear, BitsOf, DecodeTable, BytesToWords, Contents,
           Matches, CreatedIn, Marked, TakenFrom;
      ghost var d := disk.sectors;
      RoomInTheBitmap(d, initialSize);
      NoEntryMatches(d, name);
      var freeMap := FetchFreeMap();
      var sector := freeMap.Find();
      if sector == -1 {
        return false;
      }
      CountClearUpdate(Bits(d), sector);
      var added := directory.Add(name, sector);
      if !added {
        return false;
      }
      var hdr := new FileHeader();
      success := hdr.Allocate(freeMap, initialSize);
      if success {
        MarkedTwice(Bits(d), sector, hdr.Value().Blocks());
        FlushCreate(name, sector, hdr, directory, freeMap);
      }
    }

    /** The successful end of Create: everything is written back. */
    method FlushCreate(name: CString, sector: int32, hdr: FileHeader, directory: Directory, freeMap: BitMap)
      requires Valid() && hdr.Shape() && directory.Valid() && directory.tableSize == NUM_DIR_ENTRIES
      requires freeMap.Valid() && freeMap.numBits == NUM_SECTORS && freeMap.numWords == 32
      requires 0 <= sector < NUM_SECTORS && !Bits(disk.sectors)[sector]
      requires hdr.Value().Valid() && TakenFrom(Marked(Bits(disk.sectors), [sector]), hdr.Value().Blocks())
      requires Short(name) !in Files(disk.sectors)
      requires exists i: int, e: Entry :: IsFirstFree(Table(disk.sectors), i) && e.Valid() && Matches(e, name)
                                          && e.sector == sector && directory.table[..] == Table(disk.sectors)[i := e]
      requires freeMap.Bits() == Marked(Bits(disk.sectors), [sector as int] + hdr.Value().Blocks())
      requires FirstFit(Bits(disk.sectors), sector, hdr.Value().Blocks())
      modifies disk
      ensures Valid()
      ensures exists i :: CreatedIn(old(disk.sectors), disk.sectors, i, Short(name), hdr.numBytes)
    {
      hide Partition, DistinctSlots, Files, Owners, Marked, TakenFrom, BitsOf, DecodeTable, EncodeTable,
           BytesToWords, WordsToBytes, Overlay, Contents, Matches, FirstFit;
      ghost var d, h := disk.sectors, hdr.Value();
      ghost var i: int, e: Entry :| IsFirstFree(Table(d), i) && e.Valid() && Matches(e, name)
        && e.sector == sector && directory.table[..] == Table(d)[i := e];
      hdr.WriteBack(disk, sector);
      ghost var d1 := disk.sectors;
      directory.WriteBack(directoryFile);
      ghost var d2 := disk.sectors;
      WriteBackBitMap(freeMap, freeMapFile);
      CreateWrites(d, d1, d2, disk.sectors, sector, h);
      CreateDone(d, disk.sectors, i, e, h, name);
    }

    /** Removes a file, exactly when there is one of that name; its sectors become free and
        every other file stays as it is. */
    method Remove(name: CString) returns (found: bool)
      requires Valid()
      modifies disk
      ensures Valid()
      ensures found <==> Short(name) in Files(old(disk.sectors))
      ensures !found ==> disk.sectors == old(disk.sectors)
      ensures found ==> exists i :: RemovedFrom(old(disk.sectors), disk.sectors, i, Short(name))
    {
      hide Partition, DistinctSlots, Files, BitsOf, DecodeTable, Matches, RemovedFrom, Contents;
      ghost var d := disk.sectors;
      var directory := FetchDirectory();
      var sector := directory.Find(name);
      ghost var at :| IsLookup(directory.table[..], name, at) && sector == if at == -1 then -1 else directory.table[at].sector;
      LookupIsMembership(d, name, at);
      if sector == -1 {
        return false;
      }
      RemoveAt(name, sector, at, directory);
      return true;
    }

    /** Remove, once the entry is found: the assertion in Deallocate holds. */
    method RemoveAt(name: CString, sector: int, ghost i: int, directory: Directory)
      requires Valid() && directory.Valid() && directory.tableSize == NUM_DIR_ENTRIES
      requires directory.table[..] == Table(disk.sectors) && IsLookup(Table(disk.sectors), name, i)
      requires i != -1 && Table(disk.sectors)[i].inUse && Table(disk.sectors)[i].sector == sector
      modifies disk, directory.table
      ensures Valid() && exists i :: RemovedFrom(old(disk.sectors), disk.sectors, i, Short(name))
    {
      hide Partition, DistinctSlots, Slots, Files, Owners, BitsOf, DecodeTable, BytesToWords, Contents, Matches,
           RemovedFrom, Cleared;
      ghost var d := disk.sectors;
      ghost var e := Table(d)[i];
      var fileHdr := new FileHeader();
      fileHdr.FetchFrom(disk, sector);
      var freeMap := FetchFreeMap();
      EntryIsMarked(d, i);
      fileHdr.Deallocate(freeMap);
      freeMap.Clear(sector);
      ClearedTwice(Bits(d), sector, fileHdr.Value().Blocks());
      var ok := directory.Remove(name);
      LookupUnique(Table(d), name, i);
      FlushRemove(name, i, directory, freeMap);
    }

    method FlushRemove(name: CString, ghost i: int, directory: Directory, freeMap: BitMap)
      requires Valid() && directory.Valid() && directory.tableSize == NUM_DIR_ENTRIES
      requires freeMap.Valid() && freeMap.numBits == NUM_SECTORS && freeMap.numWords == 32
      requires IsLookup(Table(disk.sectors), name, i) && i != -1 && Table(disk.sectors)[i].inUse
      requires directory.table[..] == Table(disk.sectors)[i := Table(disk.sectors)[i].(inUse := false)]
      requires freeMap.Bits() == Cleared(Bits(disk.sectors), EntrySectors(disk.sectors, Table(disk.sectors)[i]))
      modifies disk
      ensures Valid() && exists i :: RemovedFrom(old(disk.sectors), disk.sectors, i, Short(name))
    {
      hide Partition, DistinctSlots, Files, Owners, BitsOf, DecodeTable, EncodeTable, BytesToWords, WordsToBytes,
           Overlay, Contents, Matches, Cleared;
      ghost var d := disk.sectors;
      WriteBackBitMap(freeMap, freeMapFile);
      ghost var d1 := disk.sectors;
      directory.WriteBack(directoryFile);
      RemoveWrites(d, d1, disk.sectors);
      RemoveDone(d, disk.sectors, i, name);
    }

    /** Opens a file for reading and writing; null if there is none of that name. */
    method Open(name: CString) returns (file: OpenFile?)
      requires Valid()
      ensures file == null <==> Short(name) !in Files(disk.sectors)
      ensures file != null ==> fresh(file) && fresh(file.hdr) && fresh(file.hdr.dataSectors)
                               && file.disk == disk && file.Valid() && file.Bytes() == Files(disk.sectors)[Short(name)]
      ensures file != null ==> exists i :: OpenedAt(disk.sectors, file.hdr.Value(), i, Short(name))
    {
      hide Partition, DistinctSlots, Files, BitsOf, DecodeTable, Matches, Contents;
      ghost var d := disk.sectors;
      var directory := FetchDirectory();
      var sector := directory.Find(name);
      ghost var at :| IsLookup(directory.table[..], name, at) && sector == if at == -1 then -1 else directory.table[at].sector;
      LookupIsMembership(d, name, at);
      file := null;
      if sector >= 0 {
        file := new OpenFile(disk, sector);
        assert OpenedAt(d, file.hdr.Value(), at, Short(name));
      }
    }

    /** Writes through a file that is held open: exactly those bytes of exactly the file that its
        header stands for change. */
    method WriteHeld(file: OpenFile, from: array<byte>, numBytes: int32, position: int32, ghost i: int, ghost name: CString)
      returns (n: int32)
      requires Valid() && file.disk == disk && Denotes(disk.sectors, file.hdr.Value(), i, name)
      requires 0 <= position && position + numBytes < INT_LIMIT && numBytes <= from.Length
      modifies disk
      ensures Valid() && Bits(disk.sectors) == Bits(old(disk.sectors)) && Owners(disk.sectors) == Owners(old(disk.sectors))
      ensures Written(Files(old(disk.sectors)), Files(disk.sectors), name, from[..], numBytes, position)
      ensures name in Files(old(disk.sectors)) && n == Clip(numBytes, position, |Files(old(disk.sectors))[name]|)
      ensures SameOutside(old(disk.sectors), disk.sectors, file.hdr.Value().Blocks())
    {
      hide Partition, DistinctSlots, Files, Contents, Splice, Slots, Owners, Bits, Written, Denotes;
      ghost var d, h := disk.sectors, file.hdr.Value();
      DenotesContents(d, h, i, name);
      n := file.WriteAt(from, numBytes, position);
      assert n > 0 ==> from[..n] == from[..][..n];
      WriteDone(d, disk.sectors, h, i, name);
      WrittenIs(Files(d), Files(disk.sectors), name, from[..], numBytes, position, n);
    }

    /** A successful Create followed by a Remove of that name gives back the bitmap, the
        ownership of every sector, and the files. */
    method CreateThenRemove(name: CString, initialSize: int32) returns (created: bool)
      requires Valid() && SafeSize(Files(disk.sectors), Short(name), initialSize)
      modifies disk
      ensures Valid()
      ensures created ==> Bits(disk.sectors) == Bits(old(disk.sectors))
      ensures created ==> Owners(disk.sectors) == Owners(old(disk.sectors))
      ensures created ==> Files(disk.sectors) == Files(old(disk.sectors))
    {
      hide Partition, DistinctSlots, Files, CreatedIn, RemovedFrom, Room, Slots, Owners;
      ghost var d := disk.sectors;
      created := Create(name, initialSize);
      if created {
        ghost var d1 := disk.sectors;
        ghost var i :| CreatedIn(d, d1, i, Short(name), initialSize);
        CreatedFiles(d, d1, i, Short(name), initialSize);
        var found := Remove(name);
        ghost var j :| RemovedFrom(d1, disk.sectors, j, Short(name));
        CreateUndone(d, d1, disk.sectors, i, j, Short(name), initialSize);
      }
    }
  }
}
