/** What a Nachos disk holds, as values: sectors, file headers, the bytes of a file, and
    the byte images under which headers and directory tables are stored. */
module Layout {
  import opened Words
  import opened Collections
  import opened DiskGeometry

  const NUM_DIRECT := 126
  const MAX_FILE_SIZE := NUM_DIRECT * SECTOR_SIZE

  type Sector = s: seq<byte> | |s| == SECTOR_SIZE witness seq(SECTOR_SIZE, _ => 0)
  type Image = d: seq<Sector> | |d| == NUM_SECTORS witness seq<Sector>(NUM_SECTORS, (_: nat) => BLANK)

  const BLANK: Sector := seq(SECTOR_SIZE, _ => 0)

  /** divRoundUp(n, SectorSize): the fewest sectors that hold n bytes. */
  function SectorsFor(n: nat): (q: nat)
    ensures SECTOR_SIZE * q - SECTOR_SIZE < n <= SECTOR_SIZE * q || n == q == 0
  {
    n / SECTOR_SIZE + if n % SECTOR_SIZE > 0 then 1 else 0
  }

  // ---------------------------------------------------------------- file headers

  /** filesys/filehdr.h: the i-node, exactly one sector on disk. Table slots at or
      beyond numSectors hold whatever was in memory. */
  datatype Header = Header(numBytes: int32, numSectors: int32, data: seq<int32>) {
    ghost predicate Valid() {
      && |data| == NUM_DIRECT
      && 0 <= numBytes <= MAX_FILE_SIZE
      && numSectors == SectorsFor(numBytes)
      && (forall i | 0 <= i < numSectors :: 0 <= data[i] < NUM_SECTORS)
      && NoDuplicates(Blocks())
    }

    /** The data sectors of the file. */
    function Blocks(): (b: seq<int>) {
      if 0 <= numSectors <= |data| then data[..numSectors] else []
    }
  }

  function EncodeHeader(h: Header): (s: Sector)
    requires |h.data| == NUM_DIRECT
  {
    WordsToBytes(IntsToWords([h.numBytes, h.numSectors] + h.data))
  }

  function DecodeHeader(s: Sector): (h: Header)
    ensures |h.data| == NUM_DIRECT
  {
    var xs := WordsToInts(BytesToWords(s));
    Header(xs[0], xs[1], xs[2..])
  }

  lemma HeaderRoundTrip(h: Header)
    requires |h.data| == NUM_DIRECT
    ensures DecodeHeader(EncodeHeader(h)) == h
  {
    var xs := [h.numBytes, h.numSectors] + h.data;
    WordsRoundTrip(IntsToWords(xs));
    assert WordsToInts(IntsToWords(xs)) == xs;
    assert xs[2..] == h.data;
  }

  // ---------------------------------------------------------------- file contents

  /** The bytes of the file with header h on disk d. */
  ghost function Contents(d: Image, h: Header): (c: seq<byte>)
    requires h.Valid()
    ensures |c| == h.numBytes
  {
    seq(h.numBytes, p requires 0 <= p < h.numBytes => d[h.data[p / SECTOR_SIZE]][p % SECTOR_SIZE])
  }

  /** c with the bytes of src laid over it from position p on. */
  function Splice(c: seq<byte>, p: nat, src: seq<byte>): (r: seq<byte>)
    requires p + |src| <= |c|
    ensures |r| == |c|
  {
    c[..p] + src + c[p + |src|..]
  }

  ghost predicate SameOutside(d: Image, d': Image, touched: seq<int>) {
    forall s | 0 <= s < NUM_SECTORS && s !in touched :: d'[s] == d[s]
  }

  /** A write that stays clear of a file's data sectors does not change the file. */
  lemma ContentsFrame(d: Image, d': Image, h: Header, touched: seq<int>)
    requires h.Valid() && SameOutside(d, d', touched)
    requires forall s | s in h.Blocks() :: s !in touched
    ensures Contents(d', h) == Contents(d, h)
  {
    forall p | 0 <= p < h.numBytes
      ensures Contents(d', h)[p] == Contents(d, h)[p]
    {
      assert h.Blocks()[p / SECTOR_SIZE] == h.data[p / SECTOR_SIZE];
    }
  }

  // ---------------------------------------------------------------- directory tables

  const FILE_NAME_MAX_LEN := 9
  const NUM_DIR_ENTRIES := 10
  const ENTRY_SIZE := 20

  /** filesys/directory.h: one slot of the directory; `name` is the raw character buffer. */
  datatype Entry = Entry(inUse: bool, sector: int32, name: seq<byte>) {
    predicate Valid() { |name| == FILE_NAME_MAX_LEN + 1 }
  }

  ghost predicate ValidTable(t: seq<Entry>) {
    forall i | 0 <= i < |t| :: t[i].Valid()
  }

  /** The in-memory image of an entry: a flag byte, three bytes of padding, the sector
      number, the name, two bytes of padding. */
  function EncodeEntry(e: Entry): (b: seq<byte>)
    requires e.Valid()
    ensures |b| == ENTRY_SIZE
  {
    [if e.inUse then 1 else 0, 0, 0, 0] + WordToBytes(ToWord(e.sector)) + e.name + [0, 0]
  }

  function DecodeEntry(b: seq<byte>): (e: Entry)
    requires |b| == ENTRY_SIZE
    ensures e.Valid()
  {
    Entry(b[0] != 0, ToInt(BytesToWord(b[4..8])), b[8..18])
  }

  lemma EntryRoundTrip(e: Entry)
    requires e.Valid()
    ensures DecodeEntry(EncodeEntry(e)) == e
  {
    var b := EncodeEntry(e);
    assert b[4..8] == WordToBytes(ToWord(e.sector));
    assert b[8..18] == e.name;
    WordRoundTrip(ToWord(e.sector));
  }

  function EncodeTable(t: seq<Entry>): (b: seq<byte>)
    requires forall i | 0 <= i < |t| :: t[i].Valid()
    ensures |b| == ENTRY_SIZE * |t|
  {
    seq(ENTRY_SIZE * |t|, i requires 0 <= i < ENTRY_SIZE * |t| => EncodeEntry(t[i / ENTRY_SIZE])[i % ENTRY_SIZE])
  }

  function DecodeTable(b: seq<byte>): (t: seq<Entry>)
    ensures |t| == |b| / ENTRY_SIZE
    ensures forall i | 0 <= i < |t| :: t[i].Valid()
  {
    seq(|b| / ENTRY_SIZE, i requires 0 <= i < |b| / ENTRY_SIZE =>
      DecodeEntry(b[ENTRY_SIZE * i..ENTRY_SIZE * i + ENTRY_SIZE]))
  }

  lemma TableRoundTrip(t: seq<Entry>)
    requires ValidTable(t)
    ensures DecodeTable(EncodeTable(t)) == t
  {
    var b := EncodeTable(t);
    forall i | 0 <= i < |t|
      ensures DecodeTable(b)[i] == t[i]
    {
      forall j | 0 <= j < ENTRY_SIZE
        ensures b[ENTRY_SIZE * i + j] == EncodeEntry(t[i])[j]
      {
        assert (ENTRY_SIZE * i + j) / ENTRY_SIZE == i && (ENTRY_SIZE * i + j) % ENTRY_SIZE == j;
      }
      assert b[ENTRY_SIZE * i..ENTRY_SIZE * i + ENTRY_SIZE] == EncodeEntry(t[i]);
      EntryRoundTrip(t[i]);
    }
  }
}
