/** filesys/filehdr.cc and the sector interface of the disk it is stored on. */
module FileHeaders {
  import opened Words
  import opened DiskGeometry
  import opened Layout
  import opened BitMaps
  import opened Ownerships

  /** The disk as its synchronous users see it: whole sectors, read and written one at a time. */
  class Disk {
    var sectors: Image

    method ReadSector(sector: int, into: array<byte>, at: nat)
      requires 0 <= sector < NUM_SECTORS && at + SECTOR_SIZE <= into.Length
      modifies into
      ensures into[..] == old(into[..at]) + sectors[sector] + old(into[at + SECTOR_SIZE..])
    {
      var s := sectors[sector];
      forall i | 0 <= i < SECTOR_SIZE { into[at + i] := s[i]; }
    }

    method WriteSector(sector: int, from: array<byte>, at: nat)
      requires 0 <= sector < NUM_SECTORS && at + SECTOR_SIZE <= from.Length
      modifies this
      ensures sectors == old(sectors)[sector := from[at..at + SECTOR_SIZE]]
    {
      sectors := sectors[sector := from[at..at + SECTOR_SIZE]];
    }
  }

  /** How often the loop of Allocate goes round when that many sectors are clear. */
  function Rounds(fileSize: nat, clear: nat): (n: nat) {
    if clear < SectorsFor(fileSize) then 0 else SectorsFor(fileSize)
  }

  /** Allocate stays inside its sector table exactly when the file is not too big for a header,
      or too big for the disk. */
  lemma SizeFitsIff(fileSize: nat, clear: nat)
    ensures Rounds(fileSize, clear) <= NUM_DIRECT <==> fileSize <= MAX_FILE_SIZE || SectorsFor(fileSize) > clear
  {
  }

  class FileHeader {
    var numBytes: int32
    var numSectors: int32
    const dataSectors: array<int32>

    ghost predicate Shape() { dataSectors.Length == NUM_DIRECT }

    ghost function Value(): Header
      reads this, dataSectors
    {
      Header(numBytes, numSectors, dataSectors[..])
    }

    constructor ()
      ensures Shape() && fresh(dataSectors)
    {
      dataSectors := new int32[NUM_DIRECT];
    }

    /** Takes data sectors for a file of fileSize bytes out of the map of free sectors.
        Succeeds exactly when there are enough of them, and then every Find finds one. */
    method Allocate(freeMap: BitMap, fileSize: int32) returns (ok: bool)
      requires Shape() && freeMap.Valid() && freeMap.numBits == NUM_SECTORS
      requires 0 <= fileSize && (fileSize <= MAX_FILE_SIZE || SectorsFor(fileSize) > CountClear(freeMap.Bits()))
      modifies this, dataSectors, freeMap.words
      ensures ok <==> SectorsFor(fileSize) <= CountClear(old(freeMap.Bits()))
      ensures !ok ==> freeMap.Bits() == old(freeMap.Bits())
      ensures numBytes == fileSize && numSectors == SectorsFor(fileSize)
      ensures ok ==> Value().Valid()
      ensures ok ==> TakenFrom(old(freeMap.Bits()), Value().Blocks())
      ensures ok ==> freeMap.Bits() == Marked(old(freeMap.Bits()), Value().Blocks())
      ensures ok ==> InSearchOrder(old(freeMap.Bits()), Value().Blocks())
    {
      numBytes := fileSize;
      numSectors := SectorsFor(fileSize);
      var clear := freeMap.NumClear();
      if clear < numSectors {
        return false;
      }
      TakeSectors(freeMap);
      assert Value().Blocks() == dataSectors[..numSectors];
      assert forall i | 0 <= i < numSectors :: dataSectors[i] == Value().Blocks()[i] && dataSectors[i] in Value().Blocks();
      return true;
    }

    /** The allocation loop: one Find per data sector, none of which fails. */
    method TakeSectors(freeMap: BitMap)
      requires Shape() && freeMap.Valid() && freeMap.numBits == NUM_SECTORS
      requires 0 <= numSectors <= NUM_DIRECT && numSectors <= CountClear(freeMap.Bits())
      modifies dataSectors, freeMap.words
      ensures TakenFrom(old(freeMap.Bits()), dataSectors[..numSectors])
      ensures freeMap.Bits() == Marked(old(freeMap.Bits()), dataSectors[..numSectors])
      ensures InSearchOrder(old(freeMap.Bits()), dataSectors[..numSectors])
    {
      ghost var bits, taken := freeMap.Bits(), [];
      assert bits == Marked(bits, []);
      for i := 0 to numSectors
        invariant taken == dataSectors[..i] && TakenFrom(bits, taken)
        invariant freeMap.Bits() == Marked(bits, taken) && InSearchOrder(bits, taken)
        invariant CountClear(freeMap.Bits()) == CountClear(bits) - i
      {
        var s := freeMap.Find();
        TakeOneMore(bits, taken, s);
        SearchOnce(bits, taken, s);
        dataSectors[i] := s;
        taken := taken + [s];
      }
    }

    /** Gives the data sectors back; all of them "ought to be marked". */
    method Deallocate(freeMap: BitMap)
      requires Value().Valid() && freeMap.Valid() && freeMap.numBits == NUM_SECTORS
      requires forall s | s in Value().Blocks() :: freeMap.Bits()[s]
      requires dataSectors as object != freeMap.words
      modifies freeMap.words
      ensures freeMap.Bits() == Cleared(old(freeMap.Bits()), Value().Blocks())
    {
      ghost var bits := freeMap.Bits();
      assert bits == Cleared(bits, []);
      for i := 0 to numSectors
        invariant freeMap.Bits() == Cleared(bits, dataSectors[..i])
      {
        assert dataSectors[i] == Value().Blocks()[i];
        assert forall j | 0 <= j < i :: dataSectors[j] == Value().Blocks()[j];
        var marked := freeMap.Test(dataSectors[i]);
        assert marked;
        freeMap.Clear(dataSectors[i]);
        assert dataSectors[..i + 1] == dataSectors[..i] + [dataSectors[i]];
      }
    }

    method FetchFrom(disk: Disk, sector: int)
      requires Shape() && 0 <= sector < NUM_SECTORS
      modifies this, dataSectors
      ensures Value() == DecodeHeader(disk.sectors[sector])
    {
      var h := DecodeHeader(disk.sectors[sector]);
      numBytes, numSectors := h.numBytes, h.numSectors;
      forall i | 0 <= i < NUM_DIRECT { dataSectors[i] := h.data[i]; }
    }

    method WriteBack(disk: Disk, sector: int)
      requires Shape() && 0 <= sector < NUM_SECTORS
      modifies disk
      ensures disk.sectors == old(disk.sectors)[sector := EncodeHeader(Value())]
      ensures DecodeHeader(disk.sectors[sector]) == Value()
    {
      var h := Header(numBytes, numSectors, dataSectors[..]);
      disk.sectors := disk.sectors[sector := EncodeHeader(h)];
      HeaderRoundTrip(h);
    }

    function ByteToSector(offset: nat): (s: int)
      requires Value().Valid() && offset < numBytes
      reads this, dataSectors
      ensures 0 <= s < NUM_SECTORS && s in Value().Blocks()
    {
      assert Value().Blocks()[offset / SECTOR_SIZE] == dataSectors[offset / SECTOR_SIZE];
      dataSectors[offset / SECTOR_SIZE]
    }
  }
}
