/** filesys/openfile.cc: reading and writing byte ranges of a file over a disk that only
    transfers whole sectors. */
module OpenFiles {
  import opened Words
  import opened DiskGeometry
  import opened Layout
  import opened FileHeaders

  function Min(a: int, b: int): int { if a < b then a else b }

  /** How much of a request lies inside the file. */
  function Clip(numBytes: int, position: nat, fileLength: nat): (n: nat) {
    if position < fileLength && numBytes > 0 then Min(numBytes, fileLength - position) else 0
  }

  /** How many bytes a request transfers, with the range test done in C `int` arithmetic. */
  function TransferSize(numBytes: int32, position: int32, fileLength: int32): (n: int32)
    requires 0 <= position && 0 <= fileLength
    ensures n >= 0 && (numBytes >= 0 ==> n <= numBytes)
  {
    if numBytes <= 0 || position >= fileLength then 0
    else if Wrap(position + numBytes) > fileLength then fileLength - position
    else numBytes
  }

  /** The request is clipped to the file exactly when the end of the request fits an int:
      past that, the sum wraps below zero, the test passes, and nothing is clipped. */
  lemma ClippingIsExact(numBytes: int32, position: int32, fileLength: int32)
    requires 0 <= position < fileLength && numBytes > 0
    ensures TransferSize(numBytes, position, fileLength) == Min(numBytes, fileLength - position)
            <==> position + numBytes < INT_LIMIT
  {
    if position + numBytes >= INT_LIMIT {
      assert (position + numBytes) % WORD_LIMIT == position + numBytes;
      assert Wrap(position + numBytes) == position + numBytes - WORD_LIMIT;
    } else {
      assert Wrap(position + numBytes) == position + numBytes;
    }
  }

  /** A concrete request that is not clipped: a one-sector file asked for INT_MAX bytes at 1. */
  lemma HugeRequestEscapesClipping()
    ensures TransferSize(0x7fff_ffff, 1, 512) == 0x7fff_ffff
  {
    ClippingIsExact(0x7fff_ffff, 1, 512);
    assert Wrap(0x8000_0000) == -0x8000_0000;
  }

  /** bcopy(src + s, dst + d, n) between distinct buffers. */
  method CopyBytes(src: array<byte>, s: nat, dst: array<byte>, d: nat, n: nat)
    requires s + n <= src.Length && d + n <= dst.Length && src != dst
    modifies dst
    ensures dst[..] == Splice(old(dst[..]), d, src[s..s + n])
  {
    forall k | 0 <= k < n { dst[d + k] := src[s + k]; }
  }

  /** base with its beginning replaced by src, as far as both go. */
  function Overlay(base: seq<byte>, src: seq<byte>): (r: seq<byte>)
    ensures |r| == |base|
    ensures |src| == |base| ==> r == src
  {
    if |src| <= |base| then src + base[|src|..] else src[..|base|]
  }

  method FromSeq(s: seq<byte>) returns (a: array<byte>)
    ensures fresh(a) && a[..] == s
  {
    a := new byte[|s|](i requires 0 <= i < |s| => s[i]);
  }

  // ---------------------------------------------------------------- runs of sectors, as values

  /** The sectors a non-empty byte range touches. */
  lemma Span(position: nat, n: nat, fileLength: nat, first: nat, last: nat)
    requires 0 < n && position + n <= fileLength
    requires first == position / SECTOR_SIZE && last == (position + n - 1) / SECTOR_SIZE
    ensures first <= last < SectorsFor(fileLength)
    ensures first * SECTOR_SIZE <= position < first * SECTOR_SIZE + SECTOR_SIZE
    ensures last * SECTOR_SIZE < position + n <= last * SECTOR_SIZE + SECTOR_SIZE
  {
  }

  /** The k-th sector-sized piece of a buffer. */
  function Piece(buf: seq<byte>, k: nat): (s: Sector)
    requires (k + 1) * SECTOR_SIZE <= |buf|
  {
    buf[k * SECTOR_SIZE..k * SECTOR_SIZE + SECTOR_SIZE]
  }

  /** Data sectors first .. last of a file, one after the other. */
  ghost function Gather(d: Image, h: Header, first: nat, last: nat): (b: seq<byte>)
    requires h.Valid() && first <= last <= h.numSectors
    ensures |b| == (last - first) * SECTOR_SIZE
  {
    if first == last then [] else Gather(d, h, first, last - 1) + d[h.data[last - 1]]
  }

  /** The disk after pieces of b went to data sectors first .. last of a file. */
  ghost function Scatter(d: Image, h: Header, first: nat, last: nat, b: seq<byte>): (r: Image)
    requires h.Valid() && first <= last <= h.numSectors && (last - first) * SECTOR_SIZE <= |b|
  {
    if first == last then d
    else Scatter(d, h, first, last - 1, b)[h.data[last - 1] := Piece(b, last - 1 - first)]
  }

  lemma {:induction false} GatherAt(d: Image, h: Header, first: nat, last: nat, p: nat)
    requires h.Valid() && first <= last <= h.numSectors
    requires first * SECTOR_SIZE <= p < last * SECTOR_SIZE && p < h.numBytes
    ensures Gather(d, h, first, last)[p - first * SECTOR_SIZE] == Contents(d, h)[p]
  {
    if p < (last - 1) * SECTOR_SIZE {
      GatherAt(d, h, first, last - 1, p);
    } else {
      assert p / SECTOR_SIZE == last - 1 && p % SECTOR_SIZE == p - (last - 1) * SECTOR_SIZE;
    }
  }

  /** The wanted range of a gathered run is that range of the file. */
  lemma GatherRange(d: Image, h: Header, first: nat, last: nat, p: nat, n: nat)
    requires h.Valid() && first <= last <= h.numSectors
    requires first * SECTOR_SIZE <= p && p + n <= last * SECTOR_SIZE && p + n <= h.numBytes
    ensures Gather(d, h, first, last)[p - first * SECTOR_SIZE..p - first * SECTOR_SIZE + n]
            == Contents(d, h)[p..p + n]
  {
    hide Contents, Gather;
    var got, want := Gather(d, h, first, last)[p - first * SECTOR_SIZE..p - first * SECTOR_SIZE + n], Contents(d, h)[p..p + n];
    forall k | 0 <= k < n ensures got[k] == want[k] {
      GatherAt(d, h, first, last, p + k);
    }
    assert got == want;
  }

  lemma {:induction false} ScatterAt(d: Image, h: Header, first: nat, last: nat, b: seq<byte>, i: nat)
    requires h.Valid() && first <= last <= h.numSectors && (last - first) * SECTOR_SIZE <= |b|
    requires i < h.numSectors
    ensures Scatter(d, h, first, last, b)[h.data[i]]
            == if first <= i < last then Piece(b, i - first) else d[h.data[i]]
  {
    if first < last {
      ScatterAt(d, h, first, last - 1, b, i);
      assert h.Blocks()[i] == h.data[i] && h.Blocks()[last - 1] == h.data[last - 1];
    }
  }

  lemma {:induction false} ScatterOutside(d: Image, h: Header, first: nat, last: nat, b: seq<byte>)
    requires h.Valid() && first <= last <= h.numSectors && (last - first) * SECTOR_SIZE <= |b|
    ensures SameOutside(d, Scatter(d, h, first, last, b), h.Blocks())
  {
    if first < last {
      ScatterOutside(d, h, first, last - 1, b);
      assert h.Blocks()[last - 1] == h.data[last - 1];
    }
  }

  /** What the sector buffer of a write must hold before it goes to disk: inside the file,
      the new bytes over the old contents. */
  ghost predicate BufferReady(buf: seq<byte>, base: nat, want: seq<byte>) {
    forall p | base <= p < base + |buf| && p < |want| :: buf[p - base] == want[p]
  }

  /** Scattering a ready buffer over the sectors of the request turns the file into want,
      provided want and the old contents agree outside those sectors. */
  lemma ScatterContents(d: Image, h: Header, first: nat, last: nat, b: seq<byte>, want: seq<byte>)
    requires h.Valid() && first <= last <= h.numSectors && |b| == (last - first) * SECTOR_SIZE
    requires |want| == h.numBytes && BufferReady(b, first * SECTOR_SIZE, want)
    requires forall p | 0 <= p < h.numBytes && !(first * SECTOR_SIZE <= p < last * SECTOR_SIZE) ::
               want[p] == Contents(d, h)[p]
    ensures Contents(Scatter(d, h, first, last, b), h) == want
  {
    var got := Contents(Scatter(d, h, first, last, b), h);
    forall p | 0 <= p < h.numBytes ensures got[p] == want[p] {
      var i := p / SECTOR_SIZE;
      ScatterAt(d, h, first, last, b, i);
      if first <= i < last {
        assert Piece(b, i - first)[p % SECTOR_SIZE] == b[p - first * SECTOR_SIZE];
      }
    }
  }

  /** Case analysis of the read-modify-write: sectors first and last are only partly
      overwritten, and what had to be saved of them has been read. */
  lemma ReadModifyWrite(c: seq<byte>, src: seq<byte>, position: nat, first: nat, last: nat, read: seq<byte>)
    requires 0 < |src| && position + |src| <= |c|
    requires first == position / SECTOR_SIZE && last == (position + |src| - 1) / SECTOR_SIZE
    requires |read| == (1 + last - first) * SECTOR_SIZE
    requires position != first * SECTOR_SIZE ==> Saved(c, first, read, 0)
    requires position + |src| != (last + 1) * SECTOR_SIZE ==> Saved(c, last, read, (last - first) * SECTOR_SIZE)
    ensures BufferReady(Splice(read, position - first * SECTOR_SIZE, src), first * SECTOR_SIZE, Splice(c, position, src))
  {
    var base := first * SECTOR_SIZE;
    var got, want := Splice(read, position - base, src), Splice(c, position, src);
    forall p | base <= p < base + |read| && p < |want| ensures got[p - base] == want[p] {
      if p < position {
        SavedAt(c, first, read, 0, p - base);
      } else if p >= position + |src| {
        SavedAt(c, last, read, (last - first) * SECTOR_SIZE, p - last * SECTOR_SIZE);
      }
    }
  }

  lemma SavedAt(c: seq<byte>, i: nat, buf: seq<byte>, at: nat, k: nat)
    requires Saved(c, i, buf, at) && k < SECTOR_SIZE && i * SECTOR_SIZE + k < |c|
    ensures buf[at + k] == c[i * SECTOR_SIZE + k]
  {
    var n := SavedCount(c, i);
    assert buf[at..at + n][k] == c[i * SECTOR_SIZE..i * SECTOR_SIZE + n][k];
  }

  /** How many bytes of sector i of the file lie inside the file. */
  function SavedCount(c: seq<byte>, i: nat): (n: int) {
    Min(SECTOR_SIZE, |c| - i * SECTOR_SIZE)
  }

  /** Sector i of the file, as far as the file goes, sits in the buffer from index at on. */
  ghost predicate Saved(c: seq<byte>, i: nat, buf: seq<byte>, at: nat) {
    && i * SECTOR_SIZE <= |c| && at + SECTOR_SIZE <= |buf|
    && buf[at..at + SavedCount(c, i)] == c[i * SECTOR_SIZE..i * SECTOR_SIZE + SavedCount(c, i)]
  }

  lemma SavedKept(c: seq<byte>, i: nat, before: seq<byte>, after: seq<byte>)
    requires |before| == |after| >= SECTOR_SIZE && before[..SECTOR_SIZE] == after[..SECTOR_SIZE]
    ensures Saved(c, i, before, 0) ==> Saved(c, i, after, 0)
  {
    if Saved(c, i, before, 0) {
      var n := SavedCount(c, i);
      assert after[0..n] == after[..SECTOR_SIZE][..n] == before[..SECTOR_SIZE][..n] == before[0..n];
    }
  }

  class OpenFile {
    const disk: Disk
    const hdr: FileHeader
    var seekPosition: int32

    ghost predicate Valid()
      reads hdr, hdr.dataSectors
    {
      hdr.Value().Valid()
    }

    ghost function Bytes(): (c: seq<byte>)
      requires Valid()
      reads disk, hdr, hdr.dataSectors
    {
      Contents(disk.sectors, hdr.Value())
    }

    constructor (disk: Disk, sector: int)
      requires 0 <= sector < NUM_SECTORS && DecodeHeader(disk.sectors[sector]).Valid()
      ensures Valid() && fresh(hdr) && fresh(hdr.dataSectors)
      ensures this.disk == disk && seekPosition == 0
      ensures hdr.Value() == DecodeHeader(disk.sectors[sector])
    {
      var h := new FileHeader();
      h.FetchFrom(disk, sector);
      this.disk := disk;
      hdr := h;
      seekPosition := 0;
    }

    method Seek(position: int32)
      modifies this
      ensures seekPosition == position
    {
      seekPosition := position;
    }

    /** Copies the requested range of the file to into[at..]; nothing else in it changes. */
    method ReadAt(into: array<byte>, at: nat, numBytes: int32, position: int32) returns (n: int32)
      requires Valid() && 0 <= position && position + numBytes < INT_LIMIT
      requires at + TransferSize(numBytes, position, hdr.numBytes) <= into.Length
      modifies into
      ensures n == Clip(numBytes, position, hdr.numBytes)
      ensures into[..] == Splice(old(into[..]), at, if n > 0 then Bytes()[position..position + n] else [])
    {
      var fileLength := hdr.numBytes;
      if numBytes <= 0 || position >= fileLength {
        return 0;
      }
      ClippingIsExact(numBytes, position, fileLength);
      n := if Wrap(position + numBytes) > fileLength then fileLength - position else numBytes;
      ReadRange(into, at, n, position);
    }

    /** The request after clipping: read all sectors it touches, copy the part we want. */
    method ReadRange(into: array<byte>, at: nat, n: int32, position: int32)
      requires Valid() && 0 <= position < position + n <= hdr.numBytes && at + n <= into.Length
      modifies into
      ensures into[..] == Splice(old(into[..]), at, Bytes()[position..position + n])
    {
      var first := position / SECTOR_SIZE;
      var last := (position + n - 1) / SECTOR_SIZE;
      hide Contents, Gather, Splice;
      Span(position, n, hdr.numBytes, first, last);
      var buf := ReadSectors(first, last);
      var skip := position - first * SECTOR_SIZE;
      GatherRange(disk.sectors, hdr.Value(), first, last + 1, position, n);
      CopyBytes(buf, skip, into, at, n);
    }

    method ReadSectors(first: nat, last: nat) returns (buf: array<byte>)
      requires Valid() && first <= last && last * SECTOR_SIZE < hdr.numBytes
      ensures fresh(buf) && buf[..] == Gather(disk.sectors, hdr.Value(), first, last + 1)
    {
      buf := new byte[(1 + last - first) * SECTOR_SIZE];
      for i := first to last + 1
        invariant buf[..(i - first) * SECTOR_SIZE] == Gather(disk.sectors, hdr.Value(), first, i)
      {
        disk.ReadSector(hdr.ByteToSector(i * SECTOR_SIZE), buf, (i - first) * SECTOR_SIZE);
        assert buf[..(i + 1 - first) * SECTOR_SIZE]
            == Gather(disk.sectors, hdr.Value(), first, i) + disk.sectors[hdr.dataSectors[i]];
      }
      assert buf[..] == buf[..(last + 1 - first) * SECTOR_SIZE];
    }

    /** Replaces bytes position .. position+n of the file by from[..n], n clipped to the
        file; every other byte of the file, and every other sector of the disk, stays. */
    method WriteAt(from: array<byte>, numBytes: int32, position: int32) returns (n: int32)
      requires Valid() && 0 <= position && position + numBytes < INT_LIMIT
      requires TransferSize(numBytes, position, hdr.numBytes) <= from.Length
      modifies disk
      ensures n == Clip(numBytes, position, hdr.numBytes)
      ensures Bytes() == if n > 0 then Splice(old(Bytes()), position, from[..n]) else old(Bytes())
      ensures SameOutside(old(disk.sectors), disk.sectors, hdr.Value().Blocks())
      ensures n == 0 ==> disk.sectors == old(disk.sectors)
    {
      var fileLength := hdr.numBytes;
      if numBytes <= 0 || position >= fileLength {
        return 0;
      }
      ClippingIsExact(numBytes, position, fileLength);
      n := if Wrap(position + numBytes) > fileLength then fileLength - position else numBytes;
      WriteRange(from, n, position);
    }

    /** The request after clipping: save what is only partly overwritten, write all sectors back. */
    method WriteRange(from: array<byte>, n: int32, position: int32)
      requires Valid() && 0 <= position < position + n <= hdr.numBytes && n <= from.Length
      modifies disk
      ensures Bytes() == Splice(old(Bytes()), position, from[..n])
      ensures SameOutside(old(disk.sectors), disk.sectors, hdr.Value().Blocks())
    {
      var first := position / SECTOR_SIZE;
      var last := (position + n - 1) / SECTOR_SIZE;
      Span(position, n, hdr.numBytes, first, last);
      var buf := FillBuffer(from, n, position, first, last);
      ghost var h, want := hdr.Value(), Splice(Bytes(), position, from[..n]);
      ScatterOutside(disk.sectors, h, first, last + 1, buf[..]);
      ScatterContents(disk.sectors, h, first, last + 1, buf[..], want);
      WriteSectors(buf, first, last);
    }

    method WriteSectors(buf: array<byte>, first: nat, last: nat)
      requires Valid() && first <= last < hdr.numSectors && buf.Length == (1 + last - first) * SECTOR_SIZE
      modifies disk
      ensures disk.sectors == Scatter(old(disk.sectors), hdr.Value(), first, last + 1, buf[..])
    {
      for i := first to last + 1
        invariant disk.sectors == Scatter(old(disk.sectors), hdr.Value(), first, i, buf[..])
      {
        disk.WriteSector(hdr.ByteToSector(i * SECTOR_SIZE), buf, (i - first) * SECTOR_SIZE);
      }
    }

    /** Reads the first and last sector where they are only partly overwritten, then copies
        in the new bytes. */
    method FillBuffer(from: array<byte>, n: int32, position: int32, first: nat, last: nat)
      returns (buf: array<byte>)
      requires Valid() && 0 <= position < position + n <= hdr.numBytes && n <= from.Length
      requires first == position / SECTOR_SIZE && last == (position + n - 1) / SECTOR_SIZE
      ensures fresh(buf) && buf.Length == (1 + last - first) * SECTOR_SIZE
      ensures BufferReady(buf[..], first * SECTOR_SIZE, Splice(Bytes(), position, from[..n]))
    {
      hide Contents, Splice, Saved, BufferReady;
      Span(position, n, hdr.numBytes, first, last);
      buf := new byte[(1 + last - first) * SECTOR_SIZE];
      SavePartial(buf, n, position, first, last);
      ghost var src := from[0..n];
      ReadModifyWrite(Bytes(), src, position, first, last, buf[..]);
      CopyBytes(from, 0, buf, position - first * SECTOR_SIZE, n);
    }

    method SavePartial(buf: array<byte>, n: int32, position: int32, first: nat, last: nat)
      requires Valid() && first <= last < hdr.numSectors && buf.Length == (1 + last - first) * SECTOR_SIZE
      requires first * SECTOR_SIZE <= position && position + n <= (last + 1) * SECTOR_SIZE
      modifies buf
      ensures position != first * SECTOR_SIZE ==> Saved(Bytes(), first, buf[..], 0)
      ensures position + n != (last + 1) * SECTOR_SIZE ==> Saved(Bytes(), last, buf[..], (last - first) * SECTOR_SIZE)
    {
      var firstAligned := position == first * SECTOR_SIZE;
      var lastAligned := position + n == (last + 1) * SECTOR_SIZE;
      if !firstAligned {
        ReadWhole(buf, 0, first);
      }
      if !lastAligned && (first != last || firstAligned) {
        ghost var before := buf[..];
        ReadWhole(buf, (last - first) * SECTOR_SIZE, last);
        if first != last {
          assert buf[..SECTOR_SIZE] == before[..SECTOR_SIZE] by {
            assert buf[..(last - first) * SECTOR_SIZE][..SECTOR_SIZE] == buf[..SECTOR_SIZE];
            assert before[..(last - first) * SECTOR_SIZE][..SECTOR_SIZE] == before[..SECTOR_SIZE];
          }
          SavedKept(Bytes(), first, before, buf[..]);
        }
      }
    }

    /** ReadAt for one whole sector of the file, as far as the file goes. */
    method ReadWhole(buf: array<byte>, at: nat, i: nat)
      requires Valid() && i * SECTOR_SIZE < hdr.numBytes && at + SECTOR_SIZE <= buf.Length
      modifies buf
      ensures buf[..at] == old(buf[..at])
      ensures Saved(Bytes(), i, buf[..], at)
    {
      var n := ReadAt(buf, at, SECTOR_SIZE, i * SECTOR_SIZE);
      assert buf[at..at + n] == Bytes()[i * SECTOR_SIZE..i * SECTOR_SIZE + n];
    }

    method Read(into: array<byte>, numBytes: int32) returns (n: int32)
      requires Valid() && 0 <= seekPosition && seekPosition + numBytes < INT_LIMIT
      requires TransferSize(numBytes, seekPosition, hdr.numBytes) <= into.Length
      modifies this, into
      ensures n == if old(seekPosition) < hdr.numBytes && numBytes > 0
                   then Min(numBytes, hdr.numBytes - old(seekPosition)) else 0
      ensures seekPosition == old(seekPosition) + n
      ensures n > 0 ==> into[..n] == Bytes()[old(seekPosition)..seekPosition]
      ensures into[n..] == old(into[n..])
    {
      n := ReadAt(into, 0, numBytes, seekPosition);
      seekPosition := seekPosition + n;
    }

    method Write(from: array<byte>, numBytes: int32) returns (n: int32)
      requires Valid() && 0 <= seekPosition && seekPosition + numBytes < INT_LIMIT
      requires TransferSize(numBytes, seekPosition, hdr.numBytes) <= from.Length
      modifies this, disk
      ensures n == if old(seekPosition) < hdr.numBytes && numBytes > 0
                   then Min(numBytes, hdr.numBytes - old(seekPosition)) else 0
      ensures seekPosition == old(seekPosition) + n
      ensures Bytes() == if n > 0 then Splice(old(Bytes()), old(seekPosition), from[..n]) else old(Bytes())
      ensures SameOutside(old(disk.sectors), disk.sectors, hdr.Value().Blocks())
    {
      n := WriteAt(from, numBytes, seekPosition);
      seekPosition := seekPosition + n;
    }
  }

  lemma OverlayIsSplice(base: seq<byte>, src: seq<byte>, n: nat)
    requires n == Min(|base|, |src|)
    ensures Overlay(base, src) == Splice(base, 0, src[..n])
  {
  }

  /** file->ReadAt((char *) table, size, 0) into a table whose memory image was `memory`. */
  method ReadImage(file: OpenFile, memory: seq<byte>) returns (image: seq<byte>)
    requires file.Valid() && |memory| < INT_LIMIT
    ensures image == Overlay(memory, file.Bytes())
  {
    var buf := FromSeq(memory);
    var n := file.ReadAt(buf, 0, |memory|, 0);
    image := buf[..];
    OverlayIsSplice(memory, file.Bytes(), n);
  }

  /** file->WriteAt((char *) table, size, 0) from a table with that memory image. */
  method WriteImage(file: OpenFile, image: seq<byte>)
    requires file.Valid() && |image| < INT_LIMIT
    modifies file.disk
    ensures file.Bytes() == Overlay(old(file.Bytes()), image)
    ensures SameOutside(old(file.disk.sectors), file.disk.sectors, file.hdr.Value().Blocks())
  {
    var buf := FromSeq(image);
    var n := file.WriteAt(buf, |image|, 0);
    OverlayIsSplice(old(file.Bytes()), image, n);
  }

  /** Reading back what was just written returns it. */
  method WriteThenRead(file: OpenFile, from: array<byte>, into: array<byte>, numBytes: int32, position: int32)
    returns (n: int32)
    requires file.Valid() && 0 <= position && position + numBytes < INT_LIMIT
    requires 0 <= numBytes <= from.Length && numBytes <= into.Length && from != into
    modifies file.disk, into
    ensures 0 <= n <= numBytes && into[..n] == from[..n]
    ensures n == numBytes <==> position + numBytes <= file.hdr.numBytes || numBytes == 0
  {
    var w := file.WriteAt(from, numBytes, position);
    n := file.ReadAt(into, 0, numBytes, position);
    assert n > 0 ==> file.Bytes()[position..position + n] == from[..n];
  }
}
