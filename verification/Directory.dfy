/** filesys/directory.cc: the table of file names and header sectors. */
module Directories {
  import opened Words
  import opened Layout
  import opened FileHeaders
  import opened OpenFiles

  /** The characters of a C string, without its terminating NUL. */
  type CString = s: seq<byte> | 0 !in s

  /** The name a file goes by: file names count only up to FileNameMaxLen characters. */
  function Short(name: CString): (s: CString) {
    if |name| <= FILE_NAME_MAX_LEN then name else name[..FILE_NAME_MAX_LEN]
  }

  /** The string held in the first n bytes of a character buffer. */
  function Cut(raw: seq<byte>, n: nat): (s: CString) {
    if n == 0 || raw == [] || raw[0] == 0 then [] else [raw[0]] + Cut(raw[1..], n - 1)
  }

  /** strncmp(raw, name, n) == 0, character by character; `rest` is what is left of the
      string, read with its NUL. */
  predicate StrNCmpZero(raw: seq<byte>, rest: CString, n: nat)
    requires n <= |raw|
    decreases n
  {
    if n == 0 then true
    else if rest == [] then raw[0] == 0
    else raw[0] == rest[0] && StrNCmpZero(raw[1..], rest[1..], n - 1)
  }

  /** strncpy(buf, name, FileNameMaxLen): copy, pad with NULs, leave the last byte alone. */
  function StrNCpy(buf: seq<byte>, name: CString): (r: seq<byte>)
    requires |buf| == FILE_NAME_MAX_LEN + 1
    ensures |r| == |buf|
  {
    Short(name) + seq(FILE_NAME_MAX_LEN - |Short(name)|, _ => 0) + [buf[FILE_NAME_MAX_LEN]]
  }

  lemma {:induction false} StrNCmpIsPrefixEquality(raw: seq<byte>, name: CString, n: nat)
    requires n <= |raw|
    ensures StrNCmpZero(raw, name, n) <==> Cut(raw, n) == if |name| <= n then name else name[..n]
  {
    if n > 0 && name != [] {
      StrNCmpIsPrefixEquality(raw[1..], name[1..], n - 1);
      var whole := if |name| <= n then name else name[..n];
      var tail := if |name[1..]| <= n - 1 then name[1..] else name[1..][..n - 1];
      assert whole == [name[0]] + tail;
      if raw[0] != 0 && Cut(raw, n) == whole {
        assert Cut(raw, n)[1..] == Cut(raw[1..], n - 1) && whole[1..] == tail;
        assert raw[0] == Cut(raw, n)[0];
      }
    }
  }

  lemma {:induction false} CutPadded(s: CString, pad: seq<byte>, n: nat)
    requires |s| <= n && (|s| < n ==> pad != [] && pad[0] == 0)
    ensures Cut(s + pad, n) == s
  {
    if s != [] {
      CutPadded(s[1..], pad, n - 1);
      assert (s + pad)[1..] == s[1..] + pad;
    }
  }

  /** A stored name reads back as the short form of the name that was stored. */
  lemma StoredNameReadsBack(buf: seq<byte>, name: CString)
    requires |buf| == FILE_NAME_MAX_LEN + 1
    ensures Cut(StrNCpy(buf, name), FILE_NAME_MAX_LEN) == Short(name)
  {
    var pad := seq(FILE_NAME_MAX_LEN - |Short(name)|, _ => 0) + [buf[FILE_NAME_MAX_LEN]];
    CutPadded(Short(name), pad, FILE_NAME_MAX_LEN);
    assert StrNCpy(buf, name) == Short(name) + pad;
  }

  // ---------------------------------------------------------------- tables as values

  /** The name stored in an entry. */
  function NameOf(e: Entry): (s: CString)
  {
    Cut(e.name, FILE_NAME_MAX_LEN)
  }

  predicate Matches(e: Entry, name: CString) {
    e.inUse && NameOf(e) == Short(name)
  }

  /** i is the slot where a lookup of name ends, -1 if no entry in use has that name. */
  ghost predicate IsLookup(t: seq<Entry>, name: CString, i: int) {
    && -1 <= i < |t|
    && (i == -1 ==> forall j | 0 <= j < |t| :: !Matches(t[j], name))
    && (i != -1 ==> Matches(t[i], name) && forall j | 0 <= j < i :: !Matches(t[j], name))
  }

  ghost predicate IsFirstFree(t: seq<Entry>, i: int) {
    0 <= i < |t| && !t[i].inUse && forall j | 0 <= j < i :: t[j].inUse
  }

  class Directory {
    const tableSize: nat
    const table: array<Entry>

    ghost predicate Valid()
      reads table
    {
      tableSize == table.Length && ValidTable(table[..])
    }

    constructor (size: nat)
      ensures Valid() && fresh(table) && tableSize == size
      ensures forall i | 0 <= i < size :: !table[i].inUse
    {
      tableSize := size;
      table := new Entry[size];
      new;
      for i := 0 to size
        invariant forall j | 0 <= j < i :: table[j].Valid() && !table[j].inUse
      {
        var name := new byte[FILE_NAME_MAX_LEN + 1];
        var sector: int32 := *;
        table[i] := Entry(false, sector, name[..]);
      }
    }

    method FindIndex(name: CString) returns (i: int)
      requires Valid()
      ensures IsLookup(table[..], name, i)
    {
      i := 0;
      while i < tableSize
        invariant 0 <= i <= tableSize
        invariant forall j | 0 <= j < i :: !Matches(table[j], name)
      {
        StrNCmpIsPrefixEquality(table[i].name, name, FILE_NAME_MAX_LEN);
        if table[i].inUse && StrNCmpZero(table[i].name, name, FILE_NAME_MAX_LEN) {
          return;
        }
        i := i + 1;
      }
      return -1;
    }

    method Find(name: CString) returns (sector: int)
      requires Valid()
      ensures exists i {:trigger IsLookup(table[..], name, i)} :: IsLookup(table[..], name, i) &&
                sector == if i == -1 then -1 else table[i].sector
    {
      var i := FindIndex(name);
      if i != -1 {
        return table[i].sector;
      }
      return -1;
    }

    /** Takes the first free slot for a new name; fails exactly when the name is taken
        or the table is full, and then changes nothing. */
    method Add(name: CString, newSector: int32) returns (ok: bool)
      requires Valid()
      modifies table
      ensures Valid()
      ensures ok <==> IsLookup(old(table[..]), name, -1) && exists i | 0 <= i < tableSize :: !old(table[..])[i].inUse
      ensures !ok ==> table[..] == old(table[..])
      ensures ok ==> exists i: int, e: Entry :: IsFirstFree(old(table[..]), i) && e.Valid() && Matches(e, name)
                                    && e.sector == newSector && table[..] == old(table[..])[i := e]
    {
      var found := FindIndex(name);
      if found != -1 {
        return false;
      }
      for i := 0 to tableSize
        invariant table[..] == old(table[..])
        invariant forall j | 0 <= j < i :: table[j].inUse
      {
        if !table[i].inUse {
          StoredNameReadsBack(table[i].name, name);
          var e := Entry(true, newSector, StrNCpy(table[i].name, name));
          table[i] := e;
          assert IsFirstFree(old(table[..]), i) && table[..] == old(table[..])[i := e];
          return true;
        }
      }
      return false;
    }

    method Remove(name: CString) returns (ok: bool)
      requires Valid()
      modifies table
      ensures Valid()
      ensures exists i {:trigger IsLookup(old(table[..]), name, i)} :: IsLookup(old(table[..]), name, i) && ok == (i != -1) &&
                table[..] == if i == -1 then old(table[..]) else old(table[..])[i := old(table[..])[i].(inUse := false)]
    {
      var i := FindIndex(name);
      if i == -1 {
        return false;
      }
      table[i] := table[i].(inUse := false);
      return true;
    }

    /** Reads the table image from the file; slots past the end of a short file keep their value. */
    method FetchFrom(file: OpenFile)
      requires Valid() && file.Valid() && ENTRY_SIZE * tableSize < INT_LIMIT
      modifies table
      ensures Valid()
      ensures table[..] == DecodeTable(Overlay(EncodeTable(old(table[..])), file.Bytes()))
      ensures file.hdr.numBytes == ENTRY_SIZE * tableSize ==> table[..] == DecodeTable(file.Bytes())
    {
      var image := ReadImage(file, EncodeTable(table[..]));
      var t := DecodeTable(image);
      forall i | 0 <= i < tableSize { table[i] := t[i]; }
      assert table[..] == t;
    }

    /** Writes the table image to the file, as far as the file goes. */
    method WriteBack(file: OpenFile)
      requires Valid() && file.Valid() && ENTRY_SIZE * tableSize < INT_LIMIT
      modifies file.disk
      ensures SameOutside(old(file.disk.sectors), file.disk.sectors, file.hdr.Value().Blocks())
      ensures file.Bytes() == Overlay(old(file.Bytes()), EncodeTable(table[..]))
      ensures file.hdr.numBytes == ENTRY_SIZE * tableSize ==> DecodeTable(file.Bytes()) == table[..]
    {
      WriteImage(file, EncodeTable(table[..]));
      TableRoundTrip(table[..]);
    }
  }
}
