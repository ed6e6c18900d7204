/** How much room a volume has left, as a function of its files alone. */
module Accounting {
  import opened Words
  import opened Collections
  import opened DiskGeometry
  import opened Layout
  import opened BitMaps
  import opened Ownerships
  import opened FileHeaders
  import opened Directories
  import opened Volumes

  lemma {:induction false} CountClearAllFree(bits: seq<bool>)
    requires forall i | 0 <= i < |bits| :: !bits[i]
    ensures CountClear(bits) == |bits|
  {
    if bits != [] { CountClearAllFree(bits[..|bits| - 1]); }
  }

  lemma {:induction false} CountCleared(bits: seq<bool>, blocks: seq<int>)
    requires NoDuplicates(blocks) && forall s | s in blocks :: 0 <= s < |bits| && bits[s]
    ensures CountClear(Cleared(bits, blocks)) == CountClear(bits) + |blocks|
  {
    if blocks == [] {
      assert Cleared(bits, blocks) == bits;
    } else {
      var n := |blocks| - 1;
      var rest, s := blocks[..n], blocks[n];
      assert s in blocks && forall x | x in rest :: x in blocks;
      CountCleared(bits, rest);
      assert s !in rest;
      var mid := Cleared(bits, rest);
      assert Cleared(bits, blocks)[s := true] == mid;
      CountClearUpdate(Cleared(bits, blocks), s);
    }
  }

  lemma CountMarked(bits: seq<bool>, taken: seq<int>)
    requires TakenFrom(bits, taken)
    ensures CountClear(Marked(bits, taken)) == CountClear(bits) - |taken|
  {
    CountCleared(Marked(bits, taken), taken);
    assert Cleared(Marked(bits, taken), taken) == bits;
  }

  function TotalLength(own: Ownership): (n: nat) {
    if own == [] then 0 else |own[0]| + TotalLength(own[1..])
  }

  /** Every sector is either free or counted for exactly one owner. */
  lemma {:induction false} FreeSectors(own: Ownership, bits: seq<bool>)
    requires Partition(own, bits)
    ensures CountClear(bits) + TotalLength(own) == |bits|
  {
    if own == [] {
      assert forall s | 0 <= s < |bits| :: bits[s] <==> HasOwner(own, s);
      CountClearAllFree(bits);
    } else {
      PartitionShrink(own, bits, 0);
      assert forall s | s in own[0] :: HasOwner(own, s);
      CountCleared(bits, own[0]);
      PartitionDrop(own[0 := []], Cleared(bits, own[0]), 0);
      assert own[0 := []][..0] + own[0 := []][1..] == own[1..];
      FreeSectors(own[1..], Cleared(bits, own[0]));
    }
  }

  /** Sectors that a file takes, header included. */
  function SlotCost(c: Slot): (n: nat) {
    if c.Taken? then 1 + SectorsFor(|c.body|) else 0
  }

  /** Sectors that the files of a volume take. */
  function SectorsUsed(t: seq<Slot>): (n: nat) {
    if t == [] then 0 else SlotCost(t[0]) + SectorsUsed(t[1..])
  }

  lemma {:induction false} SectorsUsedUpdate(t: seq<Slot>, i: nat, c: Slot)
    requires i < |t|
    ensures SectorsUsed(t[i := c]) + SlotCost(t[i]) == SectorsUsed(t) + SlotCost(c)
  {
    if i > 0 {
      assert t[i := c][1..] == t[1..][i - 1 := c];
      SectorsUsedUpdate(t[1..], i - 1, c);
    } else {
      assert t[i := c][1..] == t[1..];
    }
  }

  const DATA_CAPACITY := NUM_SECTORS - 4

  /** How much room is left is a function of the file sizes alone. */
  lemma FreeSpace(d: Image)
    requires Inv(d)
    ensures CountClear(Bits(d)) == DATA_CAPACITY - SectorsUsed(Slots(d))
  {
    var own := Owners(d);
    FreeSectors(own, Bits(d));
    OwnedSectors(d);
    assert |MapHeader(d).Blocks()| == 1 && |DirHeader(d).Blocks()| == 1;
    assert own[1..][1..] == own[2..];
    EntryLengths(d);
  }

  lemma EntryLengths(d: Image)
    requires Readable(d)
    ensures TotalLength(Owners(d)[2..]) == SectorsUsed(Slots(d))
  {
    hide TotalLength, SectorsUsed, Contents, NameOf, DecodeTable;
    var own, t := Owners(d)[2..], Slots(d);
    OwnedSectors(d);
    forall k | 0 <= k < NUM_DIR_ENTRIES ensures |own[k]| == SlotCost(t[k]) {
      assert own[k] == Owners(d)[k + 2] == EntrySectors(d, Table(d)[k]);
    }
    LengthsAgree(own, t);
  }

  lemma {:induction false} LengthsAgree(own: Ownership, t: seq<Slot>)
    requires |own| == |t| && forall k | 0 <= k < |t| :: |own[k]| == SlotCost(t[k])
    ensures TotalLength(own) == SectorsUsed(t)
  {
    if t != [] { LengthsAgree(own[1..], t[1..]); }
  }

  lemma FileMapSnoc(t: seq<Slot>)
    requires DistinctSlots(t) && t != []
    ensures DistinctSlots(t[..|t| - 1])
    ensures t[|t| - 1].Taken? ==> t[|t| - 1].name !in FileMap(t[..|t| - 1])
    ensures FileMap(t).Keys == FileMap(t[..|t| - 1]).Keys + if t[|t| - 1].Taken? then {t[|t| - 1].name} else {}
  {
    var n := |t| - 1;
    var r := t[..n];
    assert forall i | 0 <= i < n :: r[i] == t[i];
    assert t[n].Taken? ==> t[n].name in FileMap(t);
    forall x | x in FileMap(r) ensures x in FileMap(t) {
      var i :| 0 <= i < n && r[i].Taken? && r[i].name == x;
      assert t[i].name in FileMap(t);
    }
  }

  lemma KeyCount<K, V>(m: map<K, V>, m': map<K, V>, extra: set<K>)
    requires m.Keys == m'.Keys + extra && m'.Keys !! extra
    ensures |m| == |m'| + |extra|
  {
    assert |m| == |m.Keys| && |m'| == |m'.Keys|;
  }

  function TakenCount(t: seq<Slot>): (n: nat) {
    if t == [] then 0 else TakenCount(t[..|t| - 1]) + if t[|t| - 1].Taken? then 1 else 0
  }

  lemma {:induction false} FileCount(t: seq<Slot>)
    requires DistinctSlots(t)
    ensures |FileMap(t)| == TakenCount(t)
  {
    if t != [] {
      var n := |t| - 1;
      FileMapSnoc(t);
      FileCount(t[..n]);
      KeyCount(FileMap(t), FileMap(t[..n]), if t[n].Taken? then {t[n].name} else {});
    }
  }

  lemma {:induction false} TakenCountFull(t: seq<Slot>)
    ensures TakenCount(t) <= |t|
    ensures TakenCount(t) < |t| <==> exists i :: 0 <= i < |t| && t[i].Vacant?
  {
    if t != [] {
      var r := t[..|t| - 1];
      TakenCountFull(r);
      assert forall i | 0 <= i < |r| :: r[i] == t[i];
      if t[|t| - 1].Vacant? { assert t[|t| - 1].Vacant?; }
    }
  }

  // ---------------------------------------------------------------- the same, on the map

  /** Sectors that a set of files takes on disk. */
  ghost function Footprint(m: map<CString, seq<byte>>): (n: nat)
    decreases |m|
  {
    if m == map[] then 0
    else
      var name :| name in m;
      1 + SectorsFor(|m[name]|) + Footprint(m - {name})
  }

  lemma {:induction false} FootprintRemove(m: map<CString, seq<byte>>, name: CString)
    requires name in m
    ensures Footprint(m) == 1 + SectorsFor(|m[name]|) + Footprint(m - {name})
    decreases |m|
  {
    var other :| other in m && Footprint(m) == 1 + SectorsFor(|m[other]|) + Footprint(m - {other});
    if other != name {
      FootprintRemove(m - {other}, name);
      FootprintRemove(m - {name}, other);
      assert m - {other} - {name} == m - {name} - {other};
    }
  }

  lemma {:induction false} SectorsUsedIsFootprint(t: seq<Slot>)
    requires DistinctSlots(t)
    ensures SectorsUsed(t) == Footprint(FileMap(t))
    decreases |FileMap(t)|
  {
    if i :| 0 <= i < |t| && t[i].Taken? {
      FileMapDelete(t, i);
      assert t[i].name in FileMap(t);
      SectorsUsedUpdate(t, i, Vacant);
      SectorsUsedIsFootprint(t[i := Vacant]);
      FootprintRemove(FileMap(t), t[i].name);
    } else {
      assert FileMap(t) == map[];
      VacantCostsNothing(t);
    }
  }

  lemma {:induction false} VacantCostsNothing(t: seq<Slot>)
    requires forall i | 0 <= i < |t| :: t[i].Vacant?
    ensures SectorsUsed(t) == 0
  {
    if t != [] { VacantCostsNothing(t[1..]); }
  }
}
