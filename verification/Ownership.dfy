/** Items managed by a bitmap, disk sectors or memory frames, and who owns which. */
module Ownerships {
  import opened BitMaps
  import opened Collections

  function Marked(bits: seq<bool>, blocks: seq<int>): (r: seq<bool>)
    ensures |r| == |bits|
  {
    seq(|bits|, i requires 0 <= i < |bits| => bits[i] || i in blocks)
  }

  function Cleared(bits: seq<bool>, blocks: seq<int>): (r: seq<bool>)
    ensures |r| == |bits|
  {
    seq(|bits|, i requires 0 <= i < |bits| => bits[i] && i !in blocks)
  }

  /** Items that were free in bits, each taken once. */
  ghost predicate TakenFrom(bits: seq<bool>, taken: seq<int>) {
    NoDuplicates(taken) && forall s | s in taken :: 0 <= s < |bits| && !bits[s]
  }

  lemma TakeOneMore(bits: seq<bool>, taken: seq<int>, s: int)
    requires TakenFrom(bits, taken) && 0 <= s < |bits| && !Marked(bits, taken)[s]
    ensures TakenFrom(bits, taken + [s])
    ensures Marked(bits, taken)[s := true] == Marked(bits, taken + [s])
    ensures CountClear(Marked(bits, taken + [s])) == CountClear(Marked(bits, taken)) - 1
  {
    var more := taken + [s];
    forall i, j | 0 <= i < j < |more| ensures more[i] != more[j] {
      assert more[i] in taken;
    }
    CountClearUpdate(Marked(bits, taken), s);
    assert Marked(bits, taken)[s := true] == Marked(bits, more);
  }

  /** own[k] lists the items of owner k. */
  type Ownership = seq<seq<int>>

  ghost predicate HasOwner(own: Ownership, s: int) {
    exists k :: 0 <= k < |own| && s in own[k]
  }

  /** The item that a search from the start finds. */
  ghost predicate FirstClear(bits: seq<bool>, s: int) {
    0 <= s < |bits| && !bits[s] && forall j | 0 <= j < s :: bits[j]
  }

  /** The items were found one after the other by such searches, each marked before the next. */
  ghost predicate InSearchOrder(bits: seq<bool>, items: seq<int>) {
    forall k | 0 <= k < |items| :: FirstClear(Marked(bits, items[..k]), items[k])
  }

  lemma SearchOnce(bits: seq<bool>, items: seq<int>, s: int)
    requires InSearchOrder(bits, items) && FirstClear(Marked(bits, items), s)
    ensures InSearchOrder(bits, items + [s])
  {
    var more := items + [s];
    forall k | 0 <= k < |more| ensures FirstClear(Marked(bits, more[..k]), more[k]) {
      assert more[..k] == items[..k];
      if k == |items| { assert items[..k] == items; }
    }
  }

  /** The first item was found by such a search, and the others by the next ones. */
  ghost predicate FirstFit(bits: seq<bool>, s: int, others: seq<int>) {
    FirstClear(bits, s) && InSearchOrder(bits[s := true], others)
  }

  lemma FirstFitStarts(bits: seq<bool>, s: int, others: seq<int>)
    requires FirstFit(bits, s, others) && others != []
    ensures FirstClear(bits, s) && FirstClear(bits[s := true], others[0])
  {
    assert FirstClear(Marked(bits[s := true], others[..0]), others[0]);
    assert Marked(bits[s := true], []) == bits[s := true];
  }

  /** The owners' items are pairwise disjoint and without repetition, and the marked
      bits are exactly the owned items. */
  ghost predicate Partition(own: Ownership, bits: seq<bool>) {
    && (forall k | 0 <= k < |own| :: NoDuplicates(own[k]))
    && (forall k, s | 0 <= k < |own| && s in own[k] :: 0 <= s < |bits|)
    && (forall j, k, s | 0 <= j < |own| && 0 <= k < |own| && j != k && s in own[j] :: s !in own[k])
    && (forall s | 0 <= s < |bits| :: bits[s] <==> HasOwner(own, s))
  }

  /** Giving a fresh owner items that were all free keeps the partition. */
  lemma PartitionGrow(own: Ownership, bits: seq<bool>, k: nat, got: seq<int>)
    requires Partition(own, bits) && k < |own| && own[k] == [] && NoDuplicates(got)
    requires forall s | s in got :: 0 <= s < |bits| && !bits[s]
    ensures Partition(own[k := got], Marked(bits, got))
  {
    var own', bits' := own[k := got], Marked(bits, got);
    forall j, s | 0 <= j < |own| && j != k && s in own[j] ensures s !in got {
      assert HasOwner(own, s);
    }
    forall s | 0 <= s < |bits| ensures bits'[s] <==> HasOwner(own', s) {
      if s in got {
        assert s in own'[k];
      } else if HasOwner(own, s) {
        var j :| 0 <= j < |own| && s in own[j];
        assert s in own'[j];
      }
    }
  }

  /** Freeing all items of one owner keeps the partition. */
  lemma PartitionShrink(own: Ownership, bits: seq<bool>, k: nat)
    requires Partition(own, bits) && k < |own|
    ensures Partition(own[k := []], Cleared(bits, own[k]))
  {
    var own', bits' := own[k := []], Cleared(bits, own[k]);
    forall s | 0 <= s < |bits| ensures bits'[s] <==> HasOwner(own', s) {
      if bits'[s] {
        var j :| 0 <= j < |own| && s in own[j];
        assert s in own'[j];
      }
    }
  }

  /** The bitmap is determined by the ownership. */
  lemma PartitionDetermines(own: Ownership, a: seq<bool>, b: seq<bool>)
    requires Partition(own, a) && Partition(own, b) && |a| == |b|
    ensures a == b
  {
    forall s | 0 <= s < |a| ensures a[s] == b[s] {
      assert a[s] <==> HasOwner(own, s);
    }
  }

  lemma HeadNotInTail(x: int, t: seq<int>)
    requires NoDuplicates([x] + t)
    ensures x !in t
  {
    assert forall j | 0 <= j < |t| :: ([x] + t)[0] != ([x] + t)[j + 1] == t[j];
  }

  lemma ConsNoDuplicates(x: int, t: seq<int>)
    requires NoDuplicates(t) && x !in t
    ensures NoDuplicates([x] + t)
  {
    var s := [x] + t;
    forall i, j | 0 <= i < j < |s| ensures s[i] != s[j] {
      assert s[j] == t[j - 1];
    }
  }

  lemma PartitionAdd(own: Ownership, bits: seq<bool>)
    requires Partition(own, bits)
    ensures Partition(own + [[]], bits)
  {
    var own' := own + [[]];
    forall s | 0 <= s < |bits| ensures bits[s] <==> HasOwner(own', s) {
      if bits[s] {
        var k :| 0 <= k < |own| && s in own[k];
        assert s in own'[k];
      }
    }
  }

  /** An owner of nothing can be dropped. */
  lemma PartitionDrop(own: Ownership, bits: seq<bool>, i: nat)
    requires Partition(own, bits) && i < |own| && own[i] == []
    ensures Partition(own[..i] + own[i + 1..], bits)
  {
    var own' := own[..i] + own[i + 1..];
    forall k | 0 <= k < |own'| ensures own'[k] == own[if k < i then k else k + 1] {}
    assert forall k, s | 0 <= k < |own'| && s in own'[k] :: s in own[if k < i then k else k + 1];
    forall s | 0 <= s < |bits| ensures bits[s] <==> HasOwner(own', s) {
      if bits[s] {
        var k :| 0 <= k < |own| && s in own[k];
        assert s in own'[if k < i then k else k - 1];
      } else {
        assert forall k | 0 <= k < |own| :: s !in own[k];
      }
    }
  }
}
