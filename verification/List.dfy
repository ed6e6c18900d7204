/** threads/list.cc: the singly linked list behind every kernel queue, used first-in first-out
    and, through its Sorted operations, as a priority queue. */
module Lists {
  import opened Collections

  /** A list element as a value: its sort key and its item. */
  datatype Keyed<+T> = Keyed(key: int, item: T)

  class ListElement<T> {
    var next: ListElement?<T>
    const key: int
    const item: T

    constructor (item: T, key: int)
      ensures this.item == item && this.key == key && next == null
    {
      this.item := item;
      this.key := key;
      next := null;
    }
  }

  // ---------------------------------------------------------------- sequences sorted by key

  ghost predicate Sorted<T>(s: seq<Keyed<T>>) {
    forall i, j :: 0 <= i < j < |s| ==> s[i].key <= s[j].key
  }

  /** Where SortedInsert puts a key: before the first element with a larger one. */
  function InsertPosition<T>(s: seq<Keyed<T>>, key: int): (p: nat)
    ensures p <= |s|
    ensures forall i | 0 <= i < p :: s[i].key <= key
    ensures p < |s| ==> key < s[p].key
  {
    if s == [] || key < s[0].key then 0 else 1 + InsertPosition(s[1..], key)
  }

  function Inserted<T>(s: seq<Keyed<T>>, e: Keyed<T>): (r: seq<Keyed<T>>) {
    var p := InsertPosition(s, e.key);
    s[..p] + [e] + s[p..]
  }

  /** Insertion keeps a sorted list sorted, adds exactly the new element, and puts it after
      every element with a key at most its own and before every element with a larger key. */
  lemma InsertedIsSorted<T>(s: seq<Keyed<T>>, e: Keyed<T>)
    requires Sorted(s)
    ensures Sorted(Inserted(s, e))
    ensures multiset(Inserted(s, e)) == multiset(s) + multiset{e}
    ensures forall i | InsertPosition(s, e.key) <= i < |s| :: e.key < s[i].key
  {
    InsertedElements(s, e);
    var p, r := InsertPosition(s, e.key), Inserted(s, e);
    hide Inserted;
    forall i, j | 0 <= i < j < |r| ensures r[i].key <= r[j].key {
      InsertedAt(s, e, i);
      InsertedAt(s, e, j);
    }
  }

  lemma InsertedAt<T>(s: seq<Keyed<T>>, e: Keyed<T>, i: nat)
    requires i < |Inserted(s, e)|
    ensures var p := InsertPosition(s, e.key);
      Inserted(s, e)[i] == (if i < p then s[i] else if i == p then e else s[i - 1])
    ensures |Inserted(s, e)| == |s| + 1
  {
  }

  lemma InsertedElements<T>(s: seq<Keyed<T>>, e: Keyed<T>)
    ensures multiset(Inserted(s, e)) == multiset(s) + multiset{e}
  {
    var p := InsertPosition(s, e.key);
    assert s == s[..p] + s[p..];
  }

  /** The head of a sorted list has the least key, and what is left is sorted. */
  lemma HeadIsMinimal<T>(s: seq<Keyed<T>>)
    requires Sorted(s) && s != []
    ensures Sorted(s[1..]) && forall e | e in s :: s[0].key <= e.key
    ensures multiset(s) == multiset{s[0]} + multiset(s[1..])
  {
    assert s == [s[0]] + s[1..];
  }

  lemma InsertPositionIs<T>(s: seq<Keyed<T>>, key: int, p: nat)
    requires p <= |s| && (forall i | 0 <= i < p :: s[i].key <= key) && (p < |s| ==> key < s[p].key)
    ensures InsertPosition(s, key) == p
  {
  }

  // ---------------------------------------------------------------- the linked list

  class List<T> {
    var first: ListElement?<T>
    var last: ListElement?<T>
    /** The cells from first to last, in order. */
    ghost var spine: seq<ListElement<T>>

    ghost predicate Valid()
      reads this, spine
    {
      && (forall i, j :: 0 <= i < j < |spine| ==> spine[i] != spine[j])
      && (spine == [] ==> first == null && last == null)
      && (spine != [] ==> first == spine[0] && last == spine[|spine| - 1] && last.next == null)
      && (forall i | 0 <= i < |spine| - 1 :: spine[i].next == spine[i + 1])
    }

    ghost function Contents(): (s: seq<Keyed<T>>)
      reads this
      ensures |s| == |spine|
    {
      seq(|spine|, i requires 0 <= i < |spine| reads this => Keyed(spine[i].key, spine[i].item))
    }

    lemma OnlyLastHasNoNext(k: nat)
      requires Valid() && k < |spine|
      ensures spine[k].next == null <==> k == |spine| - 1
    {
      assert k < |spine| - 1 ==> spine[k].next == spine[k + 1];
    }

    constructor ()
      ensures Valid() && Contents() == []
    {
      first, last, spine := null, null, [];
    }

    predicate IsEmpty()
      reads this, spine
      requires Valid()
      ensures IsEmpty() <==> Contents() == []
    {
      first == null
    }

    /** The only element of an empty list, or the one after the last. */
    method LinkLast(element: ListElement<T>)
      requires Valid() && element !in spine && element.next == null
      modifies this, spine
      ensures Valid() && spine == old(spine) + [element]
      ensures Contents() == old(Contents()) + [Keyed(element.key, element.item)]
    {
      if IsEmpty() {
        first := element;
        last := element;
      } else {
        last.next := element;
        last := element;
      }
      spine := spine + [element];
    }

    /** The only element of an empty list, or the one before the first. */
    method LinkFirst(element: ListElement<T>)
      requires Valid() && element !in spine && element.next == null
      modifies this, element
      ensures Valid() && spine == [element] + old(spine)
      ensures Contents() == [Keyed(element.key, element.item)] + old(Contents())
    {
      if IsEmpty() {
        first := element;
        last := element;
      } else {
        element.next := first;
        first := element;
      }
      spine := [element] + spine;
    }

    /** Links a new element in behind the k-th cell, which is not the last one. */
    method LinkAfter(ptr: ListElement<T>, element: ListElement<T>, ghost k: nat)
      requires Valid() && k < |spine| - 1 && ptr == spine[k] && element !in spine
      modifies this, ptr, element
      ensures Valid() && spine == old(spine)[..k + 1] + [element] + old(spine)[k + 1..]
      ensures Contents() == old(Contents())[..k + 1] + [Keyed(element.key, element.item)] + old(Contents())[k + 1..]
    {
      element.next := ptr.next;
      ptr.next := element;
      spine := spine[..k + 1] + [element] + spine[k + 1..];
    }

    method Append(item: T)
      requires Valid()
      modifies this, spine
      ensures Valid() && fresh(set c | c in spine && c !in old(spine))
      ensures Contents() == old(Contents()) + [Keyed(0, item)]
    {
      var element := new ListElement(item, 0);
      LinkLast(element);
    }

    method Prepend(item: T)
      requires Valid()
      modifies this
      ensures Valid() && fresh(set c | c in spine && c !in old(spine))
      ensures Contents() == [Keyed(0, item)] + old(Contents())
    {
      var element := new ListElement(item, 0);
      LinkFirst(element);
    }

    method Remove() returns (r: Option<T>)
      requires Valid()
      modifies this
      ensures Valid() && spine == if old(spine) == [] then [] else old(spine)[1..]
      ensures r.None? <==> old(Contents()) == []
      ensures r.None? ==> Contents() == []
      ensures r.Some? ==> r.value == old(Contents())[0].item && Contents() == old(Contents())[1..]
    {
      var e := SortedRemove();
      r := if e.None? then None else Some(e.value.item);
    }

    method SortedInsert(item: T, sortKey: int)
      requires Valid()
      modifies this, spine
      ensures Valid() && fresh(set c | c in spine && c !in old(spine))
      ensures Contents() == Inserted(old(Contents()), Keyed(sortKey, item))
    {
      var element := new ListElement(item, sortKey);
      ghost var s := Contents();
      if IsEmpty() {
        LinkLast(element);
      } else if sortKey < first.key {
        LinkFirst(element);
      } else {
        var ptr := first;
        ghost var k := 0;
        while ptr.next != null
          invariant 0 <= k < |spine| && ptr == spine[k]
          invariant forall i | 0 <= i <= k :: s[i].key <= sortKey
          decreases |spine| - k
        {
          assert k < |spine| - 1 && ptr.next == spine[k + 1] && s[k + 1].key == ptr.next.key;
          if sortKey < ptr.next.key {
            InsertPositionIs(s, sortKey, k + 1);
            LinkAfter(ptr, element, k);
            return;
          }
          ptr := ptr.next;
          k := k + 1;
        }
        OnlyLastHasNoNext(k);
        InsertPositionIs(s, sortKey, |s|);
        LinkLast(element);
      }
    }

    /** Takes the first element off the list, with its key. */
    method SortedRemove() returns (r: Option<Keyed<T>>)
      requires Valid()
      modifies this
      ensures Valid() && spine == if old(spine) == [] then [] else old(spine)[1..]
      ensures r.None? <==> old(Contents()) == []
      ensures r.None? ==> Contents() == []
      ensures r.Some? ==> r.value == old(Contents())[0] && Contents() == old(Contents())[1..]
    {
      if IsEmpty() {
        return None;
      }
      var element := first;
      if first == last {
        first := null;
        last := null;
      } else {
        first := element.next;
      }
      spine := spine[1..];
      return Some(Keyed(element.key, element.item));
    }
  }
}
