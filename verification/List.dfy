/** lib/list.cc: a singly linked list with pointers to both ends, refining a sequence of distinct items, and
    its sorted variant. */
module Lists {
  import opened Collections

  // ---- what the sorted variant does to a sequence ----

  /** How many items from the front do not come after the new one. */
  function PlaceFor<T>(s: seq<T>, item: T, compare: (T, T) -> int): (k: nat)
    ensures k <= |s|
    ensures forall i :: 0 <= i < k ==> compare(item, s[i]) >= 0
    ensures k < |s| ==> compare(item, s[k]) < 0
  {
    if s == [] || compare(item, s[0]) < 0 then 0 else 1 + PlaceFor(s[1..], item, compare)
  }

  function Inserted<T>(s: seq<T>, item: T, compare: (T, T) -> int): (r: seq<T>)
    ensures |r| == |s| + 1
  {
    var k := PlaceFor(s, item, compare);
    s[..k] + [item] + s[k..]
  }

  ghost predicate Sorted<T>(s: seq<T>, compare: (T, T) -> int) {
    forall i, j :: 0 <= i < j < |s| ==> compare(s[i], s[j]) <= 0
  }

  /** What a compare function has to be for sorting to mean anything. */
  ghost predicate Ordering<T(!new)>(compare: (T, T) -> int) {
    && (forall x, y :: compare(x, y) < 0 <==> compare(y, x) > 0)
    && (forall x, y, z :: compare(x, y) <= 0 && compare(y, z) <= 0 ==> compare(x, z) <= 0)
  }

  lemma Chain<T(!new)>(compare: (T, T) -> int, x: T, y: T, z: T)
    requires Ordering(compare)
    ensures compare(x, y) <= 0 && compare(y, z) <= 0 ==> compare(x, z) <= 0
    ensures compare(x, y) < 0 <==> compare(y, x) > 0
  {
  }

  /** The items not after the new one are exactly those before its place. */
  lemma PlaceSplits<T(!new)>(s: seq<T>, item: T, compare: (T, T) -> int, i: nat)
    requires Ordering(compare) && Sorted(s, compare) && i < |s|
    ensures i < PlaceFor(s, item, compare) <==> compare(s[i], item) <= 0
  {
    hide Ordering;
    var k := PlaceFor(s, item, compare);
    Chain(compare, s[i], item, item);
    Chain(compare, item, s[i], item);
    if i >= k {
      Chain(compare, item, s[k], item);
      Chain(compare, s[k], s[i], item);
      Chain(compare, s[k], item, item);
      assert i == k || compare(s[k], s[i]) <= 0;
    }
  }

  lemma InsertedPair<T(!new)>(s: seq<T>, item: T, compare: (T, T) -> int, i: nat, j: nat)
    requires Ordering(compare) && Sorted(s, compare) && i < j <= |s|
    ensures compare(Inserted(s, item, compare)[i], Inserted(s, item, compare)[j]) <= 0
  {
    hide Ordering;
    var k, r := PlaceFor(s, item, compare), Inserted(s, item, compare);
    if i < k {
      assert r[i] == s[i];
      PlaceSplits(s, item, compare, i);
    } else if i == k {
      assert r[j] == s[j - 1];
      PlaceSplits(s, item, compare, j - 1);
      Chain(compare, item, s[j - 1], item);
      Chain(compare, s[j - 1], item, item);
    }
  }

  /** Inserting into a sorted list gives a sorted list of the same items and the new one; the old items keep
      their order, and the new one comes after all its equals. */
  lemma InsertedSorted<T(!new)>(s: seq<T>, item: T, compare: (T, T) -> int)
    requires Ordering(compare) && Sorted(s, compare)
    ensures Sorted(Inserted(s, item, compare), compare)
    ensures multiset(Inserted(s, item, compare)) == multiset(s) + multiset{item}
    ensures forall i :: 0 <= i < |s| ==> (i < PlaceFor(s, item, compare) <==> compare(s[i], item) <= 0)
  {
    hide Ordering, Inserted, PlaceFor;
    var k, r := PlaceFor(s, item, compare), Inserted(s, item, compare);
    forall i | 0 <= i < |s| ensures i < k <==> compare(s[i], item) <= 0 {
      PlaceSplits(s, item, compare, i);
    }
    forall i, j | 0 <= i < j < |r| ensures compare(r[i], r[j]) <= 0 {
      InsertedPair(s, item, compare, i, j);
    }
    InsertedItems(s, item, compare);
  }

  lemma InsertedItems<T>(s: seq<T>, item: T, compare: (T, T) -> int)
    ensures multiset(Inserted(s, item, compare)) == multiset(s) + multiset{item}
  {
    var k := PlaceFor(s, item, compare);
    assert s == s[..k] + s[k..];
  }

  lemma PlaceIs<T>(s: seq<T>, item: T, compare: (T, T) -> int, k: nat)
    requires k <= |s| && (forall i :: 0 <= i < k ==> compare(item, s[i]) >= 0) && (k < |s| ==> compare(item, s[k]) < 0)
    ensures PlaceFor(s, item, compare) == k
    ensures Inserted(s, item, compare) == s[..k] + [item] + s[k..]
  {
  }

  lemma WithoutAt<T>(s: seq<T>, i: nat)
    requires NoDuplicates(s) && i < |s|
    ensures NoDuplicates(s[..i] + s[i + 1..]) && s[i] !in s[..i] + s[i + 1..]
  {
  }

  lemma WithAt<T>(s: seq<T>, k: nat, x: T)
    requires NoDuplicates(s) && k <= |s| && x !in s
    ensures NoDuplicates(s[..k] + [x] + s[k..])
  {
    var r := s[..k] + [x] + s[k..];
    forall i, j | 0 <= i < j < |r| ensures r[i] != r[j] {
      assert i < k ==> r[i] == s[i];
      assert i > k ==> r[i] == s[i - 1];
      assert j < k ==> r[j] == s[j];
      assert j > k ==> r[j] == s[j - 1];
    }
  }

  // ---- the linked list ----

  class ListElement<T> {
    const item: T
    var next: ListElement?<T>

    constructor (item: T)
      ensures this.item == item && next == null
    {
      this.item := item;
      next := null;
    }
  }

  function ItemsOf<T>(spine: seq<ListElement<T>>): (s: seq<T>)
    ensures |s| == |spine|
    ensures forall i :: 0 <= i < |s| ==> s[i] == spine[i].item
  {
    seq(|spine|, i requires 0 <= i < |spine| => spine[i].item)
  }

  /** `after` is `before` with one occurrence of the item taken out. */
  ghost predicate OneOut<T>(before: seq<T>, after: seq<T>, item: T) {
    exists k :: 0 <= k < |before| && before[k] == item && after == before[..k] + before[k + 1..]
  }

  class List<T(==)> {
    var first: ListElement?<T>
    var last: ListElement?<T>
    var numInList: nat
    ghost var spine: seq<ListElement<T>> // the elements, in order

    /** The links lead from first to last through numInList different elements. */
    ghost predicate Linked()
      reads this, spine
    {
      && numInList == |spine|
      && NoDuplicates(spine)
      && (if spine == [] then first == null && last == null else first == spine[0] && last == spine[|spine| - 1])
      && (forall i :: 0 <= i < |spine| - 1 ==> spine[i].next == spine[i + 1])
      && (spine != [] ==> spine[|spine| - 1].next == null)
    }

    ghost function Items(): seq<T>
      reads this
    {
      ItemsOf(spine)
    }

    /** No item is listed twice: every way of adding one asserts that it is not there yet. */
    ghost predicate Valid()
      reads this, spine
    {
      Linked() && NoDuplicates(Items())
    }

    constructor ()
      ensures Valid() && Items() == [] && spine == []
    {
      first, last, numInList := null, null, 0;
      spine := [];
    }

    method IsInList(item: T) returns (found: bool)
      requires Valid()
      ensures found <==> item in Items()
    {
      var ptr := first;
      ghost var i := 0;
      while ptr != null
        invariant 0 <= i <= |spine|
        invariant ptr == if i < |spine| then spine[i] else null
        invariant forall k :: 0 <= k < i ==> spine[k].item != item
        decreases |spine| - i
      {
        if ptr.item == item {
          assert Items()[i] == item;
          return true;
        }
        ptr := ptr.next;
        i := i + 1;
      }
      return false;
    }

    method Append(item: T)
      requires Valid() && item !in Items()
      modifies this, spine
      ensures Valid() && Items() == old(Items()) + [item]
      ensures fresh(spine[|spine| - 1]) && spine[..|spine| - 1] == old(spine)
    {
      var element := new ListElement(item);
      if numInList == 0 {
        first := element;
        last := element;
      } else {
        last.next := element;
        last := element;
      }
      numInList := numInList + 1;
      spine := spine + [element];
    }

    method Prepend(item: T)
      requires Valid() && item !in Items()
      modifies this
      ensures Valid() && Items() == [item] + old(Items())
      ensures fresh(spine[0]) && spine == [spine[0]] + old(spine)
    {
      hide NoDuplicates;
      ghost var chain, items := spine, Items();
      var element := new ListElement(item);
      WithAt(chain, 0, element);
      WithAt(items, 0, item);
      assert chain[..0] + [element] + chain[0..] == [element] + chain;
      assert items[..0] + [item] + items[0..] == [item] + items;
      if numInList == 0 {
        first := element;
        last := element;
      } else {
        element.next := first;
        first := element;
      }
      numInList := numInList + 1;
      spine := [element] + chain;
      assert forall k :: 1 <= k < |spine| ==> spine[k] == chain[k - 1];
      assert Items() == [item] + items;
    }

    method Front() returns (item: T)
      requires Valid() && Items() != []
      ensures item == Items()[0]
    {
      item := first.item;
    }

    method RemoveFront() returns (thing: T)
      requires Valid() && Items() != []
      modifies this
      ensures Valid() && [thing] + Items() == old(Items())
      ensures spine == old(spine)[1..]
    {
      var element := first;
      thing := element.item;
      if first == last {
        first := null;
        last := null;
      } else {
        first := element.next;
      }
      numInList := numInList - 1;
      assert Items()[0] == thing;
      spine := spine[1..];
    }

    /** Takes out one item, which must be there. */
    method Remove(item: T)
      requires Valid() && item in Items()
      modifies this, spine
      ensures Valid() && item !in Items() && OneOut(old(Items()), Items(), item)
    {
      if item == first.item {
        WithoutFirst(Items());
        ghost var before := Items();
        var _ := RemoveFront();
        assert before[0] == item && Items() == before[..0] + before[1..];
      } else {
        RemoveLater(item);
      }
    }

    /** The loop of Remove, with a pointer to the element before. */
    method RemoveLater(item: T)
      requires Valid() && item in Items() && item != Items()[0]
      modifies this, spine
      ensures Valid() && item !in Items() && OneOut(old(Items()), Items(), item)
    {
      ghost var before := Items();
      var prev := first;
      var ptr := first.next;
      ghost var i := 1;
      while ptr != null && ptr.item != item
        invariant 1 <= i <= |spine|
        invariant prev == spine[i - 1] && ptr == if i < |spine| then spine[i] else null
        invariant forall k :: 0 <= k < i ==> before[k] != item
        decreases |spine| - i
      {
        prev, ptr := ptr, ptr.next;
        i := i + 1;
      }
      assert ptr != null;
      WithoutAt(before, i);
      Unlink(prev, ptr, i);
      assert Items() == before[..i] + before[i + 1..];
      assert before[i] == item;
    }

    method Unlink(prev: ListElement<T>, ptr: ListElement<T>, ghost i: nat)
      requires Linked() && 1 <= i < |spine| && prev == spine[i - 1] && ptr == spine[i]
      modifies this, prev
      ensures Linked() && spine == old(spine)[..i] + old(spine)[i + 1..]
    {
      ghost var chain := spine;
      WithoutAt(chain, i);
      assert ptr.next == if i + 1 < |chain| then chain[i + 1] else null;
      assert forall k :: 0 <= k < |chain| && k != i - 1 ==> chain[k] != prev;
      hide NoDuplicates;
      prev.next := ptr.next;
      if prev.next == null {
        last := prev;
      }
      numInList := numInList - 1;
      spine := chain[..i] + chain[i + 1..];
      forall k | 0 <= k < |spine|
        ensures spine[k] == (if k < i then chain[k] else chain[k + 1])
        ensures spine[k].next == if k < |spine| - 1 then spine[k + 1] else null
      {
      }
    }

    /** Puts a new element after element i. */
    method LinkAfter(ptr: ListElement<T>, element: ListElement<T>, ghost i: nat)
      requires Linked() && i < |spine| && ptr == spine[i] && element !in spine && element.next == null
      modifies this, ptr, element
      ensures Linked() && spine == old(spine)[..i + 1] + [element] + old(spine)[i + 1..]
    {
      ghost var chain := spine;
      WithAt(chain, i + 1, element);
      assert ptr.next == if i + 1 < |chain| then chain[i + 1] else null;
      assert forall k :: 0 <= k < |chain| && k != i ==> chain[k] != ptr;
      assert forall k :: 0 <= k < |chain| ==> chain[k] != element;
      hide NoDuplicates;
      if ptr.next != null {
        element.next := ptr.next;
        ptr.next := element;
      } else {
        last.next := element;
        last := element;
      }
      numInList := numInList + 1;
      spine := chain[..i + 1] + [element] + chain[i + 1..];
      forall k | 0 <= k < |spine|
        ensures spine[k] == (if k <= i then chain[k] else if k == i + 1 then element else chain[k - 1])
        ensures spine[k].next == if k < |spine| - 1 then spine[k + 1] else null
      {
      }
    }

    /** The list checks itself; none of its ASSERTs can fail. */
    method SanityCheck()
      requires Valid()
    {
      if first == null {
        assert numInList == 0 && last == null;
      } else if first == last {
        assert spine[0] == spine[|spine| - 1];
        assert numInList == 1 && last.next == null;
      } else {
        var numFound, ptr := 1, first;
        while ptr != last
          invariant 1 <= numFound <= |spine| && ptr == spine[numFound - 1]
          decreases |spine| - numFound
        {
          numFound := numFound + 1;
          assert numFound <= numInList;
          ptr := ptr.next;
        }
        assert numFound == numInList;
        assert last.next == null;
      }
    }
  }

  /** SortedList adds one routine to the list it is. */
  class SortedList<T(==)> {
    const list: List<T>
    const compare: (T, T) -> int

    constructor (compare: (T, T) -> int)
      ensures list.Valid() && list.Items() == [] && this.compare == compare && fresh(list)
    {
      list := new List();
      this.compare := compare;
    }

    /** An item that comes before the first, or the only one, goes to the front, as in List's Prepend. */
    method Insert(item: T)
      requires list.Valid() && item !in list.Items()
      modifies list, list.spine
      ensures list.Valid()
      ensures list.Items() == Inserted(old(list.Items()), item, compare)
    {
      if list.numInList != 0 && compare(item, list.first.item) >= 0 {
        InsertLater(item);
        return;
      }
      PlaceIs(list.Items(), item, compare, 0);
      list.Prepend(item);
    }

    /** The walk to the last element that does not come after the new item. */
    method FindPlace(item: T) returns (ptr: ListElement<T>, ghost i: nat)
      requires list.Linked() && list.spine != [] && compare(item, list.spine[0].item) >= 0
      ensures i < |list.spine| && ptr == list.spine[i] && PlaceFor(list.Items(), item, compare) == i + 1
    {
      ptr, i := list.first, 0;
      while ptr.next != null && compare(item, ptr.next.item) >= 0
        invariant i < |list.spine| && ptr == list.spine[i]
        invariant forall k :: 0 <= k <= i ==> compare(item, list.spine[k].item) >= 0
        decreases |list.spine| - i
      {
        ptr, i := ptr.next, i + 1;
      }
      PlaceIs(list.Items(), item, compare, i + 1);
    }

    method InsertLater(item: T)
      requires list.Valid() && item !in list.Items() && list.Items() != [] && compare(item, list.Items()[0]) >= 0
      modifies list, list.spine
      ensures list.Valid()
      ensures list.Items() == Inserted(old(list.Items()), item, compare)
    {
      ghost var items := list.Items();
      assert items[0] == list.spine[0].item;
      var ptr, i := FindPlace(item);
      WithAt(items, i + 1, item);
      hide NoDuplicates, PlaceFor;
      var element := new ListElement(item);
      list.LinkAfter(ptr, element, i);
      assert list.Items() == items[..i + 1] + [item] + items[i + 1..];
    }
  }
}
