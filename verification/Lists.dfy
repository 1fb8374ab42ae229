/**
 The singly linked list and the sorted list (lib/list.cc), proved to act on the sequence of their items.
 */
module Lists {

  class ListElement<T> {
    var next: ListElement?<T>
    const item: T

    constructor (itm: T)
      ensures item == itm && next == null
    {
      item, next := itm, null;
    }
  }

  /** No node is met twice. */
  ghost predicate Apart<T>(nodes: seq<ListElement<T>>)
  {
    forall i, j :: 0 <= i < j < |nodes| ==> nodes[i] != nodes[j]
  }

  /** s without its element number i. */
  function Without<T>(s: seq<T>, i: nat): seq<T>
    requires i < |s|
  {
    s[..i] + s[i + 1..]
  }

  /** s with x put in front of element number i. */
  function With<T>(s: seq<T>, i: nat, x: T): seq<T>
    requires i <= |s|
  {
    s[..i] + [x] + s[i..]
  }

  /** s without the first x in it. */
  function Removed<T(==)>(s: seq<T>, x: T): seq<T>
  {
    if s == [] then [] else if s[0] == x then s[1..] else [s[0]] + Removed(s[1..], x)
  }

  /** Where x first stands in s. */
  ghost predicate FirstAt<T>(s: seq<T>, x: T, k: nat)
  {
    k < |s| && s[k] == x && x !in s[..k]
  }

  lemma {:induction false} RemovedAt<T>(s: seq<T>, x: T, k: nat)
    requires FirstAt(s, x, k)
    ensures Removed(s, x) == Without(s, k)
  {
    if k > 0 {
      assert s[..k] == [s[0]] + s[1..][..k - 1];
      RemovedAt(s[1..], x, k - 1);
    } else {
      assert s[1..] == Without(s, 0);
    }
  }

  /** The node after node number i, or null. */
  ghost function NextOf<T>(nodes: seq<ListElement<T>>, i: nat): ListElement?<T>
  {
    if i + 1 < |nodes| then nodes[i + 1] else null
  }

  /** The items that the nodes carry. */
  ghost function Items<T>(nodes: seq<ListElement<T>>): (s: seq<T>)
    ensures |s| == |nodes| && forall i :: 0 <= i < |s| ==> s[i] == nodes[i].item
  {
    seq(|nodes|, i requires 0 <= i < |nodes| => nodes[i].item)
  }

  lemma ItemsWithout<T>(nodes: seq<ListElement<T>>, i: nat)
    requires i < |nodes|
    ensures Items(Without(nodes, i)) == Without(Items(nodes), i)
  {
  }

  lemma ItemsWith<T>(nodes: seq<ListElement<T>>, i: nat, x: ListElement<T>)
    requires i <= |nodes|
    ensures Items(With(nodes, i, x)) == With(Items(nodes), i, x.item)
  {
  }

  lemma ApartWithout<T>(nodes: seq<ListElement<T>>, i: nat)
    requires Apart(nodes) && i < |nodes|
    ensures Apart(Without(nodes, i))
  {
  }

  lemma ApartWith<T>(nodes: seq<ListElement<T>>, i: nat, x: ListElement<T>)
    requires Apart(nodes) && i <= |nodes| && x !in nodes
    ensures Apart(With(nodes, i, x))
  {
  }

  /** Every node leads to the one after it, and the last one nowhere. */
  ghost predicate Linked<T>(nodes: seq<ListElement<T>>)
    reads nodes
  {
    forall i :: 0 <= i < |nodes| ==> nodes[i].next == NextOf(nodes, i)
  }

  lemma NextAt<T>(nodes: seq<ListElement<T>>, i: nat)
    requires Linked(nodes) && i < |nodes|
    ensures nodes[i].next == NextOf(nodes, i)
  {
  }

  lemma LinkedTail<T>(nodes: seq<ListElement<T>>)
    requires Linked(nodes) && nodes != []
    ensures Linked(nodes[1..])
  {
    forall i | 0 <= i < |nodes[1..]|
      ensures nodes[1..][i].next == NextOf(nodes[1..], i)
    {
      NextAt(nodes, i + 1);
    }
  }

  lemma LinkedAlone<T>(x: ListElement<T>)
    requires x.next == null
    ensures Linked([x])
  {
  }

  class List<T(==)> {
    var first: ListElement?<T>
    var last: ListElement?<T>
    var numInList: nat
    ghost var nodes: seq<ListElement<T>>

    /** first and last are the ends of the chain, and numInList is its length. */
    ghost predicate Ends()
      reads this
    {
      && numInList == |nodes|
      && (if nodes == [] then first == null && last == null else first == nodes[0] && last == nodes[|nodes| - 1])
    }

    /** first leads through all nodes to last, whose next is null, and numInList is their number. */
    ghost predicate Valid()
      reads this, nodes
    {
      Ends() && Apart(nodes) && Linked(nodes)
    }

    ghost function Contents(): (s: seq<T>)
      reads this
    {
      Items(nodes)
    }

    constructor ()
      ensures Valid() && Contents() == []
    {
      first, last, numInList, nodes := null, null, 0, [];
    }

    method Append(item: T)
      requires Valid() && item !in Contents()
      modifies this, nodes
      ensures Valid() && (forall x :: x in nodes ==> x in old(nodes) || fresh(x))
      ensures Contents() == old(Contents()) + [item]
    {
      hide Apart, Linked;
      var element := new ListElement<T>(item);
      ghost var was := nodes;
      nodes := With(was, |was|, element);
      ItemsWith(was, |was|, element);
      ApartWith(was, |was|, element);
      if numInList == 0 {
        first := element;
        last := element;
        LinkedAlone(element);
        assert nodes == [element];
      } else {
        LinkLast(was, last, element);
        last := element;
      }
      numInList := numInList + 1;
    }

    method Prepend(item: T)
      requires Valid() && item !in Contents()
      modifies this, nodes
      ensures Valid() && (forall x :: x in nodes ==> x in old(nodes) || fresh(x))
      ensures Contents() == [item] + old(Contents())
    {
      hide Apart, Linked;
      var element := new ListElement<T>(item);
      ghost var was := nodes;
      nodes := With(was, 0, element);
      ItemsWith(was, 0, element);
      ApartWith(was, 0, element);
      if numInList == 0 {
        first := element;
        last := element;
        LinkedAlone(element);
        assert nodes == [element];
      } else {
        LinkFirst(was, first, element);
        first := element;
      }
      numInList := numInList + 1;
    }

    method RemoveFront() returns (thing: T)
      requires Valid() && Contents() != []
      modifies this
      ensures Valid() && nodes == old(nodes)[1..]
      ensures thing == old(Contents())[0] && Contents() == old(Contents())[1..]
    {
      hide Apart, Linked;
      var element := first;
      thing := first.item;
      FrontNode();
      if first == last {
        first := null;
        last := null;
      } else {
        first := element.next;
      }
      numInList := numInList - 1;
      nodes := nodes[1..];
    }

    /** The chain without its front node. */
    lemma FrontNode()
      requires Valid() && nodes != []
      ensures first == nodes[0] && first.next == NextOf(nodes, 0) && (first == last <==> |nodes| == 1)
      ensures Apart(nodes[1..]) && Linked(nodes[1..]) && Items(nodes[1..]) == Items(nodes)[1..]
    {
      LinkedTail(nodes);
      ApartWithout(nodes, 0);
      ItemsWithout(nodes, 0);
      assert nodes[1..] == Without(nodes, 0);
    }

    method IsInList(item: T) returns (found: bool)
      requires Valid()
      ensures found <==> item in Contents()
    {
      var ptr := first;
      ghost var i := 0;
      while ptr != null
        invariant 0 <= i <= |nodes| && ptr == (if i < |nodes| then nodes[i] else null)
        invariant forall j :: 0 <= j < i ==> nodes[j].item != item
        decreases |nodes| - i
      {
        if item == ptr.item {
          assert Contents()[i] == item;
          return true;
        }
        ptr := ptr.next;
        i := i + 1;
      }
      return false;
    }

    /** Deletes exactly the first occurrence, also when it is the last element. */
    method Remove(item: T)
      requires Valid() && item in Contents()
      modifies this, nodes
      ensures Valid() && (forall x :: x in nodes ==> x in old(nodes))
      ensures Contents() == Removed(old(Contents()), item)
    {
      hide Apart, Linked;
      ghost var was := Contents();
      if item == first.item {
        var removed := RemoveFront();
      } else {
        var prev, ptr := first, first.next;
        ghost var i := 1;
        NextAt(nodes, 0);
        while ptr != null && item != ptr.item
          invariant Valid() && nodes == old(nodes)
          invariant 1 <= i <= |nodes| && prev == nodes[i - 1] && ptr == NextOf(nodes, i - 1)
          invariant forall j :: 0 <= j < i ==> nodes[j].item != item
          decreases |nodes| - i
        {
          NextAt(nodes, i);
          prev, ptr := ptr, ptr.next;
          i := i + 1;
        }
        RemovedAt(was, item, i);
        Unlink(prev, ptr, i);
      }
    }

    /** Takes node number i out of the chain. */
    method Unlink(prev: ListElement<T>, ptr: ListElement<T>, ghost i: nat)
      requires Valid() && 1 <= i < |nodes| && prev == nodes[i - 1] && ptr == nodes[i]
      modifies this, nodes
      ensures Valid() && nodes == Without(old(nodes), i) && Contents() == Without(old(Contents()), i)
    {
      hide Apart, Linked;
      ghost var was := nodes;
      ApartWithout(was, i);
      ItemsWithout(was, i);
      BypassNode(was, prev, ptr, i);
      if prev.next == null {
        last := prev;
      }
      numInList := numInList - 1;
      nodes := Without(was, i);
    }

    /** SortedList::Insert: behind the last element that the item does not come before. */
    method Insert(item: T, compare: (T, T) -> int)
      requires Valid() && item !in Contents()
      modifies this, nodes
      ensures Valid() && (forall x :: x in nodes ==> x in old(nodes) || fresh(x))
      ensures Contents() == SortedInsert(old(Contents()), item, compare)
    {
      hide Apart, Linked;
      ghost var was := Contents();
      if numInList == 0 {
        Append(item);
      } else if compare(item, first.item) < 0 {
        Prepend(item);
      } else {
        var ptr := first;
        ghost var i := 0;
        NextAt(nodes, 0);
        while ptr.next != null && compare(item, ptr.next.item) >= 0
          invariant Valid() && nodes == old(nodes)
          invariant 0 <= i < |nodes| && ptr == nodes[i] && ptr.next == NextOf(nodes, i)
          invariant forall j :: 0 <= j <= i ==> compare(item, was[j]) >= 0
          decreases |nodes| - i
        {
          ptr := ptr.next;
          i := i + 1;
          NextAt(nodes, i);
        }
        InsertPosition(was, item, compare, i + 1);
        if ptr.next != null {
          LinkAfter(ptr, item, i);
        } else {
          Append(item);
        }
      }
    }

    /** A new node between nodes number i and i + 1. */
    method LinkAfter(ptr: ListElement<T>, item: T, ghost i: nat)
      requires Valid() && i + 1 < |nodes| && ptr == nodes[i]
      modifies this, nodes
      ensures Valid() && (forall x :: x in nodes ==> x in old(nodes) || fresh(x))
      ensures Contents() == With(old(Contents()), i + 1, item)
    {
      hide Apart, Linked;
      var element := new ListElement<T>(item);
      ghost var was := nodes;
      nodes := With(was, i + 1, element);
      ItemsWith(was, i + 1, element);
      ApartWith(was, i + 1, element);
      SpliceNode(was, ptr, element, i);
      numInList := numInList + 1;
    }
  }

  // ---------- the pointer changes, one chain at a time ----------

  ghost predicate Distinct<T>(s: seq<T>)
  {
    forall i, j :: 0 <= i < j < |s| ==> s[i] != s[j]
  }

  lemma DistinctAppend<T>(s: seq<T>, x: T)
    requires Distinct(s) && x !in s
    ensures Distinct(s + [x])
  {
  }

  /** Among distinct items, taking out the first x takes out the only one, and nothing else. */
  lemma {:induction false} RemovedIsGone<T>(s: seq<T>, x: T)
    requires Distinct(s) && x in s
    ensures multiset(Removed(s, x)) == multiset(s) - multiset{x} && x !in Removed(s, x)
  {
    assert s == [s[0]] + s[1..];
    if s[0] == x {
      assert x !in s[1..];
    } else {
      RemovedIsGone(s[1..], x);
    }
  }

  method LinkLast<T>(ghost was: seq<ListElement<T>>, last: ListElement<T>, element: ListElement<T>)
    requires was != [] && Linked(was) && Apart(was) && last == was[|was| - 1] && element !in was && element.next == null
    modifies last`next
    ensures Linked(With(was, |was|, element))
  {
    last.next := element;
  }

  method LinkFirst<T>(ghost was: seq<ListElement<T>>, first: ListElement<T>, element: ListElement<T>)
    requires was != [] && Linked(was) && first == was[0] && element !in was
    modifies element`next
    ensures Linked(With(was, 0, element))
  {
    element.next := first;
    ghost var now := With(was, 0, element);
    forall i | 0 <= i < |now|
      ensures now[i].next == NextOf(now, i)
    {
      if i > 0 { assert was[i - 1].next == NextOf(was, i - 1); }
    }
  }

  method BypassNode<T>(ghost was: seq<ListElement<T>>, prev: ListElement<T>, ptr: ListElement<T>, ghost i: nat)
    requires Linked(was) && Apart(was) && 1 <= i < |was| && prev == was[i - 1] && ptr == was[i]
    modifies prev`next
    ensures Linked(Without(was, i)) && prev.next == NextOf(was, i)
  {
    prev.next := ptr.next;
    ghost var now := Without(was, i);
    forall j | 0 <= j < |now|
      ensures now[j].next == NextOf(now, j)
    {
      ghost var k := if j < i then j else j + 1;
      assert now[j] == was[k];
      if k != i - 1 { assert was[k].next == NextOf(was, k); }
    }
  }

  method SpliceNode<T>(ghost was: seq<ListElement<T>>, ptr: ListElement<T>, element: ListElement<T>, ghost i: nat)
    requires Linked(was) && Apart(was) && i + 1 < |was| && ptr == was[i] && element !in was
    modifies ptr`next, element`next
    ensures Linked(With(was, i + 1, element))
  {
    element.next := ptr.next;
    ptr.next := element;
    ghost var now := With(was, i + 1, element);
    forall j | 0 <= j < |now|
      ensures now[j].next == NextOf(now, j)
    {
      if j > i + 1 {
        assert now[j] == was[j - 1] && was[j - 1].next == NextOf(was, j - 1);
      }
    }
  }

  // ---------- what sorted insertion promises ----------

  /** Put x behind the leading elements that it does not come before. */
  function SortedInsert<T>(s: seq<T>, x: T, compare: (T, T) -> int): seq<T>
  {
    if s == [] || compare(x, s[0]) < 0 then [x] + s else [s[0]] + SortedInsert(s[1..], x, compare)
  }

  lemma {:induction false} InsertPosition<T>(s: seq<T>, x: T, compare: (T, T) -> int, k: nat)
    requires k <= |s| && (forall j :: 0 <= j < k ==> compare(x, s[j]) >= 0) && (k < |s| ==> compare(x, s[k]) < 0)
    ensures SortedInsert(s, x, compare) == With(s, k, x)
  {
    if k > 0 {
      InsertPosition(s[1..], x, compare, k - 1);
      assert s == [s[0]] + s[1..];
    }
  }

  /** compare is a total preorder, told by sign. */
  ghost predicate IsOrder<T(!new)>(compare: (T, T) -> int)
  {
    && (forall a, b :: compare(a, b) < 0 <==> compare(b, a) > 0)
    && (forall a, b, c :: compare(a, b) <= 0 && compare(b, c) <= 0 ==> compare(a, c) <= 0)
  }

  ghost predicate Sorted<T(!new)>(s: seq<T>, compare: (T, T) -> int)
  {
    forall i, j :: 0 <= i < j < |s| ==> compare(s[i], s[j]) <= 0
  }

  /** Where the new item went: everything before it is not greater, everything after it is strictly greater. */
  lemma {:induction false} SortedInsertSplits<T(!new)>(s: seq<T>, x: T, compare: (T, T) -> int) returns (k: nat)
    requires IsOrder(compare) && Sorted(s, compare)
    ensures k <= |s| && SortedInsert(s, x, compare) == With(s, k, x)
    ensures forall j :: 0 <= j < k ==> compare(s[j], x) <= 0
    ensures forall j :: k <= j < |s| ==> compare(x, s[j]) < 0
  {
    hide IsOrder;
    if s == [] {
      k := 0;
    } else if compare(x, s[0]) < 0 {
      k := 0;
      forall j | 0 <= j < |s|
        ensures compare(x, s[j]) < 0
      {
        if j > 0 { StrictThenWeak(compare, x, s[0], s[j]); }
      }
    } else {
      var rest := s[1..];
      var k' := SortedInsertSplits(rest, x, compare);
      k := k' + 1;
      hide Sorted;
      assert s == [s[0]] + rest && With(s, k, x) == [s[0]] + With(rest, k', x);
      assert compare(s[0], x) <= 0 by { NotBefore(compare, x, s[0]); }
      forall j | 0 <= j < k
        ensures compare(s[j], x) <= 0
      {
        if j > 0 { assert s[j] == rest[j - 1]; }
      }
      forall j | k <= j < |s|
        ensures compare(x, s[j]) < 0
      {
        assert s[j] == rest[j - 1];
      }
    }
  }

  lemma NotBefore<T(!new)>(compare: (T, T) -> int, a: T, b: T)
    requires IsOrder(compare)
    ensures compare(a, b) < 0 <==> compare(b, a) > 0
  {
  }

  lemma StrictThenWeak<T(!new)>(compare: (T, T) -> int, a: T, b: T, c: T)
    requires IsOrder(compare) && compare(a, b) < 0 && compare(b, c) <= 0
    ensures compare(a, c) < 0
  {
    assert compare(c, a) <= 0 ==> compare(b, a) <= 0;
  }

  /** Exactly the first k elements are not greater than x. */
  ghost predicate Splits<T(!new)>(s: seq<T>, x: T, compare: (T, T) -> int, k: nat)
  {
    forall j :: 0 <= j < |s| ==> (j < k <==> compare(s[j], x) <= 0)
  }

  /**
   Insertion keeps the list sorted and is stable: the items already there keep their order, and the new one goes behind
   all that compare equal to it.
   */
  lemma SortedInsertKeepsOrder<T(!new)>(s: seq<T>, x: T, compare: (T, T) -> int)
    requires IsOrder(compare) && Sorted(s, compare)
    ensures Sorted(SortedInsert(s, x, compare), compare)
    ensures exists k :: 0 <= k <= |s| && SortedInsert(s, x, compare) == With(s, k, x) && Splits(s, x, compare, k)
  {
    hide IsOrder, Sorted;
    var k := SortedInsertSplits(s, x, compare);
    SplicedSorted(s, x, compare, k);
    forall j | 0 <= j < |s|
      ensures j < k <==> compare(s[j], x) <= 0
    {
      NotBefore(compare, x, s[j]);
    }
  }

  lemma SplicedSorted<T(!new)>(s: seq<T>, x: T, compare: (T, T) -> int, k: nat)
    requires Sorted(s, compare) && k <= |s|
    requires forall j :: 0 <= j < k ==> compare(s[j], x) <= 0
    requires forall j :: k <= j < |s| ==> compare(x, s[j]) < 0
    ensures Sorted(With(s, k, x), compare)
  {
    var r := With(s, k, x);
    forall i, j | 0 <= i < j < |r|
      ensures compare(r[i], r[j]) <= 0
    {
      var a, b := if i <= k then i else i - 1, if j <= k then j else j - 1;
      assert i == k || r[i] == s[a];
      assert j == k || r[j] == s[b];
    }
  }
}
