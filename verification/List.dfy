/** The doubly linked list of src/list.c and its insertion sort. */
module List {
  import opened Sequences

  class Item<T> {
    var next: Item?<T>
    var prev: Item?<T>
    const what: T

    constructor (what: T)
      ensures this.what == what && next == null && prev == null
    {
      this.what, next, prev := what, null, null;
    }
  }

  function At<T>(items: seq<Item<T>>, k: int): Item?<T> { if 0 <= k < |items| then items[k] else null }

  /** Item `k` and its neighbours point at each other. */
  ghost predicate LinkAt<T>(items: seq<Item<T>>, k: nat)
    requires k < |items|
    reads items[k]
  {
    items[k].next == At(items, k + 1) && items[k].prev == At(items, k - 1)
  }

  // ---- Sorting ----

  /** The first place whose item the new one does not come behind. */
  function Place<T>(compare: (T, T) -> int, x: T, s: seq<Item<T>>, from: nat): (p: nat)
    requires from <= |s|
    ensures from <= p <= |s|
    ensures forall j :: from <= j < p ==> compare(x, s[j].what) > 0
    ensures p < |s| ==> compare(x, s[p].what) <= 0
    decreases |s| - from
  {
    if from == |s| || compare(x, s[from].what) <= 0 then from else Place(compare, x, s, from + 1)
  }

  function Insert<T>(compare: (T, T) -> int, x: Item<T>, s: seq<Item<T>>): seq<Item<T>>
  {
    Put(s, Place(compare, x.what, s, 0), x)
  }

  /** Insertion sort, in the order of arrival. */
  function Sorting<T>(compare: (T, T) -> int, s: seq<Item<T>>): seq<Item<T>>
  {
    if s == [] then [] else Insert(compare, s[|s| - 1], Sorting(compare, s[..|s| - 1]))
  }

  lemma SortingSteps<T>(compare: (T, T) -> int, s: seq<Item<T>>, k: nat)
    requires k < |s|
    ensures Sorting(compare, s[..k + 1]) == Insert(compare, s[k], Sorting(compare, s[..k]))
    ensures k == 0 ==> Sorting(compare, s[..1]) == [s[0]]
  {
    assert s[..k + 1][..k] == s[..k];
    if k == 0 {
      assert Sorting(compare, s[..0]) == [];
    }
  }

  ghost predicate TotalPreorder<T(!new)>(compare: (T, T) -> int)
  {
    && (forall a, b :: compare(a, b) <= 0 || compare(b, a) <= 0)
    && (forall a, b, c :: compare(a, b) <= 0 && compare(b, c) <= 0 ==> compare(a, c) <= 0)
  }

  /** `x` arrived after `y`. */
  ghost predicate Later<T>(arrival: seq<Item<T>>, x: Item<T>, y: Item<T>)
  {
    exists i, j :: 0 <= i < j < |arrival| && arrival[i] == y && arrival[j] == x
  }

  ghost predicate InOrder<T>(compare: (T, T) -> int, arrival: seq<Item<T>>, x: Item<T>, y: Item<T>)
  {
    compare(x.what, y.what) <= 0 && (compare(y.what, x.what) <= 0 ==> Later(arrival, x, y))
  }

  /** Sorted, equal items in reverse order of their arrival. */
  ghost predicate Ordered<T>(compare: (T, T) -> int, arrival: seq<Item<T>>, s: seq<Item<T>>)
  {
    forall i, j :: 0 <= i < j < |s| ==> InOrder(compare, arrival, s[i], s[j])
  }

  lemma LaterMore<T>(arrival: seq<Item<T>>, n: Item<T>, x: Item<T>, y: Item<T>)
    requires Later(arrival, x, y)
    ensures Later(arrival + [n], x, y)
  {
    var i, j :| 0 <= i < j < |arrival| && arrival[i] == y && arrival[j] == x;
    assert (arrival + [n])[i] == y && (arrival + [n])[j] == x;
  }

  lemma NewestIsLater<T>(arrival: seq<Item<T>>, n: Item<T>, y: Item<T>)
    requires y in arrival
    ensures Later(arrival + [n], n, y)
  {
    var i :| 0 <= i < |arrival| && arrival[i] == y;
    assert (arrival + [n])[i] == y && (arrival + [n])[|arrival|] == n;
  }

  /** The new item and one that was there. */
  lemma NewInOrder<T(!new)>(compare: (T, T) -> int, arrival: seq<Item<T>>, s: seq<Item<T>>, n: Item<T>, k: nat)
    requires TotalPreorder(compare) && Ordered(compare, arrival, s) && k < |s| && s[k] in arrival
    ensures var p, all := Place(compare, n.what, s, 0), arrival + [n];
            if k < p then InOrder(compare, all, s[k], n) else InOrder(compare, all, n, s[k])
  {
    var p := Place(compare, n.what, s, 0);
    if k >= p {
      if k > p { assert InOrder(compare, arrival, s[p], s[k]); }
      NewestIsLater(arrival, n, s[k]);
    }
  }

  lemma OldInOrder<T(!new)>(compare: (T, T) -> int, arrival: seq<Item<T>>, n: Item<T>, x: Item<T>, y: Item<T>)
    requires InOrder(compare, arrival, x, y)
    ensures InOrder(compare, arrival + [n], x, y)
  {
    if compare(y.what, x.what) <= 0 { LaterMore(arrival, n, x, y); }
  }

  lemma InsertOrdered<T(!new)>(compare: (T, T) -> int, arrival: seq<Item<T>>, s: seq<Item<T>>, n: Item<T>)
    requires TotalPreorder(compare) && Ordered(compare, arrival, s) && forall x :: x in s ==> x in arrival
    ensures Ordered(compare, arrival + [n], Insert(compare, n, s))
  {
    var p, t, all := Place(compare, n.what, s, 0), Insert(compare, n, s), arrival + [n];
    PutAt(s, p, n);
    forall i, j | 0 <= i < j < |t| ensures InOrder(compare, all, t[i], t[j]) {
      if i == p {
        NewInOrder(compare, arrival, s, n, j - 1);
      } else if j == p {
        NewInOrder(compare, arrival, s, n, i);
      } else {
        var x, y := if i < p then i else i - 1, if j < p then j else j - 1;
        assert InOrder(compare, arrival, s[x], s[y]);
        OldInOrder(compare, arrival, n, s[x], s[y]);
      }
    }
  }

  lemma PutMembers<X>(s: seq<X>, k: nat, x: X)
    requires k <= |s|
    ensures multiset(Put(s, k, x)) == multiset(s) + multiset{x}
  {
    assert s == s[..k] + s[k..];
  }

  lemma LastMember<X>(s: seq<X>)
    requires s != []
    ensures multiset(s) == multiset(s[..|s| - 1]) + multiset{s[|s| - 1]}
  {
    assert s[..|s| - 1] + [s[|s| - 1]] == s;
  }

  lemma {:induction false} SortingPermutes<T>(compare: (T, T) -> int, s: seq<Item<T>>)
    ensures multiset(Sorting(compare, s)) == multiset(s)
    decreases |s|
  {
    if s != [] {
      var x, first := s[|s| - 1], s[..|s| - 1];
      var sorted := Sorting(compare, first);
      SortingPermutes(compare, first);
      PutMembers(sorted, Place(compare, x.what, sorted, 0), x);
      LastMember(s);
    }
  }

  lemma SortingMembers<T>(compare: (T, T) -> int, s: seq<Item<T>>)
    ensures forall x :: x in Sorting(compare, s) ==> x in s
  {
    SortingPermutes(compare, s);
    forall x | x in Sorting(compare, s) ensures x in s {
      assert x in multiset(Sorting(compare, s));
    }
  }

  lemma {:induction false} SortingSorts<T(!new)>(compare: (T, T) -> int, s: seq<Item<T>>)
    requires TotalPreorder(compare)
    ensures Ordered(compare, s, Sorting(compare, s))
    decreases |s|
  {
    if s != [] {
      var x, first := s[|s| - 1], s[..|s| - 1];
      SortingSorts(compare, first);
      SortingMembers(compare, first);
      InsertOrdered(compare, first, Sorting(compare, first), x);
      assert first + [x] == s;
    }
  }

  // ---- The list ----

  class List<T> {
    var head: Item?<T>
    var tail: Item?<T>
    var count: int
    ghost var items: seq<Item<T>>

    ghost predicate Valid()
      reads this, items
    {
      && Distinct(items) && (forall k :: 0 <= k < |items| ==> LinkAt(items, k))
      && head == At(items, 0) && tail == At(items, |items| - 1) && count == |items|
    }

    constructor ()
      ensures Valid() && items == []
    {
      head, tail, count, items := null, null, 0, [];
    }

    /** Puts `what` between the item `k` and the one before it. */
    method LinkBefore(what: Item<T>, item: Item<T>, ghost k: nat)
      requires Valid() && what !in items && k < |items| && items[k] == item
      modifies this`head, items, what
      ensures what.prev == At(items, k - 1) && what.next == item && head == if k == 0 then what else old(head)
      ensures forall j :: 0 <= j < |items| ==>
                && items[j].prev == (if j == k then what else old(items[j].prev))
                && items[j].next == (if j == k - 1 then what else old(items[j].next))
    {
      assert LinkAt(items, k) && (k > 0 ==> LinkAt(items, k - 1));
      what.prev := item.prev;
      what.next := item;
      item.prev := what;
      if what.prev == null {
        head := what;
      } else {
        what.prev.next := what;
      }
    }

    /** privateInsertBefore; without an item to insert before it is the head. */
    method InsertBefore(what: Item<T>, before: Item?<T>, ghost k: nat)
      requires Valid() && what !in items
      requires if before == null then k == 0 else k < |items| && items[k] == before
      modifies this, items, what
      ensures Valid() && items == Put(old(items), k, what)
    {
      var item := if before == null then head else before;
      if item != null {
        LinkBefore(what, item, k);
      } else {
        head := what;
        tail := what;
        what.prev := null;
        what.next := null;
      }
      count := count + 1;
      ghost var was := items;
      items := Put(was, k, what);
      PutAt(was, k, what);
      PutDistinct(was, k, what);
      forall j | 0 <= j < |items| ensures LinkAt(items, j) {
        assert j < k ==> old(LinkAt(items, j));
        assert j > k ==> old(LinkAt(items, j - 1));
      }
    }

    /** privateInsertAfter; without an item to insert after it is the tail. */
    method InsertAfter(what: Item<T>, after: Item?<T>, ghost k: nat)
      requires Valid() && what !in items
      requires if after == null then k == |items| else 0 < k <= |items| && items[k - 1] == after
      modifies this, items, what
      ensures Valid() && items == Put(old(items), k, what)
    {
      var item := if after == null then tail else after;
      if item != null {
        assert LinkAt(items, k - 1);
        assert k < |items| ==> LinkAt(items, k);
        what.prev := item;
        what.next := item.next;
        item.next := what;
        if what.next == null {
          tail := what;
        } else {
          what.next.prev := what;
        }
      } else {
        head := what;
        tail := what;
        what.prev := null;
        what.next := null;
      }
      count := count + 1;
      ghost var was := items;
      items := Put(was, k, what);
      PutAt(was, k, what);
      PutDistinct(was, k, what);
      forall j | 0 <= j < |items| ensures LinkAt(items, j) {
        assert j < k ==> old(LinkAt(items, j));
        assert j > k ==> old(LinkAt(items, j - 1));
      }
    }

    /** privateRemove. */
    method Remove(item: Item<T>, ghost k: nat)
      requires Valid() && k < |items| && items[k] == item
      modifies this, items
      ensures Valid() && items == Without(old(items), k) && item.next == null && item.prev == null
    {
      assert LinkAt(items, k);
      assert k > 0 ==> LinkAt(items, k - 1);
      assert k + 1 < |items| ==> LinkAt(items, k + 1);
      if item.prev != null {
        item.prev.next := item.next;
      } else {
        head := item.next;
      }
      if item.next != null {
        item.next.prev := item.prev;
      } else {
        tail := item.prev;
      }
      count := count - 1;
      item.prev := null;
      item.next := null;
      ghost var was := items;
      items := Without(was, k);
      WithoutAt(was, k);
      WithoutDistinct(was, k);
      forall j | 0 <= j < |items| ensures LinkAt(items, j) {
        assert j < k ==> old(LinkAt(items, j));
        assert j >= k ==> old(LinkAt(items, j + 1));
      }
    }

    /** CS_listPushHead and CS_listPushTail. */
    method PushHead(what: T)
      requires Valid()
      modifies this, items
      ensures Valid() && |items| == |old(items)| + 1 && fresh(items[0]) && items[0].what == what
                && items[1..] == old(items)
    {
      var n := new Item(what);
      InsertBefore(n, head, 0);
    }

    method PushTail(what: T)
      requires Valid()
      modifies this, items
      ensures Valid() && |items| == |old(items)| + 1 && fresh(items[|items| - 1]) && items[|items| - 1].what == what
      ensures items[..|items| - 1] == old(items)
    {
      var n := new Item(what);
      InsertAfter(n, tail, |items|);
    }

    /** CS_listPopHead and CS_listPopTail. */
    method PopHead() returns (r: Item?<T>)
      requires Valid()
      modifies this, items
      ensures Valid() && r == At(old(items), 0)
      ensures items == if old(items) == [] then [] else old(items)[1..]
    {
      r := head;
      if head != null {
        Remove(head, 0);
      }
    }

    method PopTail() returns (r: Item?<T>)
      requires Valid()
      modifies this, items
      ensures Valid() && r == At(old(items), |old(items)| - 1)
      ensures items == if old(items) == [] then [] else old(items)[..|old(items)| - 1]
    {
      r := tail;
      if tail != null {
        Remove(tail, |items| - 1);
      }
    }

    /** CS_listGetByIndex: negative indices count from the tail. */
    method GetByIndex(index: int) returns (r: Item?<T>)
      requires Valid()
      ensures r == At(items, if index < 0 then |items| + index else index)
    {
      var down := index < 0;
      r := if down then tail else head;
      var target, i := if down then 0 else index, if down then index + 1 else 0;
      ghost var start := i;
      while r != null && i < target
        invariant start <= i <= target
        invariant r == At(items, if down then |items| - 1 - (i - start) else i - start)
        invariant r == null ==> At(items, if down then |items| + index else index) == null
      {
        assert LinkAt(items, if down then |items| - 1 - (i - start) else i - start);
        r := if down then r.prev else r.next;
        i := i + 1;
      }
    }

    /** The inner loop of CS_listSort: the first item the new one does not come behind. */
    method Search(compare: (T, T) -> int, current: Item<T>) returns (point: Item?<T>)
      requires Valid()
      ensures point == At(items, Place(compare, current.what, items, 0))
    {
      point := head;
      ghost var k := 0;
      while point != null && compare(current.what, point.what) > 0
        invariant 0 <= k <= |items| && point == At(items, k)
        invariant Place(compare, current.what, items, 0) == Place(compare, current.what, items, k)
        decreases |items| - k
      {
        assert LinkAt(items, k);
        point := point.next;
        k := k + 1;
      }
    }

    /** One turn of CS_listSort. */
    method Settle(compare: (T, T) -> int, current: Item<T>)
      requires Valid() && current !in items
      modifies this, items, current
      ensures Valid() && items == Insert(compare, current, old(items))
    {
      ghost var p := Place(compare, current.what, items, 0);
      var point := Search(compare, current);
      if point != null {
        InsertBefore(current, point, p);
      } else {
        InsertAfter(current, null, p);
      }
    }

    /** The items from place `k` on wait behind each other. */
    ghost predicate Waiting(arrival: seq<Item<T>>, k: nat, next: Item?<T>)
      reads this, items, arrival
    {
      && k <= |arrival| && Distinct(arrival) && next == At(arrival, k)
      && (forall j :: k <= j < |arrival| ==> arrival[j].next == At(arrival, j + 1))
      && (forall x :: x in items ==> x in arrival[..k])
    }

    /** The outer loop of CS_listSort, for the item that waits first. */
    method SettleNext(compare: (T, T) -> int, current: Item<T>, ghost arrival: seq<Item<T>>, ghost k: nat)
        returns (next: Item?<T>)
      requires Valid() && Waiting(arrival, k, current)
      modifies this, arrival
      ensures Valid() && Waiting(arrival, k + 1, next) && items == Insert(compare, arrival[k], old(items))
    {
      next := current.next;
      current.next := null;
      current.prev := null;
      assert current !in arrival[..k];
      assert forall j :: 0 <= j < |items| ==> items[j] in arrival[..k];
      Settle(compare, current);
    }

    /** CS_listSort. */
    method Sort(compare: (T, T) -> int)
      requires Valid()
      modifies this, items
      ensures Valid() && items == Sorting(compare, old(items))
    {
      if head != null {
        ghost var arrival, k := items, 1;
        forall j | 0 <= j < |items| ensures items[j].next == At(items, j + 1) && (j == 0 ==> items[j].prev == null) {
          assert LinkAt(items, j);
        }
        var next := head.next;
        head.next := null;
        tail := head;
        count := 1;
        items := [arrival[0]];
        SortingSteps(compare, arrival, 0);
        while next != null
          invariant 1 <= k <= |arrival| && Valid()
          invariant items == Sorting(compare, arrival[..k])
          invariant Waiting(arrival, k, next)
          decreases |arrival| - k
        {
          SortingSteps(compare, arrival, k);
          next := SettleNext(compare, next, arrival, k);
          k := k + 1;
        }
        assert arrival[..k] == arrival;
      }
    }
  }
}
