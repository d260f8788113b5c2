/** The temporary buffers of src/tempbuff.c: a ring that hands out memory without ever taking
    any back, and how long what it handed out stays untouched. */
module TempRing {

  import opened Rounding

  /** Where a request of `r` bytes goes when the ring stands at `at`. */
  function Place(size: nat, at: nat, r: nat): (p: nat)
    requires at <= size && r <= size
    ensures p + r <= size
  {
    if at + r > size then 0 else at
  }

  /** struct CS_TempBuffer; addresses are counted from its buffer. */
  class TempBuffer {
    const size: nat
    var current: nat

    ghost predicate Valid()
      reads this
    {
      current <= size
    }

    constructor (size: nat)
      ensures Valid() && this.size == size && current == 0
    {
      this.size, current := size, 0;
    }

    /** privateAllocate: -1 for NULL. */
    method Allocate(request: nat, align: nat) returns (r: int)
      requires Valid() && align > 0
      modifies this
      ensures Valid()
      ensures var taken := Rounded(request, align);
              if taken > size then r == -1 && current == old(current)
              else r == Place(size, old(current), taken) && current == r + taken
      ensures r == -1 || r == if old(current) + Rounded(request, align) <= size then old(current) else 0
    {
      var realSize := if request % align == 0 then request else request + (align - request % align);
      if realSize > size {
        return -1;
      }
      if current + realSize > size {
        current := 0;
      }
      r := current;
      current := current + realSize;
    }
  }

  // ---- Any run ----

  function Sum(s: seq<nat>): nat { if s == [] then 0 else s[0] + Sum(s[1..]) }

  predicate Fitting(size: nat, rs: seq<nat>) { forall k :: 0 <= k < |rs| ==> rs[k] <= size }

  /** The places of requests that come one after the other. */
  function Places(size: nat, at: nat, rs: seq<nat>): (ps: seq<nat>)
    requires at <= size && Fitting(size, rs)
    ensures |ps| == |rs|
    decreases |rs|
  {
    if rs == [] then []
    else
      var p := Place(size, at, rs[0]);
      [p] + Places(size, p + rs[0], rs[1..])
  }

  /** While nothing wraps, the places follow each other. */
  predicate Straight(size: nat, at: nat, rs: seq<nat>) { at + Sum(rs) <= size }

  lemma {:induction false} StraightPlaces(size: nat, at: nat, rs: seq<nat>, j: nat)
    requires at <= size && Fitting(size, rs) && Straight(size, at, rs) && j < |rs|
    ensures Places(size, at, rs)[j] == at + Sum(rs[..j])
    decreases |rs|
  {
    if j == 0 {
      assert rs[..0] == [];
    } else {
      StraightPlaces(size, at + rs[0], rs[1..], j - 1);
      assert rs[..j][1..] == rs[1..][..j - 1];
    }
  }

  lemma {:induction false} SumSplit(a: seq<nat>, k: nat)
    requires k <= |a|
    ensures Sum(a) == Sum(a[..k]) + Sum(a[k..])
    decreases k
  {
    if k == 0 {
      assert a[..0] == [] && a[0..] == a;
    } else {
      SumSplit(a[1..], k - 1);
      assert a[..k][1..] == a[1..][..k - 1] && a[1..][k - 1..] == a[k..];
    }
  }

  /** From where the ring stands, `rs` places the last of its requests below `first`, a place the
      ring has passed, or straight on. */
  lemma {:induction false} LastPlace(size: nat, first: nat, at: nat, rs: seq<nat>)
    requires rs != [] && first <= at <= size && Fitting(size, rs)
    requires forall k :: 0 <= k < |rs| ==> at - first + Sum(rs) <= size - rs[k]
    ensures var p, r := Places(size, at, rs)[|rs| - 1], rs[|rs| - 1];
            p >= at || p + r <= first
    decreases |rs|
  {
    var p := Place(size, at, rs[0]);
    if p == at {
      if |rs| > 1 {
        assert forall k :: 0 <= k < |rs[1..]| ==> rs[1..][k] == rs[k + 1];
        LastPlace(size, first, at + rs[0], rs[1..]);
      }
    } else {
      assert Sum(rs) <= size - rs[0] - (at - first);
      assert at + rs[0] > size;
      StraightPlaces(size, 0, rs, |rs| - 1);
      Rewound(size, at, rs, |rs| - 1);
      SumSplit(rs, |rs| - 1);
      assert rs[|rs| - 1..] == [rs[|rs| - 1]];
    }
  }

  /** A ring that wraps stands as one that starts anew. */
  lemma Rewound(size: nat, at: nat, rs: seq<nat>, j: nat)
    requires rs != [] && at <= size && Fitting(size, rs) && at + rs[0] > size && j < |rs|
    ensures Places(size, at, rs)[j] == Places(size, 0, rs)[j]
  {
  }

  /** The first allocation and a later one. */
  lemma FirstApart(size: nat, at: nat, rs: seq<nat>, j: nat)
    requires at <= size && Fitting(size, rs) && 0 < j < |rs|
    requires forall k :: 0 < k <= j ==> Sum(rs[..j + 1]) <= size - rs[k]
    ensures var ps := Places(size, at, rs);
            ps[0] + rs[0] <= ps[j] || ps[j] + rs[j] <= ps[0]
  {
    var p, tail, between := Place(size, at, rs[0]), rs[1..], rs[1..j + 1];
    assert rs[..j + 1][1..] == between;
    LastPlace(size, p, p + rs[0], between);
    Prefix(size, p + rs[0], tail, j);
    assert tail[..j] == between;
  }

  /** Two allocations never overlap if the rounded sizes from the first through the second sum to
      at most the size of the buffer less the largest request behind the first, wraps included. */
  lemma {:induction false} NoOverlap(size: nat, at: nat, rs: seq<nat>, i: nat, j: nat)
    requires at <= size && Fitting(size, rs) && i < j < |rs|
    requires forall k :: i < k <= j ==> Sum(rs[i..j + 1]) <= size - rs[k]
    ensures var ps := Places(size, at, rs);
            ps[i] + rs[i] <= ps[j] || ps[j] + rs[j] <= ps[i]
    decreases i
  {
    if i == 0 {
      assert rs[0..j + 1] == rs[..j + 1];
      FirstApart(size, at, rs, j);
    } else {
      var tail := rs[1..];
      assert tail[i - 1..j] == rs[i..j + 1];
      forall k | i - 1 < k <= j - 1 ensures Sum(tail[i - 1..j]) <= size - tail[k] {
        assert tail[k] == rs[k + 1];
      }
      NoOverlap(size, Place(size, at, rs[0]) + rs[0], tail, i - 1, j - 1);
    }
  }

  /** A place depends on nothing that comes later. */
  lemma {:induction false} Prefix(size: nat, at: nat, rs: seq<nat>, n: nat)
    requires at <= size && Fitting(size, rs) && n <= |rs|
    ensures Fitting(size, rs[..n]) && Places(size, at, rs)[..n] == Places(size, at, rs[..n])
    decreases |rs|
  {
    if n > 0 {
      var p := Place(size, at, rs[0]);
      Prefix(size, p + rs[0], rs[1..], n - 1);
      assert rs[..n][1..] == rs[1..][..n - 1];
    }
  }
}
