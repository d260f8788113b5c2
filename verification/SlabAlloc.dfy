/** The slab allocator of src/slaballoc.c: equal items in a growing chain of slabs, the free
    ones of each slab linked through their own memory. */
module SlabAlloc {
  import opened Rounding
  import opened Sequences

  const NULL := 0
  /** sizeof( struct SlabAllocItem ) */
  const MIN_ITEM_SIZE := 8
  /** CRANKSHAFT_MIN_ALIGNMENT */
  const MIN_ALIGNMENT := 8

  /** The machine word at each address of an item. */
  class Memory {
    var word: map<int, int>

    constructor ()
      ensures word == map[]
    {
      word := map[];
    }
  }

  // ---- The items of a slab ----

  datatype Shape = Shape(buffer: int, size: int, capacity: int)

  ghost predicate Proper(s: Shape)
  {
    s.buffer > 0 && s.size >= MIN_ITEM_SIZE && MultipleOf(s.size, MIN_ALIGNMENT) && s.capacity > 0
  }

  /** The size initSlabAlloc gives an item. */
  function RealSize(size: nat, alignment: nat): nat
    requires alignment > 0
  {
    Rounded(if size < MIN_ITEM_SIZE then MIN_ITEM_SIZE else size, alignment)
  }

  /** A slab that is added later has items of the same size, though it only asks for the least
      alignment. */
  lemma SameSize(size: nat)
    requires size >= MIN_ITEM_SIZE && MultipleOf(size, MIN_ALIGNMENT)
    ensures RealSize(size, MIN_ALIGNMENT) == size
  {
    RoundedStays(size, MIN_ALIGNMENT);
  }

  /** An item has room for a link, and no more than it needs: 8 bytes for 1 to 8, 16 for 9 to 16. */
  lemma SmallSizes(size: nat)
    requires size <= 16
    ensures RealSize(size, 8) == if size <= 8 then 8 else 16
  {
  }

  /** ALLOC_ITEM. */
  function ItemAt(s: Shape, i: int): int { s.buffer + i * s.size }

  function End(s: Shape): int { ItemAt(s, s.capacity) }

  ghost predicate IsItem(s: Shape, a: int) { exists i :: 0 <= i < s.capacity && a == ItemAt(s, i) }

  lemma NextItem(s: Shape, i: int)
    ensures ItemAt(s, i + 1) == ItemAt(s, i) + s.size
  {
    assert (i + 1) * s.size == i * s.size + s.size;
  }

  lemma {:induction false} ItemsApart(s: Shape, i: int, j: int)
    requires Proper(s) && i < j
    ensures ItemAt(s, i) + s.size <= ItemAt(s, j)
    decreases j - i
  {
    NextItem(s, j - 1);
    if i < j - 1 {
      ItemsApart(s, i, j - 1);
    }
  }

  /** An item lies within its slab. */
  lemma ItemInside(s: Shape, a: int)
    requires Proper(s) && IsItem(s, a)
    ensures s.buffer <= a && a + s.size <= End(s)
  {
    var i :| 0 <= i < s.capacity && a == ItemAt(s, i);
    ItemsApart(s, i, s.capacity);
    if i > 0 { ItemsApart(s, 0, i); }
  }

  /** The test of CS_slabReturn finds just the items. */
  lemma AlignedIsItem(s: Shape, a: int)
    requires Proper(s)
    ensures IsItem(s, a) <==> s.buffer <= a < End(s) && (a - s.buffer) % s.size == 0
  {
    if IsItem(s, a) {
      ItemInside(s, a);
      var i :| 0 <= i < s.capacity && a == ItemAt(s, i);
      Quotient(a - s.buffer, s.size, i);
    } else if s.buffer <= a < End(s) && (a - s.buffer) % s.size == 0 {
      var i := (a - s.buffer) / s.size;
      assert a == ItemAt(s, i);
      if i > s.capacity { ItemsApart(s, s.capacity, i); }
    }
  }

  lemma Multiples(k: int, d: int)
    requires d > 0
    ensures k >= 1 ==> k * d >= d
    ensures k <= -1 ==> k * d <= -d
  {
  }

  lemma Quotient(n: int, d: int, i: int)
    requires d > 0 && i >= 0 && n == i * d
    ensures n % d == 0
  {
    var q := n / d;
    Multiples(i - q, d);
    assert (i - q) * d == n - q * d == n % d;
  }

  // ---- Free lists ----

  function Word(word: map<int, int>, a: int): int { if a in word then word[a] else NULL }

  function Nth(free: seq<int>, k: nat): int { if k < |free| then free[k] else NULL }

  /** From `head` on the words at the free items lead through `free` to NULL. */
  ghost predicate FreeList(word: map<int, int>, head: int, free: seq<int>)
  {
    head == Nth(free, 0) && forall k :: 0 <= k < |free| ==> Word(word, free[k]) == Nth(free, k + 1)
  }

  /** The free list of a slab is acyclic and holds exactly the items that are not live. */
  ghost predicate Kept(word: map<int, int>, s: Shape, head: int, free: seq<int>, live: set<int>)
  {
    && Proper(s) && FreeList(word, head, free) && Distinct(free)
    && forall a :: a in free <==> IsItem(s, a) && a !in live
  }

  lemma KeptElsewhere(word: map<int, int>, s: Shape, head: int, free: seq<int>, live: set<int>, a: int, v: int,
                      live': set<int>)
    requires Kept(word, s, head, free, live) && a !in free
    requires forall b :: IsItem(s, b) ==> (b in live <==> b in live')
    ensures Kept(word[a := v], s, head, free, live')
  {
  }

  lemma KeptTake(word: map<int, int>, s: Shape, head: int, free: seq<int>, live: set<int>)
    requires Kept(word, s, head, free, live) && head != NULL
    ensures free != [] && head == free[0] && IsItem(s, head) && head !in live
    ensures Kept(word, s, Word(word, head), free[1..], live + {head})
  {
    assert forall a :: a in free <==> a == free[0] || a in free[1..];
  }

  lemma KeptReturn(word: map<int, int>, s: Shape, head: int, free: seq<int>, live: set<int>, a: int)
    requires Kept(word, s, head, free, live) && IsItem(s, a) && a in live
    ensures Kept(word[a := head], s, a, [a] + free, live - {a})
  {
  }

  // ---- All items are free ----

  /** The items from `i` on, in their order. */
  function ItemsFrom(s: Shape, i: int): (items: seq<int>)
    requires 0 <= i <= s.capacity
    ensures |items| == s.capacity - i && forall k :: 0 <= k < |items| ==> items[k] == ItemAt(s, i + k)
    decreases s.capacity - i
  {
    if i == s.capacity then [] else [ItemAt(s, i)] + ItemsFrom(s, i + 1)
  }

  function NextOf(s: Shape, i: int): int { if i + 1 >= s.capacity then NULL else ItemAt(s, i + 1) }

  ghost predicate Chained(word: map<int, int>, s: Shape, i: int) { Word(word, ItemAt(s, i)) == NextOf(s, i) }

  /** Nothing but the items of a slab has changed. */
  ghost predicate SameOutside(s: Shape, was: map<int, int>, now: map<int, int>)
  {
    forall a :: !IsItem(s, a) ==> Word(now, a) == Word(was, a)
  }

  lemma ItemsFromMembers(s: Shape)
    requires Proper(s)
    ensures Distinct(ItemsFrom(s, 0)) && forall a :: a in ItemsFrom(s, 0) <==> IsItem(s, a)
  {
    var free := ItemsFrom(s, 0);
    forall i, j | 0 <= i < j < |free| ensures free[i] != free[j] {
      ItemsApart(s, i, j);
    }
    forall a | IsItem(s, a) ensures a in free {
      var i :| 0 <= i < s.capacity && a == ItemAt(s, i);
      assert free[i] == a;
    }
    forall a | a in free ensures IsItem(s, a) {
      var i :| 0 <= i < |free| && a == free[i];
      assert a == ItemAt(s, i);
    }
  }

  lemma AllFree(word: map<int, int>, s: Shape)
    requires Proper(s) && forall i :: 0 <= i < s.capacity ==> Chained(word, s, i)
    ensures Kept(word, s, ItemAt(s, 0), ItemsFrom(s, 0), {})
  {
    var free := ItemsFrom(s, 0);
    ItemsFromMembers(s);
    forall k | 0 <= k < |free| ensures Word(word, free[k]) == Nth(free, k + 1) {
      assert Chained(word, s, k);
    }
  }

  // ---- Counting ----

  lemma OneMore(n: nat, c: int)
    ensures (n + 1) * c == n * c + c
  {
  }

  lemma {:induction false} DistinctSize(items: seq<int>)
    requires Distinct(items)
    ensures |set a | a in items| == |items|
    decreases |items|
  {
    if items != [] {
      var rest := items[1..];
      DistinctSize(rest);
      assert (set a | a in items) == {items[0]} + set a | a in rest;
    }
  }

  /** The live items of one slab. */
  ghost function LiveIn(s: Shape, live: set<int>): set<int> { set a | a in live && IsItem(s, a) }

  /** In every slab the free and the live items make up its capacity. */
  lemma SlabCount(word: map<int, int>, s: Shape, head: int, free: seq<int>, live: set<int>)
    requires Kept(word, s, head, free, live)
    ensures |free| + |LiveIn(s, live)| == s.capacity
  {
    var items := ItemsFrom(s, 0);
    ItemsFromMembers(s);
    DistinctSize(items);
    DistinctSize(free);
    var all, spare := set a | a in items, set a | a in free;
    assert all == spare + LiveIn(s, live) && spare !! LiveIn(s, live);
  }

  // ---- Slabs apart from each other ----

  predicate Apart(s: Shape, t: Shape) { End(s) <= t.buffer || End(t) <= s.buffer }

  lemma ApartItems(s: Shape, t: Shape, a: int)
    requires Proper(s) && Proper(t) && Apart(s, t) && IsItem(s, a)
    ensures !IsItem(t, a)
  {
    ItemInside(s, a);
    if IsItem(t, a) {
      ItemInside(t, a);
    }
  }

  /** What happens in one slab leaves the free lists of the others alone. */
  lemma KeptOutside(was: map<int, int>, now: map<int, int>, s: Shape, t: Shape, head: int, free: seq<int>,
                    live: set<int>)
    requires Kept(was, s, head, free, live) && Proper(t) && Apart(s, t) && SameOutside(t, was, now)
    ensures Kept(now, s, head, free, live)
  {
    forall k | 0 <= k < |free| ensures Word(now, free[k]) == Nth(free, k + 1) {
      assert free[k] in free;
      ApartItems(s, t, free[k]);
    }
  }

  // ---- The slabs ----

  /** struct CS_SlabAllocator. */
  class Slab {
    const shape: Shape
    var head: int
    var nextSlab: Slab?
    ghost var free: seq<int>

    constructor (shape: Shape)
      ensures this.shape == shape && nextSlab == null
    {
      this.shape, nextSlab := shape, null;
    }

    /** resetItems, for one slab. */
    method ResetItems(memory: Memory)
      requires Proper(shape)
      modifies memory, `head, `free
      ensures Kept(memory.word, shape, head, free, {}) && free == ItemsFrom(shape, 0)
      ensures SameOutside(shape, old(memory.word), memory.word)
    {
      var i := 0;
      while i < shape.capacity
        invariant 0 <= i <= shape.capacity && SameOutside(shape, old(memory.word), memory.word)
        invariant forall j :: 0 <= j < i ==> Chained(memory.word, shape, j)
      {
        var current := ItemAt(shape, i);
        ghost var was := memory.word;
        memory.word := memory.word[current := NextOf(shape, i)];
        forall j | 0 <= j < i ensures Chained(memory.word, shape, j) {
          ItemsApart(shape, j, i);
          assert Chained(was, shape, j);
        }
        assert IsItem(shape, current);
        i := i + 1;
      }
      head := ItemAt(shape, 0);
      free := ItemsFrom(shape, 0);
      AllFree(memory.word, shape);
    }
  }

  /** The slabs are of one kind and lie apart. */
  ghost predicate Spread(slabs: seq<Slab>)
  {
    && slabs != []
    && (forall i, j :: 0 <= i < j < |slabs| ==> slabs[i] != slabs[j] && Apart(slabs[i].shape, slabs[j].shape))
    && (forall k :: 0 <= k < |slabs| ==>
          Proper(slabs[k].shape)
          && slabs[k].shape == slabs[0].shape.(buffer := slabs[k].shape.buffer))
  }

  ghost predicate Owned(slabs: seq<Slab>, a: int) { exists k :: 0 <= k < |slabs| && IsItem(slabs[k].shape, a) }

  ghost predicate KeptAt(word: map<int, int>, slabs: seq<Slab>, live: set<int>, k: nat)
    requires k < |slabs|
    reads slabs
  {
    Kept(word, slabs[k].shape, slabs[k].head, slabs[k].free, live)
  }

  ghost predicate LinkAt(slabs: seq<Slab>, k: nat)
    requires k < |slabs|
    reads slabs
  {
    slabs[k].nextSlab == if k + 1 < |slabs| then slabs[k + 1] else null
  }

  lemma OneSlab(slabs: seq<Slab>, i: nat, a: int)
    requires Spread(slabs) && i < |slabs| && IsItem(slabs[i].shape, a)
    ensures forall j :: 0 <= j < |slabs| && j != i ==> !IsItem(slabs[j].shape, a)
  {
    forall j | 0 <= j < |slabs| && j != i ensures !IsItem(slabs[j].shape, a) {
      assert Apart(slabs[if i < j then i else j].shape, slabs[if i < j then j else i].shape);
      ApartItems(slabs[i].shape, slabs[j].shape, a);
    }
  }

  /** An item of a slab apart from all others is in none of them. */
  lemma NotOwned(slabs: seq<Slab>, shape: Shape, a: int)
    requires Spread(slabs) && Proper(shape) && IsItem(shape, a)
    requires forall k :: 0 <= k < |slabs| ==> Apart(slabs[k].shape, shape)
    ensures !Owned(slabs, a)
  {
    forall k | 0 <= k < |slabs| ensures !IsItem(slabs[k].shape, a) {
      ApartItems(shape, slabs[k].shape, a);
    }
  }

  lemma OwnedMore(slabs: seq<Slab>, n: Slab, live: set<int>)
    requires forall a :: a in live ==> Owned(slabs, a)
    ensures forall a :: a in live ==> Owned(slabs + [n], a)
  {
    forall a | a in live ensures Owned(slabs + [n], a) {
      var k :| 0 <= k < |slabs| && IsItem(slabs[k].shape, a);
      assert (slabs + [n])[k] == slabs[k];
    }
  }

  class SlabAllocator {
    const memory: Memory
    const first: Slab
    ghost var slabs: seq<Slab>
    /** What was taken and not returned. */
    ghost var live: set<int>

    ghost predicate Valid()
      reads this, memory, slabs
    {
      && Spread(slabs) && slabs[0] == first
      && (forall k :: 0 <= k < |slabs| ==> KeptAt(memory.word, slabs, live, k) && LinkAt(slabs, k))
      && (forall a :: a in live ==> Owned(slabs, a))
    }

    /** No slab reaches into where a new one would lie. */
    ghost predicate Vacant(where: int)
      reads this
    {
      where > 0 && forall k :: 0 <= k < |slabs| ==> Apart(slabs[k].shape, first.shape.(buffer := where))
    }

    /** CS_slabInit: the first slab, at a place that CS_alloc has chosen. */
    constructor (memory: Memory, size: nat, count: nat, alignment: nat, where: int)
      requires where > 0 && count > 0 && alignment > 0 && MultipleOf(alignment, MIN_ALIGNMENT)
      modifies memory
      ensures Valid() && fresh(slabs) && live == {} && |slabs| == 1 && this.memory == memory
      ensures first.shape == Shape(where, RealSize(size, alignment), count)
    {
      this.memory := memory;
      MultiplesCompose(RealSize(size, alignment), alignment, MIN_ALIGNMENT);
      var slab := new Slab(Shape(where, RealSize(size, alignment), count));
      slab.ResetItems(memory);
      first := slab;
      slabs, live := [slab], {};
    }

    /** A slab with all items free, not yet in the chain. */
    method NewSlab(where: int) returns (n: Slab)
      requires Valid() && Vacant(where)
      modifies memory
      ensures Valid() && fresh(n) && n.shape == first.shape.(buffer := where) && n.nextSlab == null && n.head != NULL
      ensures Kept(memory.word, n.shape, n.head, n.free, live)
    {
      SameSize(first.shape.size);
      var shape := Shape(where, RealSize(first.shape.size, MIN_ALIGNMENT), first.shape.capacity);
      ghost var word := memory.word;
      n := new Slab(shape);
      forall a | IsItem(shape, a) ensures a !in live {
        NotOwned(slabs, shape, a);
      }
      n.ResetItems(memory);
      forall k | 0 <= k < |slabs| ensures KeptAt(memory.word, slabs, live, k) {
        assert old(KeptAt(memory.word, slabs, live, k));
        KeptOutside(word, memory.word, slabs[k].shape, shape, slabs[k].head, slabs[k].free, live);
      }
      forall k | 0 <= k < |slabs| ensures LinkAt(slabs, k) {
        assert old(LinkAt(slabs, k));
      }
    }

    /** The chain gets another slab. */
    method Extend(last: Slab, where: int) returns (n: Slab)
      requires Valid() && last == slabs[|slabs| - 1] && Vacant(where)
      modifies this`slabs, memory, last`nextSlab
      ensures Valid() && slabs == old(slabs) + [n] && fresh(n) && n.head != NULL
    {
      n := NewSlab(where);
      label Made:
      OwnedMore(slabs, n, live);
      last.nextSlab := n;
      slabs := slabs + [n];
      forall k | 0 <= k < |slabs| ensures KeptAt(memory.word, slabs, live, k) && LinkAt(slabs, k) {
        assert k < |old(slabs)| ==> old@Made(KeptAt(memory.word, slabs, live, k) && LinkAt(slabs, k));
      }
    }

    /** Handing out the first free item of slab `k`. */
    method Pop(slab: Slab, ghost k: nat) returns (r: int)
      requires Valid() && k < |slabs| && slabs[k] == slab && slab.head != NULL
      modifies this`live, slab`head, slab`free
      ensures Valid() && r == old(slab.head) && r !in old(live) && live == old(live) + {r} && IsItem(slab.shape, r)
    {
      assert KeptAt(memory.word, slabs, live, k);
      KeptTake(memory.word, slab.shape, slab.head, slab.free, live);
      r := slab.head;
      OneSlab(slabs, k, r);
      slab.head := Word(memory.word, r);
      slab.free := slab.free[1..];
      live := live + {r};
      forall j | 0 <= j < |slabs| ensures KeptAt(memory.word, slabs, live, j) && LinkAt(slabs, j) {
        assert old(KeptAt(memory.word, slabs, live, j) && LinkAt(slabs, j));
      }
      assert Owned(slabs, r);
    }

    /** The search of CS_slabTake: the first slab with a free item, or else the last slab. */
    method FindFree() returns (slab: Slab, ghost k: nat)
      requires Valid()
      ensures k < |slabs| && slab == slabs[k] && forall j :: 0 <= j < k ==> slabs[j].free == []
      ensures slab.head == NULL ==> k == |slabs| - 1 && slab.free == []
    {
      slab, k := first, 0;
      while slab.head == NULL && slab.nextSlab != null
        invariant k < |slabs| && slab == slabs[k] && forall j :: 0 <= j < k ==> slabs[j].free == []
        decreases |slabs| - k
      {
        Spent(k);
        assert LinkAt(slabs, k);
        slab := slab.nextSlab;
        k := k + 1;
      }
      assert LinkAt(slabs, k);
      if slab.head == NULL {
        Spent(k);
      }
    }

    /** CS_slabTake: an item that nobody has; the chain grows only if no slab has a free one. */
    method Take(where: int) returns (r: int)
      requires Valid() && Vacant(where)
      modifies this, memory, slabs
      ensures Valid() && old(slabs) <= slabs && fresh(slabs[|old(slabs)|..]) && |slabs| <= |old(slabs)| + 1
      ensures r !in old(live) && live == old(live) + {r} && Owned(slabs, r)
      ensures |slabs| > |old(slabs)| ==> forall k :: 0 <= k < |old(slabs)| ==> old(slabs[k].free) == []
    {
      var slab, k := FindFree();
      if slab.head == NULL {
        slab := Extend(slab, where);
        k := k + 1;
      }
      r := Pop(slab, k);
    }

    /** A slab without a head has no free item. */
    lemma Spent(k: nat)
      requires Valid() && k < |slabs| && slabs[k].head == NULL
      ensures slabs[k].free == []
    {
      assert KeptAt(memory.word, slabs, live, k);
      if slabs[k].free != [] {
        assert slabs[k].free[0] in slabs[k].free;
        ItemInside(slabs[k].shape, slabs[k].free[0]);
      }
    }

    /** Taking an item back into slab `k`. */
    method Push(slab: Slab, p: int, ghost k: nat)
      requires Valid() && k < |slabs| && slabs[k] == slab && IsItem(slab.shape, p) && p in live
      modifies this`live, memory, slab`head, slab`free
      ensures Valid() && live == old(live) - {p}
    {
      ghost var word, head, free := memory.word, slab.head, slab.free;
      OneSlab(slabs, k, p);
      forall j | 0 <= j < |slabs| ensures if j == k then Kept(word[p := head], slab.shape, p, [p] + free, live - {p})
                                          else Kept(word[p := head], slabs[j].shape, slabs[j].head, slabs[j].free,
                                                     live - {p}) {
        assert KeptAt(word, slabs, live, j);
        if j == k {
          KeptReturn(word, slab.shape, head, free, live, p);
        } else {
          KeptElsewhere(word, slabs[j].shape, slabs[j].head, slabs[j].free, live, p, head, live - {p});
        }
      }
      memory.word := memory.word[p := slab.head];
      slab.head := p;
      slab.free := [p] + slab.free;
      live := live - {p};
      forall j | 0 <= j < |slabs| ensures KeptAt(memory.word, slabs, live, j) && LinkAt(slabs, j) {
        assert old(LinkAt(slabs, j));
      }
    }

    /** The search of CS_slabReturn: the slab an address lies in. */
    method FindSlab(p: int) returns (slab: Slab?, ghost k: nat)
      requires Valid()
      ensures slab == null ==> !Owned(slabs, p)
      ensures slab != null ==> k < |slabs| && slab == slabs[k] && slab.shape.buffer <= p < End(slab.shape)
    {
      slab, k := first, 0;
      while slab != null && (p < slab.shape.buffer || p >= End(slab.shape))
        invariant k <= |slabs| && slab == (if k < |slabs| then slabs[k] else null)
        invariant forall j :: 0 <= j < k ==> !IsItem(slabs[j].shape, p)
        decreases |slabs| - k
      {
        AlignedIsItem(slab.shape, p);
        assert LinkAt(slabs, k);
        slab := slab.nextSlab;
        k := k + 1;
      }
    }

    /** CS_slabReturn, for a caller that returns only what it has: anything that is no item of a
        slab is refused and changes nothing. */
    method Return(p: int) returns (error: bool)
      requires Valid() && (Owned(slabs, p) ==> p in live)
      modifies this`live, memory, slabs
      ensures Valid() && slabs == old(slabs) && (error <==> !Owned(slabs, p))
      ensures live == if error then old(live) else old(live) - {p}
      ensures error ==> memory.word == old(memory.word) && forall s :: s in slabs ==>
                s.head == old(s.head)
                && s.free == old(s.free)
    {
      error := true;
      var slab, k := FindSlab(p);
      if slab != null {
        AlignedIsItem(slab.shape, p);
        if (p - slab.shape.buffer) % slab.shape.size == 0 {
          error := false;
          Push(slab, p, k);
        } else {
          NoOther(k, p);
        }
      }
    }

    /** What lies within one slab lies in no other. */
    lemma NoOther(k: nat, p: int)
      requires Valid() && k < |slabs| && slabs[k].shape.buffer <= p < End(slabs[k].shape) && !IsItem(slabs[k].shape, p)
      ensures !Owned(slabs, p)
    {
      forall j | 0 <= j < |slabs| ensures !IsItem(slabs[j].shape, p) {
        if j != k {
          assert Apart(slabs[if j < k then j else k].shape, slabs[if j < k then k else j].shape);
        }
        AlignedIsItem(slabs[j].shape, p);
      }
    }

    /** A client writes to what it has taken. */
    method Write(a: int, v: int)
      requires Valid() && a in live
      modifies memory
      ensures Valid() && memory.word == old(memory.word)[a := v]
    {
      ghost var word := memory.word;
      forall k | 0 <= k < |slabs| ensures Kept(word[a := v], slabs[k].shape, slabs[k].head, slabs[k].free, live) {
        assert KeptAt(word, slabs, live, k);
        KeptElsewhere(word, slabs[k].shape, slabs[k].head, slabs[k].free, live, a, v, live);
      }
      memory.word := memory.word[a := v];
      forall k | 0 <= k < |slabs| ensures LinkAt(slabs, k) {
        assert old(LinkAt(slabs, k));
      }
    }

    /** CS_slabReset: everything is free in every slab. */
    method Reset()
      requires Valid()
      modifies this`live, memory, slabs
      ensures Valid() && slabs == old(slabs) && live == {}
      ensures forall k :: 0 <= k < |slabs| ==> slabs[k].free == ItemsFrom(slabs[k].shape, 0)
    {
      var slab: Slab? := first;
      ghost var k: nat := 0;
      while slab != null
        invariant k <= |slabs| && slab == (if k < |slabs| then slabs[k] else null)
        invariant forall j :: 0 <= j < |slabs| ==> LinkAt(slabs, j)
        invariant forall j :: 0 <= j < k ==>
                    KeptAt(memory.word, slabs, {}, j)
                    && slabs[j].free == ItemsFrom(slabs[j].shape, 0)
        decreases |slabs| - k
      {
        slab := ResetSlab(slab, k);
        k := k + 1;
      }
      live := {};
    }

    method ResetSlab(slab: Slab, ghost k: nat) returns (next: Slab?)
      requires Spread(slabs) && k < |slabs| && slab == slabs[k]
      requires forall j :: 0 <= j < |slabs| ==> LinkAt(slabs, j)
      requires forall j :: 0 <= j < k ==>
                 KeptAt(memory.word, slabs, {}, j)
                 && slabs[j].free == ItemsFrom(slabs[j].shape, 0)
      modifies memory, slab`head, slab`free
      ensures forall j :: 0 <= j < |slabs| ==> LinkAt(slabs, j)
      ensures forall j :: 0 <= j <= k ==>
                KeptAt(memory.word, slabs, {}, j)
                && slabs[j].free == ItemsFrom(slabs[j].shape, 0)
      ensures next == if k + 1 < |slabs| then slabs[k + 1] else null
    {
      ghost var word := memory.word;
      next := slab.nextSlab;
      assert LinkAt(slabs, k);
      slab.ResetItems(memory);
      forall j | 0 <= j < k ensures KeptAt(memory.word, slabs, {}, j) {
        assert old(KeptAt(memory.word, slabs, {}, j));
        KeptOutside(word, memory.word, slabs[j].shape, slab.shape, slabs[j].head, slabs[j].free, {});
      }
      forall j | 0 <= j < |slabs| ensures LinkAt(slabs, j) {
        assert old(LinkAt(slabs, j));
      }
    }

    /** The free items of the first `n` slabs. */
    ghost function FreeTotal(n: nat): nat
      requires n <= |slabs|
      reads this, slabs
    {
      if n == 0 then 0 else FreeTotal(n - 1) + |slabs[n - 1].free|
    }

    ghost function LiveTo(n: nat): set<int>
      requires n <= |slabs|
      reads this, slabs
    {
      set a | a in live && exists k :: 0 <= k < n && IsItem(slabs[k].shape, a)
    }

    lemma LiveStep(n: nat)
      requires Valid() && 0 < n <= |slabs|
      ensures |LiveTo(n)| == |LiveTo(n - 1)| + |LiveIn(slabs[n - 1].shape, live)|
    {
      var s := slabs[n - 1].shape;
      forall a | a in LiveIn(s, live) ensures a !in LiveTo(n - 1) {
        OneSlab(slabs, n - 1, a);
      }
      assert LiveTo(n) == LiveTo(n - 1) + LiveIn(s, live) && LiveTo(n - 1) !! LiveIn(s, live);
    }

    lemma {:induction false} CountTo(n: nat)
      requires Valid() && n <= |slabs|
      ensures FreeTotal(n) + |LiveTo(n)| == n * first.shape.capacity
      decreases n
    {
      if n == 0 {
        assert LiveTo(0) == {};
      } else {
        CountTo(n - 1);
        LiveStep(n);
        assert KeptAt(memory.word, slabs, live, n - 1);
        var s := slabs[n - 1];
        SlabCount(memory.word, s.shape, s.head, s.free, live);
        OneMore(n - 1, first.shape.capacity);
      }
    }

    /** No item is ever lost: the free and the live ones make up all slabs. */
    lemma Conservation()
      requires Valid()
      ensures FreeTotal(|slabs|) + |live| == |slabs| * first.shape.capacity
    {
      CountTo(|slabs|);
      assert LiveTo(|slabs|) == live by {
        assert forall a :: a in live ==> Owned(slabs, a);
      }
    }
  }
}
