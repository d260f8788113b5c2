/** The linear allocator of src/linearalloc.c: a chain of slabs, each with a bump pointer. */
module LinearAlloc {
  import opened Wrappers

  /** CS_alignVoid. */
  function Align(base: nat, alignment: nat): (a: nat)
    requires alignment > 0
    ensures base <= a < base + alignment
  {
    if base % alignment == 0 then base else base + (alignment - base % alignment)
  }

  ghost predicate Aligned(a: nat, alignment: nat) { exists q: nat :: a == alignment * q }

  lemma AlignAligns(base: nat, alignment: nat)
    requires alignment > 0
    ensures Aligned(Align(base, alignment), alignment)
  {
    var q := base / alignment;
    if base % alignment == 0 {
      assert base == alignment * q;
    } else {
      assert Align(base, alignment) == alignment * (q + 1);
    }
  }

  /** One slab of the chain: where its memory starts, how much it has and how much is taken. */
  datatype Cell = Cell(root: nat, size: nat, current: nat)

  datatype Request = Request(size: nat, alignment: nat)

  predicate Proper(q: Request) { q.alignment > 0 }

  // ---- What a request does ----

  function Address(c: Cell, q: Request): nat
    requires Proper(q)
  {
    Align(c.root + c.current, q.alignment)
  }

  predicate Fits(c: Cell, q: Request)
    requires Proper(q)
  {
    Address(c, q) + q.size <= c.root + c.size
  }

  function Advanced(c: Cell, q: Request): Cell
    requires Proper(q)
  {
    c.(current := Address(c, q) - c.root + q.size)
  }

  /** The slab where the search ends: the first from `k` on that has room or is empty. */
  function Stop(chain: seq<Cell>, q: Request, k: nat): (s: nat)
    requires k <= |chain| && Proper(q)
    ensures k <= s <= |chain|
    ensures s < |chain| ==> Fits(chain[s], q) || chain[s].current == 0
    ensures forall j :: k <= j < s ==> !Fits(chain[j], q) && chain[j].current != 0
    decreases |chain| - k
  {
    if k == |chain| || Fits(chain[k], q) || chain[k].current == 0 then k else Stop(chain, q, k + 1)
  }

  /** The chain when the search ends; a new slab would lie at `where`. */
  function Grown(chain: seq<Cell>, q: Request, growable: bool, where: nat): seq<Cell>
    requires chain != [] && Proper(q)
  {
    if Stop(chain, q, 0) < |chain| || !growable then chain else chain + [Cell(where, chain[0].size, 0)]
  }

  function Taken(chain: seq<Cell>, q: Request, growable: bool, where: nat): Option<nat>
    requires chain != [] && Proper(q)
  {
    var s, g := Stop(chain, q, 0), Grown(chain, q, growable, where);
    if s < |g| && Fits(g[s], q) then Some(Address(g[s], q)) else None
  }

  function After(chain: seq<Cell>, q: Request, growable: bool, where: nat): seq<Cell>
    requires chain != [] && Proper(q)
  {
    var s, g := Stop(chain, q, 0), Grown(chain, q, growable, where);
    if s < |g| && Fits(g[s], q) then g[s := Advanced(g[s], q)] else g
  }

  function Emptied(chain: seq<Cell>): (e: seq<Cell>)
    ensures |e| == |chain| && forall k :: 0 <= k < |e| ==> e[k] == chain[k].(current := 0)
  {
    if chain == [] then [] else [chain[0].(current := 0)] + Emptied(chain[1..])
  }

  // ---- Regions ----

  /** What was handed out, from which slab, and the alignment that was asked for. */
  datatype Region = Region(slab: nat, address: nat, size: nat, alignment: nat)

  predicate Apart(a: nat, n: nat, b: nat, m: nat) { a + n <= b || b + m <= a }

  /** The slabs lie apart, and none is filled beyond its size. */
  predicate Laid(chain: seq<Cell>)
  {
    && (forall i, j :: 0 <= i < j < |chain| ==> Apart(chain[i].root, chain[i].size, chain[j].root, chain[j].size))
    && (forall k :: 0 <= k < |chain| ==> chain[k].current <= chain[k].size)
  }

  predicate InSlab(chain: seq<Cell>, r: Region)
  {
    && r.slab < |chain| && chain[r.slab].root <= r.address
    && r.address + r.size <= chain[r.slab].root + chain[r.slab].current
  }

  /** All regions lie in the part of their slab that is taken, as they are aligned, and apart from
      each other. */
  ghost predicate Sound(chain: seq<Cell>, regions: seq<Region>)
  {
    && Laid(chain)
    && (forall k :: 0 <= k < |regions| ==> InSlab(chain, regions[k]))
    && (forall k :: 0 <= k < |regions| ==> Aligned(regions[k].address, regions[k].alignment))
    && (forall i, j :: 0 <= i < j < |regions| ==>
          Apart(regions[i].address, regions[i].size, regions[j].address, regions[j].size))
  }

  /** A place where a new slab does not touch the others. */
  predicate Vacant(chain: seq<Cell>, where: nat)
    requires chain != []
  {
    forall k :: 0 <= k < |chain| ==> Apart(chain[k].root, chain[k].size, where, chain[0].size)
  }

  function Recorded(chain: seq<Cell>, regions: seq<Region>, q: Request, growable: bool, where: nat): seq<Region>
    requires chain != [] && Proper(q)
  {
    var r := Taken(chain, q, growable, where);
    if r.None? then regions else regions + [Region(Stop(chain, q, 0), r.value, q.size, q.alignment)]
  }

  /** What a slab hands out next lies apart from all that was handed out. */
  lemma NextApart(chain: seq<Cell>, regions: seq<Region>, s: nat, q: Request, i: nat)
    requires Proper(q) && Sound(chain, regions) && s < |chain| && Fits(chain[s], q) && i < |regions|
    ensures Apart(regions[i].address, regions[i].size, Address(chain[s], q), q.size)
  {
    assert InSlab(chain, regions[i]);
    var r := regions[i].slab;
    if r < s {
      assert Apart(chain[r].root, chain[r].size, chain[s].root, chain[s].size);
    } else if r > s {
      assert Apart(chain[s].root, chain[s].size, chain[r].root, chain[r].size);
    }
  }

  /** A slab that is filled further keeps what was handed out. */
  lemma AdvancedKeeps(chain: seq<Cell>, regions: seq<Region>, s: nat, q: Request)
    requires Proper(q) && Sound(chain, regions) && s < |chain| && Fits(chain[s], q)
    ensures Sound(chain[s := Advanced(chain[s], q)], regions)
  {
    forall k | 0 <= k < |regions| ensures InSlab(chain[s := Advanced(chain[s], q)], regions[k]) {
      assert InSlab(chain, regions[k]);
    }
  }

  lemma GrownSound(chain: seq<Cell>, regions: seq<Region>, q: Request, growable: bool, where: nat)
    requires chain != [] && Proper(q) && Sound(chain, regions) && Vacant(chain, where)
    ensures Sound(Grown(chain, q, growable, where), regions)
  {
    forall k | 0 <= k < |regions| ensures InSlab(Grown(chain, q, growable, where), regions[k]) {
      assert InSlab(chain, regions[k]);
    }
  }

  lemma OneMoreSound(chain: seq<Cell>, regions: seq<Region>, r: Region)
    requires Sound(chain, regions) && InSlab(chain, r) && Aligned(r.address, r.alignment)
    requires forall i :: 0 <= i < |regions| ==> Apart(regions[i].address, regions[i].size, r.address, r.size)
    ensures Sound(chain, regions + [r])
  {
  }

  /** What a request hands out is aligned, in bounds and apart from all that was handed out. */
  lemma TakeSound(chain: seq<Cell>, regions: seq<Region>, q: Request, growable: bool, where: nat)
    requires chain != [] && Proper(q) && Sound(chain, regions) && Vacant(chain, where)
    ensures Sound(After(chain, q, growable, where), Recorded(chain, regions, q, growable, where))
    ensures var r := Taken(chain, q, growable, where); r.Some? ==> Aligned(r.value, q.alignment)
  {
    var s, g := Stop(chain, q, 0), Grown(chain, q, growable, where);
    GrownSound(chain, regions, q, growable, where);
    if s < |g| && Fits(g[s], q) {
      var r := Region(s, Address(g[s], q), q.size, q.alignment);
      AlignAligns(g[s].root + g[s].current, q.alignment);
      AdvancedKeeps(g, regions, s, q);
      forall i | 0 <= i < |regions| ensures Apart(regions[i].address, regions[i].size, r.address, r.size) {
        NextApart(g, regions, s, q, i);
      }
      OneMoreSound(g[s := Advanced(g[s], q)], regions, r);
    }
  }

  /** A request adds at most one slab; it is refused only where an empty slab would not do, or
      where the chain may not grow. */
  lemma TakeGrows(chain: seq<Cell>, q: Request, growable: bool, where: nat)
    requires chain != [] && Proper(q) && forall k :: 0 <= k < |chain| ==> chain[k].size == chain[0].size
    ensures |After(chain, q, growable, where)| <= |chain| + 1
    ensures growable && q.size + q.alignment <= chain[0].size + 1 ==> Taken(chain, q, growable, where).Some?
    ensures q.size > chain[0].size ==> Taken(chain, q, growable, where).None?
    ensures Taken(chain, q, growable, where).None? ==> After(chain, q, growable, where)[..|chain|] == chain
  {
  }

  /** For one: a request larger than a slab is refused, but a slab has been added. */
  lemma GrowsInVain(where: nat)
    ensures var chain, q := [Cell(0, 8, 8)], Request(9, 1);
            Taken(chain, q, true, where).None? && After(chain, q, true, where) == chain + [Cell(where, 8, 0)]
  {
    assert Stop([Cell(0, 8, 8)], Request(9, 1), 0) == 1;
  }

  // ---- Replay ----

  predicate AllProper(qs: seq<Request>) { forall k :: 0 <= k < |qs| ==> Proper(qs[k]) }

  /** What a run of requests hands out; `supply` says where new slabs would lie. */
  function Results(chain: seq<Cell>, qs: seq<Request>, growable: bool, supply: seq<nat>): (r: seq<Option<nat>>)
    requires chain != [] && |supply| == |qs| && AllProper(qs)
    ensures |r| == |qs|
    decreases |qs|
  {
    if qs == [] then []
    else [Taken(chain, qs[0], growable, supply[0])]
         + Results(After(chain, qs[0], growable, supply[0]), qs[1..], growable, supply[1..])
  }

  /** The chain after the run. */
  function Final(chain: seq<Cell>, qs: seq<Request>, growable: bool, supply: seq<nat>): (f: seq<Cell>)
    requires chain != [] && |supply| == |qs| && AllProper(qs)
    ensures f != []
    decreases |qs|
  {
    if qs == [] then chain else Final(After(chain, qs[0], growable, supply[0]), qs[1..], growable, supply[1..])
  }

  /** All that a run of requests hands out, behind what was handed out before. */
  function RecordedAll(chain: seq<Cell>, regions: seq<Region>, qs: seq<Request>, growable: bool, supply: seq<nat>)
      : seq<Region>
    requires chain != [] && |supply| == |qs| && AllProper(qs)
    decreases |qs|
  {
    if qs == [] then regions
    else RecordedAll(After(chain, qs[0], growable, supply[0]), Recorded(chain, regions, qs[0], growable, supply[0]),
                     qs[1..], growable, supply[1..])
  }

  /** New slabs lie where nothing else is. */
  predicate AllVacant(chain: seq<Cell>, qs: seq<Request>, growable: bool, supply: seq<nat>)
    requires chain != [] && |supply| == |qs| && AllProper(qs)
    decreases |qs|
  {
    qs == []
    || (Vacant(chain, supply[0]) && AllVacant(After(chain, qs[0], growable, supply[0]), qs[1..], growable, supply[1..]))
  }

  /** Over any run of requests, everything that was handed out is aligned, in bounds and apart. */
  lemma {:induction false} RunSound(chain: seq<Cell>, regions: seq<Region>, qs: seq<Request>, growable: bool,
                                    supply: seq<nat>)
    requires chain != [] && |supply| == |qs| && AllProper(qs)
    requires Sound(chain, regions) && AllVacant(chain, qs, growable, supply)
    ensures Sound(Final(chain, qs, growable, supply), RecordedAll(chain, regions, qs, growable, supply))
    decreases |qs|
  {
    if qs != [] {
      TakeSound(chain, regions, qs[0], growable, supply[0]);
      RunSound(After(chain, qs[0], growable, supply[0]), Recorded(chain, regions, qs[0], growable, supply[0]),
               qs[1..], growable, supply[1..]);
    }
  }

  lemma {:induction false} RecordsBehind(chain: seq<Cell>, regions: seq<Region>, qs: seq<Request>, growable: bool,
                                         supply: seq<nat>)
    requires chain != [] && |supply| == |qs| && AllProper(qs)
    ensures regions <= RecordedAll(chain, regions, qs, growable, supply)
    decreases |qs|
  {
    if qs != [] {
      RecordsBehind(After(chain, qs[0], growable, supply[0]), Recorded(chain, regions, qs[0], growable, supply[0]),
                    qs[1..], growable, supply[1..]);
    }
  }

  predicate IsFor(r: Region, address: nat, q: Request)
  {
    r.address == address && r.size == q.size && r.alignment == q.alignment
  }

  /** Whatever the run hands out is among what it records. */
  lemma {:induction false} RecordsResults(chain: seq<Cell>, regions: seq<Region>, qs: seq<Request>, growable: bool,
                                          supply: seq<nat>, k: nat)
    requires chain != [] && |supply| == |qs| && AllProper(qs) && k < |qs|
    requires Results(chain, qs, growable, supply)[k].Some?
    ensures exists r :: r in RecordedAll(chain, regions, qs, growable, supply)
                        && IsFor(r, Results(chain, qs, growable, supply)[k].value, qs[k])
    decreases |qs|
  {
    var next, more := After(chain, qs[0], growable, supply[0]), Recorded(chain, regions, qs[0], growable, supply[0]);
    if k > 0 {
      RecordsResults(next, more, qs[1..], growable, supply[1..], k - 1);
    } else {
      RecordsBehind(next, more, qs[1..], growable, supply[1..]);
      var r := more[|regions|];
      assert r in RecordedAll(next, more, qs[1..], growable, supply[1..]);
      assert IsFor(r, Taken(chain, qs[0], growable, supply[0]).value, qs[0]);
    }
  }

  lemma {:induction false} FinalExtends(chain: seq<Cell>, qs: seq<Request>, growable: bool, supply: seq<nat>)
    requires chain != [] && |supply| == |qs| && AllProper(qs)
    ensures var f := Final(chain, qs, growable, supply);
            && |chain| <= |f| && (!growable ==> |f| == |chain|)
            && forall k :: 0 <= k < |chain| ==> f[k].root == chain[k].root && f[k].size == chain[k].size
    decreases |qs|
  {
    if qs != [] {
      FinalExtends(After(chain, qs[0], growable, supply[0]), qs[1..], growable, supply[1..]);
    }
  }

  /** The empty slabs that a run would still add. */
  function Extra(chain: seq<Cell>, qs: seq<Request>, growable: bool, supply: seq<nat>): seq<Cell>
    requires chain != [] && |supply| == |qs| && AllProper(qs)
  {
    var f := Emptied(Final(chain, qs, growable, supply));
    if |chain| <= |f| then f[|chain|..] else []
  }

  lemma StopBefore(chain: seq<Cell>, extra: seq<Cell>, q: Request)
    requires Proper(q)
    ensures Stop(chain, q, 0) < |chain| ==> Stop(chain + extra, q, 0) == Stop(chain, q, 0)
    ensures Stop(chain, q, 0) == |chain| && extra != [] && extra[0].current == 0 ==>
              Stop(chain + extra, q, 0) == |chain|
  {
    var s, t := Stop(chain, q, 0), Stop(chain + extra, q, 0);
    assert forall k :: 0 <= k < |chain| ==> (chain + extra)[k] == chain[k];
    assert extra != [] ==> (chain + extra)[|chain|] == extra[0];
  }

  lemma ReplayInside(chain: seq<Cell>, extra: seq<Cell>, q: Request, growable: bool, supply: nat, where: nat)
    requires chain != [] && Proper(q) && Stop(chain, q, 0) < |chain| && Stop(chain + extra, q, 0) == Stop(chain, q, 0)
    ensures Taken(chain + extra, q, growable, where) == Taken(chain, q, growable, supply)
    ensures After(chain + extra, q, growable, where) == After(chain, q, growable, supply) + extra
  {
    assert (chain + extra)[Stop(chain, q, 0)] == chain[Stop(chain, q, 0)];
  }

  lemma ReplayBeyond(chain: seq<Cell>, extra: seq<Cell>, q: Request, supply: nat, where: nat)
    requires chain != [] && Proper(q) && Stop(chain, q, 0) == |chain| == Stop(chain + extra, q, 0)
    requires extra != [] && extra[0] == Cell(supply, chain[0].size, 0)
    ensures Taken(chain + extra, q, true, where) == Taken(chain, q, true, supply)
    ensures After(chain + extra, q, true, where) == After(chain, q, true, supply) + extra[1..]
  {
    var n, rest := extra[0], extra[1..];
    assert Grown(chain, q, true, supply) == chain + [n] && Grown(chain + extra, q, true, where) == chain + extra;
    Regrouped(chain, n, rest, if Fits(n, q) then Advanced(n, q) else n);
    assert extra == [n] + rest;
  }

  lemma Regrouped(chain: seq<Cell>, n: Cell, rest: seq<Cell>, a: Cell)
    ensures (chain + ([n] + rest))[|chain|] == n && (chain + [n])[|chain|] == n
    ensures (chain + ([n] + rest))[|chain| := a] == (chain + [n])[|chain| := a] + rest
    ensures (chain + ([n] + rest)) == (chain + [n]) + rest
  {
  }

  /** One request on a chain that already has the slabs of `final`, which the run would add. */
  lemma ReplayStep(chain: seq<Cell>, q: Request, growable: bool, supply: nat, final: seq<Cell>, where: nat)
    requires chain != [] && Proper(q) && |chain| <= |final| && (!growable ==> |final| == |chain|)
    requires forall k :: 0 <= k < |final| ==> final[k].current == 0
    requires var after := After(chain, q, growable, supply);
             && |after| <= |final|
             && forall k :: 0 <= k < |after| ==> final[k].root == after[k].root && final[k].size == after[k].size
    ensures var c, after := chain + final[|chain|..], After(chain, q, growable, supply);
            && Taken(c, q, growable, where) == Taken(chain, q, growable, supply)
            && After(c, q, growable, where) == after + final[|after|..]
  {
    var extra, after := final[|chain|..], After(chain, q, growable, supply);
    var s := Stop(chain, q, 0);
    StopBefore(chain, extra, q);
    if s < |chain| {
      ReplayInside(chain, extra, q, growable, supply, where);
    } else if growable {
      assert extra[0] == final[|chain|] == Cell(supply, chain[0].size, 0);
      ReplayBeyond(chain, extra, q, supply, where);
      assert extra[1..] == final[|chain| + 1..];
    } else {
      assert extra == [] && chain + extra == chain;
    }
  }

  lemma {:induction false} ReplayRun(chain: seq<Cell>, qs: seq<Request>, growable: bool, supply: seq<nat>,
                                     other: seq<nat>)
    requires chain != [] && |supply| == |qs| == |other| && AllProper(qs)
    ensures Results(chain + Extra(chain, qs, growable, supply), qs, growable, other) ==
              Results(chain, qs, growable, supply)
    decreases |qs|
  {
    if qs != [] {
      var after := After(chain, qs[0], growable, supply[0]);
      FinalExtends(chain, qs, growable, supply);
      FinalExtends(after, qs[1..], growable, supply[1..]);
      ReplayStep(chain, qs[0], growable, supply[0], Emptied(Final(chain, qs, growable, supply)), other[0]);
      ReplayRun(after, qs[1..], growable, supply[1..], other[1..]);
    }
  }

  /** After a reset the same requests get the same addresses, even though the chain has grown,
      and wherever new slabs would lie now. */
  lemma Replay(chain: seq<Cell>, qs: seq<Request>, growable: bool, supply: seq<nat>, other: seq<nat>)
    requires chain != [] && Emptied(chain) == chain && |supply| == |qs| == |other| && AllProper(qs)
    ensures Results(Emptied(Final(chain, qs, growable, supply)), qs, growable, other) ==
              Results(chain, qs, growable, supply)
  {
    FinalExtends(chain, qs, growable, supply);
    assert Emptied(Final(chain, qs, growable, supply)) == chain + Extra(chain, qs, growable, supply);
    ReplayRun(chain, qs, growable, supply, other);
  }

  // ---- The search ----

  /** The search has come to place `k` of `now`, which is the chain or the chain and a new slab. */
  predicate Searched(chain: seq<Cell>, q: Request, growable: bool, where: nat, now: seq<Cell>, k: nat)
    requires Proper(q)
  {
    && chain != [] && k < |now|
    && (now == chain || (growable && k == |chain| && now == chain + [Cell(where, chain[0].size, 0)]))
    && forall j :: 0 <= j < k && j < |chain| ==> !Fits(chain[j], q) && chain[j].current != 0
  }

  /** What the search does next. */
  lemma Ends(chain: seq<Cell>, q: Request, growable: bool, where: nat, now: seq<Cell>, k: nat)
    requires Proper(q) && Searched(chain, q, growable, where, now, k)
    ensures var c, last := now[k], k + 1 == |now|;
            if Fits(c, q) then
              Taken(chain, q, growable, where) == Some(Address(c, q))
                && After(chain, q, growable, where) == now[k := Advanced(c, q)]
            else if c.current == 0 || (last && !growable) then
              Taken(chain, q, growable, where) == None && After(chain, q, growable, where) == now
            else if last then Searched(chain, q, growable, where, now + [Cell(where, now[0].size, 0)], k + 1)
            else Searched(chain, q, growable, where, now, k + 1)
  {
  }

  // ---- The allocator ----

  /** struct CS_LinearAllocator with the memory behind it. */
  class Slab {
    const root: nat
    const size: nat
    const growable: bool
    var current: nat
    var next: Slab?

    constructor (root: nat, size: nat, growable: bool)
      ensures this.root == root && this.size == size && this.growable == growable && current == 0 && next == null
    {
      this.root, this.size, this.growable, current, next := root, size, growable, 0, null;
    }

    ghost function Value(): Cell
      reads this
    {
      Cell(root, size, current)
    }

    /** privateTake. */
    method PrivateTake(q: Request) returns (r: Option<nat>)
      requires Proper(q)
      modifies this`current
      ensures r == if Fits(old(Value()), q) then Some(Address(old(Value()), q)) else None
      ensures Value() == if Fits(old(Value()), q) then Advanced(old(Value()), q) else old(Value())
    {
      var base := root + current;
      var aligned := Align(base, q.alignment);
      if aligned + q.size > root + size {
        return None;
      }
      current := aligned - root + q.size;
      r := Some(aligned);
    }
  }

  class LinearAllocator {
    const first: Slab
    ghost var slabs: seq<Slab>

    ghost predicate LinkAt(k: nat)
      requires k < |slabs|
      reads this, slabs
    {
      slabs[k].next == (if k + 1 < |slabs| then slabs[k + 1] else null) && slabs[k].growable == first.growable
    }

    ghost predicate Valid()
      reads this, slabs
    {
      && slabs != [] && slabs[0] == first
      && (forall i, j :: 0 <= i < j < |slabs| ==> slabs[i] != slabs[j])
      && (forall k :: 0 <= k < |slabs| ==> LinkAt(k) && slabs[k].size == first.size)
    }

    /** The chain the allocator stands for. */
    ghost predicate Holds(chain: seq<Cell>)
      reads this, slabs
    {
      |chain| == |slabs| && forall k :: 0 <= k < |slabs| ==> slabs[k].Value() == chain[k]
    }

    /** CS_linearInit and CS_linearInitNonGrowable. */
    constructor (root: nat, size: nat, growable: bool)
      ensures Valid() && fresh(slabs) && Holds([Cell(root, size, 0)]) && first.growable == growable
    {
      first := new Slab(root, size, growable);
      new;
      slabs := [first];
    }

    /** The chain gets another slab. */
    method Extend(slab: Slab, where: nat, ghost chain: seq<Cell>)
      requires Valid() && Holds(chain) && slab == slabs[|slabs| - 1]
      modifies this, slab
      ensures Valid() && |slabs| == |old(slabs)| + 1 && slabs[..|old(slabs)|] == old(slabs) && fresh(slabs[|slabs| - 1])
      ensures slab.next == slabs[|slabs| - 1] && Holds(chain + [Cell(where, chain[0].size, 0)])
    {
      assert slabs[0].Value() == chain[0];
      var n := new Slab(where, slab.size, slab.growable);
      assert LinkAt(|slabs| - 1);
      slab.next := n;
      slabs := slabs + [n];
      forall k | 0 <= k < |slabs| ensures LinkAt(k) {
        assert k < |old(slabs)| ==> old(LinkAt(k));
      }
    }

    /** privateTake on slab `k` of the chain. */
    method TryAt(slab: Slab, q: Request, ghost now: seq<Cell>, ghost k: nat) returns (r: Option<nat>)
      requires Valid() && Holds(now) && Proper(q) && k < |slabs| && slabs[k] == slab
      modifies slab`current
      ensures Valid()
      ensures if Fits(now[k], q) then r == Some(Address(now[k], q)) && Holds(now[k := Advanced(now[k], q)])
              else r == None && Holds(now)
    {
      assert slab.Value() == now[k];
      r := slab.PrivateTake(q);
      forall j | 0 <= j < |slabs| ensures LinkAt(j) {
        assert old(LinkAt(j));
      }
    }

    /** One turn of CS_linearTake: the slab to go on with, null when the search is over. */
    method Step(slab: Slab, q: Request, where: nat, ghost chain: seq<Cell>, ghost now: seq<Cell>, ghost k: nat)
        returns (r: Option<nat>, next: Slab?, ghost on: seq<Cell>)
      requires Valid() && Holds(now) && Proper(q) && k < |slabs| && slabs[k] == slab
      requires Searched(chain, q, first.growable, where, now, k)
      modifies this, slabs
      ensures Valid() && old(slabs) <= slabs && fresh(slabs[|old(slabs)|..])
      ensures next == null ==>
                Holds(After(chain, q, first.growable, where))
                && r == Taken(chain, q, first.growable, where)
      ensures next != null ==> k + 1 < |slabs| && next == slabs[k + 1] && Holds(on)
      ensures next != null ==> Searched(chain, q, first.growable, where, on, k + 1)
    {
      r := TryAt(slab, q, now, k);
      Ends(chain, q, first.growable, where, now, k);
      assert LinkAt(k);
      assert r.None? ==> slab.Value() == now[k];
      next, on := null, now;
      if r.None? && slab.current != 0 && (slab.next != null || slab.growable) {
        if slab.next == null {
          Extend(slab, where, now);
          on := now + [Cell(where, now[0].size, 0)];
        }
        next := slab.next;
      }
    }

    /** CS_linearTake. */
    method Take(q: Request, where: nat, ghost chain: seq<Cell>) returns (r: Option<nat>)
      requires Valid() && Holds(chain) && Proper(q)
      modifies this, slabs
      ensures Valid() && old(slabs) <= slabs && fresh(slabs[|old(slabs)|..])
      ensures chain != [] && Holds(After(chain, q, first.growable, where))
      ensures r == Taken(chain, q, first.growable, where)
    {
      ghost var k: nat, now := 0, chain;
      var slab: Slab? := first;
      r := None;
      while slab != null
        invariant Valid() && old(slabs) <= slabs && fresh(slabs[|old(slabs)|..])
        invariant slab == null ==>
                    Holds(After(chain, q, first.growable, where))
                    && r == Taken(chain, q, first.growable, where)
        invariant slab != null ==>
                    k < |slabs| && slab == slabs[k] && Holds(now)
                    && Searched(chain, q, first.growable, where, now, k)
        decreases slab != null, |chain| - k
      {
        r, slab, now := Step(slab, q, where, chain, now, k);
        k := k + 1;
      }
    }

    method Clear(slab: Slab, ghost now: seq<Cell>, ghost k: nat)
      requires Valid() && Holds(now) && k < |slabs| && slabs[k] == slab
      modifies slab`current
      ensures Valid() && Holds(now[k := now[k].(current := 0)])
    {
      assert slab.Value() == now[k];
      slab.current := 0;
      forall j | 0 <= j < |slabs| ensures LinkAt(j) {
        assert old(LinkAt(j));
      }
    }

    /** CS_linearReset. */
    method Reset(ghost chain: seq<Cell>)
      requires Valid() && Holds(chain)
      modifies slabs
      ensures Valid() && Holds(Emptied(chain))
    {
      var slab: Slab? := first;
      ghost var k: nat, now := 0, chain;
      while slab != null
        invariant k <= |slabs| && slab == (if k < |slabs| then slabs[k] else null)
        invariant Valid() && Holds(now) && forall j :: 0 <= j < |now| ==>
                    now[j] == if j < k then Emptied(chain)[j] else chain[j]
        decreases |slabs| - k
      {
        Clear(slab, now, k);
        assert LinkAt(k);
        slab := slab.next;
        now := now[k := now[k].(current := 0)];
        k := k + 1;
      }
      assert now == Emptied(chain);
    }
  }
}
