/** CS_jsonFree of src/json.c: a walk without a stack that cuts the containers on its way down. */
module JsonFree {
  import opened JsonTree
  import opened JsonLayout
  import opened JsonNodes
  import opened JsonWalk
  import P = JsonParser
  import W = Wrappers

  type Alloc = W.Option<int>

  /** The allocations of the first `n` nodes, in their order. */
  function Given(allocs: seq<Alloc>, n: nat): seq<int>
    requires n <= |allocs|
  {
    if n == 0 then []
    else Given(allocs, n - 1) + if allocs[n - 1].Some? then [allocs[n - 1].value] else []
  }

  /** The nodes before `e` have given up their allocation, the others still have it. */
  ghost predicate FreedTo(nodes: seq<JsonNode>, allocs: seq<Alloc>, e: nat)
    requires |allocs| == |nodes|
    reads nodes
  {
    forall k :: 0 <= k < |nodes| ==> nodes[k].alloc == if k < e then W.None else allocs[k]
  }

  // ---- Cutting a container behind the walk ----

  function CutAt(recs: seq<Rec>, k: nat): seq<Rec>
    requires k < |recs|
  {
    recs[k := recs[k].(container := NONE)]
  }

  lemma {:induction false} DoneCut(recs: seq<Rec>, k: nat, ctx: Ctx, rest: Forest, j: nat, e: nat)
    requires Done(recs, ctx, rest, j, e) && k < e && k < |recs|
    ensures Done(CutAt(recs, k), ctx, rest, j, e)
    decreases ctx, 1
  {
    if rest.Cons? {
      LastIn(recs, e, rest, recs[j].up, j, NONE);
      SibsLocal(recs, CutAt(recs, k), e, rest, recs[j].up, j, NONE);
    }
    AroundCut(recs, k, ctx, recs[j].up, e + SizeAll(rest));
  }

  lemma {:induction false} AroundCut(recs: seq<Rec>, k: nat, ctx: Ctx, up: int, e: nat)
    requires Around(recs, ctx, up, e) && k < e && k < |recs|
    ensures Around(CutAt(recs, k), ctx, up, e)
    decreases ctx, 0
  {
    if ctx.Under? {
      DoneCut(recs, k, ctx.outer, ctx.rest, up, e);
    }
  }

  lemma FocusCut(recs: seq<Rec>, k: nat, ctx: Ctx, i: nat, f: Forest)
    requires Focus(recs, ctx, i, f) && k < i
    ensures Focus(CutAt(recs, k), ctx, i, f)
  {
    LastIn(recs, i, f, recs[i].up, recs[i].last, NONE);
    SibsLocal(recs, CutAt(recs, k), i, f, recs[i].up, recs[i].last, NONE);
    AroundCut(recs, k, ctx, recs[i].up, i + SizeAll(f));
  }

  // ---- The walk ----

  /** Where the walk stands: before its first visit to a node, or back at one it has done with. */
  datatype Stand = Coming(ctx: Ctx, f: Forest, i: nat) | Back(ctx: Ctx, f: Forest, j: nat, e: nat)

  function At(s: Stand): nat { if s.Coming? then s.i else s.j }

  /** The nodes visited so far. */
  function Visited(s: Stand): nat { if s.Coming? then s.i else s.e }

  ghost predicate Standing(recs: seq<Rec>, s: Stand)
  {
    match s
    case Coming(ctx, f, i) => Focus(recs, ctx, i, f) && CutAbove(recs, ctx, recs[i].up)
    case Back(ctx, f, j, e) => Done(recs, ctx, f, j, e) && Uncontained(recs, j) && CutAbove(recs, ctx, recs[j].up)
  }

  /** Nothing hangs below node `j`, or no more. */
  predicate Uncontained(recs: seq<Rec>, j: nat)
    requires j < |recs|
  {
    recs[j].kind in {Array, Object} ==> recs[j].container == NONE
  }

  /** All containers around the walk are cut. */
  ghost predicate CutAbove(recs: seq<Rec>, ctx: Ctx, up: int)
    decreases ctx
  {
    ctx.Under? ==> 0 <= up < |recs| && Uncontained(recs, up) && CutAbove(recs, ctx.outer, recs[up].up)
  }

  lemma {:induction false} AboveCut(recs: seq<Rec>, k: nat, ctx: Ctx, up: int)
    requires CutAbove(recs, ctx, up) && k < |recs|
    ensures CutAbove(CutAt(recs, k), ctx, up)
    decreases ctx
  {
    if ctx.Under? {
      AboveCut(recs, k, ctx.outer, recs[up].up);
    }
  }

  /** The same after this turn. */
  function Now(s: Stand): nat { if s.Coming? then s.i + 1 else s.e }

  function Total(s: Stand): nat { Visited(s) + SizeAll(s.f) + Left(s.ctx) }

  /** Only the root has nothing above it. */
  lemma UpToRoot(recs: seq<Rec>, v: Value, k: nat)
    requires ItemAt(recs, 0, W.None, v, NONE, NONE, NONE) && k < Size(v)
    ensures if k == 0 then recs[k].up == NONE else 0 <= recs[k].up < k
  {
    if k > 0 {
      SibsHead(recs, 1, v.items, 0, NONE, NONE);
      LinksAgree(recs, 1, v.items, 0, NONE, k);
    }
  }

  /** The loop that looks for the root. */
  method Climb(arena: Arena, any: JsonNode, ghost i: nat, ghost top: JsonNode, ghost v: Value) returns (root: JsonNode)
    requires P.Holds(arena, top, v) && arena.Has(any, i) && i < Size(v)
    ensures root == top
  {
    root := any;
    ghost var k: nat := i;
    assert MirrorAt(arena.nodes, arena.recs, k);
    UpToRoot(arena.recs, v, k);
    while root.up != null
      invariant k < Size(v) && arena.Has(root, k) && root.up == Ref(arena.nodes, arena.recs[k].up)
      invariant if k == 0 then arena.recs[k].up == NONE else 0 <= arena.recs[k].up < k
      decreases k
    {
      root := root.up;
      k := arena.recs[k].up;
      assert MirrorAt(arena.nodes, arena.recs, k);
      UpToRoot(arena.recs, v, k);
    }
  }

  /** The first part of a turn: the node gives up what it has allocated. */
  method Release(arena: Arena, node: JsonNode, released: seq<int>, ghost allocs: seq<Alloc>, ghost s: Stand)
      returns (out: seq<int>)
    requires arena.Valid() && arena.Has(node, At(s)) && Standing(arena.recs, s)
    requires |allocs| == |arena.nodes| && Visited(s) <= |allocs| && FreedTo(arena.nodes, allocs, Visited(s))
    requires released == Given(allocs, Visited(s))
    modifies node`alloc
    ensures arena.Valid()
    ensures Now(s) <= |allocs| && FreedTo(arena.nodes, allocs, Now(s)) && out == Given(allocs, Now(s))
  {
    assert node == arena.nodes[At(s)];
    out := if node.alloc.Some? then released + [node.alloc.value] else released;
    node.alloc := W.None;
    forall k | 0 <= k < |arena.nodes| ensures MirrorAt(arena.nodes, arena.recs, k) {
      assert old(MirrorAt(arena.nodes, arena.recs, k));
    }
  }

  /** Down into a container, cutting it off. */
  method GoDown(arena: Arena, node: JsonNode, ghost s: Stand) returns (next: JsonNode, ghost t: Stand)
    requires arena.Valid() && arena.Has(node, At(s)) && Standing(arena.recs, s)
    requires node.kind in {Array, Object} && node.container != null
    modifies arena`recs, node`container
    ensures arena.Valid() && Total(t) == Total(s) && s.Coming? && t.Coming?
    ensures arena.Has(next, At(t)) && Standing(arena.recs, t) && Visited(t) == Now(s)
  {
    ghost var i := At(s);
    assert MirrorAt(arena.nodes, arena.recs, i);
    next := node.container;
    t := Down(arena.recs, s);
    node.container := null;
    arena.recs := CutAt(arena.recs, i);
    forall k | 0 <= k < |arena.nodes| ensures MirrorAt(arena.nodes, arena.recs, k) {
      assert old(MirrorAt(arena.nodes, arena.recs, k));
    }
  }

  /** The last part of a turn: down, cutting the container; or on; or up. */
  method Onward(arena: Arena, node: JsonNode, ghost s: Stand) returns (next: JsonNode?, ghost t: Stand)
    requires arena.Valid() && arena.Has(node, At(s)) && Standing(arena.recs, s)
    modifies arena`recs, node`container
    ensures arena.Valid() && Total(t) == Total(s)
    ensures next == null ==> Now(s) == Total(s)
    ensures next != null ==> arena.Has(next, At(t)) && Standing(arena.recs, t) && Visited(t) == Now(s)
    ensures next != null && s.Back? ==> t.Coming? || t.ctx < s.ctx
  {
    ghost var i := At(s);
    assert MirrorAt(arena.nodes, arena.recs, i);
    if (node.kind == Array || node.kind == Object) && node.container != null {
      next, t := GoDown(arena, node, s);
    } else {
      t := BackAt(arena.recs, s);
      if node.next != null {
        next := node.next;
        t := NextFrom(arena.recs, t);
      } else {
        next := node.up;
        if node.up == null {
          Ended(arena.recs, t);
        } else {
          t := UpFrom(arena.recs, t);
        }
      }
    }
  }

  lemma NextFrom(recs: seq<Rec>, s: Stand) returns (t: Stand)
    requires s.Back? && Standing(recs, s) && recs[s.j].next != NONE
    ensures t.Coming? && t.i == recs[s.j].next == s.e && Standing(recs, t) && Total(t) == Total(s)
  {
    t := Coming(s.ctx, s.f, s.e);
    StepNext(recs, s.ctx, s.f, s.j, s.e);
  }

  lemma UpFrom(recs: seq<Rec>, s: Stand) returns (t: Stand)
    requires s.Back? && Standing(recs, s) && recs[s.j].next == NONE && recs[s.j].up != NONE
    ensures t.Back? && t.j == recs[s.j].up && t.e == s.e && t.ctx < s.ctx && Standing(recs, t) && Total(t) == Total(s)
  {
    StepNext(recs, s.ctx, s.f, s.j, s.e);
    StepUp(recs, s.ctx, s.j, s.e);
    t := Back(s.ctx.outer, s.ctx.rest, recs[s.j].up, s.e);
  }

  lemma Ended(recs: seq<Rec>, s: Stand)
    requires s.Back? && Standing(recs, s) && recs[s.j].next == NONE && recs[s.j].up == NONE
    ensures Total(s) == s.e
  {
    StepNext(recs, s.ctx, s.f, s.j, s.e);
    StepUp(recs, s.ctx, s.j, s.e);
  }

  lemma Down(recs: seq<Rec>, s: Stand) returns (t: Stand)
    requires Standing(recs, s) && recs[At(s)].kind in {Array, Object} && recs[At(s)].container != NONE
    ensures t.Coming? && t.i == recs[At(s)].container == Now(s) && Total(t) == Total(s)
              && Standing(CutAt(recs, At(s)), t)
    ensures s.Coming?
  {
    FocusNode(recs, s.ctx, s.i, s.f);
    t := Coming(Under(s.ctx, s.f.value.isObject, s.f.rest), s.f.value.items, s.i + 1);
    StepDown(recs, s.ctx, s.i, s.f);
    FocusCut(recs, s.i, t.ctx, t.i, t.f);
    AboveCut(recs, s.i, s.ctx, recs[s.i].up);
  }

  lemma BackAt(recs: seq<Rec>, s: Stand) returns (t: Stand)
    requires Standing(recs, s) && !(recs[At(s)].kind in {Array, Object} && recs[At(s)].container != NONE)
    ensures t.Back? && t.j == At(s) && t.e == Now(s) && t.ctx == s.ctx && Total(t) == Total(s) && Standing(recs, t)
    ensures s.Back? ==> t == s
  {
    t := s;
    if s.Coming? {
      FocusNode(recs, s.ctx, s.i, s.f);
      StepOver(recs, s.ctx, s.i, s.f);
      t := Back(s.ctx, s.f.rest, s.i, s.i + 1);
    }
  }

  /** CS_jsonFree, from any node of the tree: every allocation is released, each once, in the
      order of the nodes. */
  method Free(arena: Arena, any: JsonNode, ghost i: nat, ghost top: JsonNode, ghost v: Value, ghost allocs: seq<Alloc>)
      returns (released: seq<int>)
    requires P.Holds(arena, top, v) && arena.Has(any, i) && i < Size(v)
    requires |allocs| == |arena.nodes| && FreedTo(arena.nodes, allocs, 0)
    modifies arena`recs, arena.nodes
    ensures released == Given(allocs, Size(v)) && FreedTo(arena.nodes, allocs, Size(v))
  {
    var root := Climb(arena, any, i, top, v);
    var current: JsonNode? := root;
    released := [];
    ghost var s := Coming(Root, Cons(W.None, v, Nil), 0);
    FocusRoot(arena.recs, v, W.None);
    ghost var n: nat := 0;
    assert SizeAll(s.f) == Size(v);
    while current != null
      invariant arena.Valid() && Total(s) == Size(v) && n <= |allocs|
      invariant FreedTo(arena.nodes, allocs, n) && released == Given(allocs, n)
      invariant if current == null then n == Size(v)
                else n == Visited(s) && arena.Has(current, At(s)) && Standing(arena.recs, s)
      decreases current != null, Size(v) - n, s.Back?, s.ctx
    {
      released := Release(arena, current, released, allocs, s);
      n := Now(s);
      current, s := Onward(arena, current, s);
    }
  }
}
