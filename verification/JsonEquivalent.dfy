/** CS_jsonNodesEquivalent of src/json.c: what it really compares. */
module JsonEquivalent {
  import opened JsonTree
  import opened JsonLayout
  import opened JsonNodes
  import opened JsonWalk
  import P = JsonParser
  import W = Wrappers

  /** BreaksOff: the second tree ran out of siblings where the first goes on. The source then
      leaves its loop and reports that the trees are equivalent. */
  datatype Outcome = Equal | Different | BreaksOff

  function Then(a: Outcome, b: Outcome): Outcome { if a == Equal then b else a }

  predicate HasText(kind: Type) { kind in {Quoted, Integer, Float} }

  function CompareValue(a: Value, b: Value): Outcome
    decreases a
  {
    match (a, b)
    case (Scalar(k, s), Scalar(l, t)) => if k != l || (HasText(k) && s != t) then Different else Equal
    case (Container(k, s), Container(l, t)) =>
      if k != l || s.Nil? != t.Nil? then Different
      else if s.Nil? then Equal
      else Compare(s, t)
    case (_, _) => Different
  }

  function Compare(a: Forest, b: Forest): Outcome
    requires a.Cons? && b.Cons?
    decreases a, 0
  {
    if a.name != b.name then Different
    else Then(CompareValue(a.value, b.value), CompareRest(a.rest, b.rest))
  }

  function CompareRest(a: Forest, b: Forest): Outcome
    decreases a, 1
  {
    if a.Nil? then if b.Nil? then Equal else Different
    else if b.Nil? then BreaksOff
    else Compare(a, b)
  }

  // ---- What the outcomes mean ----

  lemma {:induction false} EqualIsEqual(a: Value, b: Value)
    requires WellFormed(a) && WellFormed(b)
    ensures CompareValue(a, b) == Equal <==> a == b
    decreases a
  {
    if a.Container? && b.Container? && a.items.Cons? && b.items.Cons? {
      EqualItems(a.items, b.items, a.isObject, b.isObject);
    }
  }

  lemma {:induction false} EqualItems(a: Forest, b: Forest, namedA: bool, namedB: bool)
    requires a.Cons? && b.Cons? && AllWellFormed(a, namedA) && AllWellFormed(b, namedB)
    ensures Compare(a, b) == Equal <==> a == b
    decreases a
  {
    EqualIsEqual(a.value, b.value);
    if a.rest.Cons? && b.rest.Cons? {
      EqualItems(a.rest, b.rest, namedA, namedB);
    }
  }

  /** `b` follows `a` up to the end of some list of siblings that goes on in `a`; what stands
      behind that list does not matter. */
  predicate CutShort(a: Forest, b: Forest)
    decreases a
  {
    && a.Cons? && b.Cons? && a.name == b.name
    && (ValueCutShort(a.value, b.value)
        || (a.value == b.value && ((a.rest.Cons? && b.rest.Nil?) || CutShort(a.rest, b.rest))))
  }

  predicate ValueCutShort(a: Value, b: Value)
    decreases a
  {
    a.Container? && b.Container? && a.isObject == b.isObject && CutShort(a.items, b.items)
  }

  lemma {:induction false} BreaksOffIsCutShort(a: Value, b: Value)
    requires WellFormed(a) && WellFormed(b)
    ensures CompareValue(a, b) == BreaksOff <==> ValueCutShort(a, b)
    decreases a
  {
    if a.Container? && b.Container? && a.items.Cons? && b.items.Cons? {
      ItemsCutShort(a.items, b.items, a.isObject, b.isObject);
    }
  }

  lemma {:induction false} ItemsCutShort(a: Forest, b: Forest, namedA: bool, namedB: bool)
    requires a.Cons? && b.Cons? && AllWellFormed(a, namedA) && AllWellFormed(b, namedB)
    ensures Compare(a, b) == BreaksOff <==> CutShort(a, b)
    decreases a
  {
    EqualIsEqual(a.value, b.value);
    BreaksOffIsCutShort(a.value, b.value);
    if a.rest.Cons? && b.rest.Cons? {
      ItemsCutShort(a.rest, b.rest, namedA, namedB);
    }
  }

  /** The answer of the source. */
  predicate Equivalent(a: Value, b: Value) { CompareValue(a, b) != Different }

  /** Exactly when it is right: for values that are equal it says yes, for others it says no
      unless the second is the first cut short. */
  lemma EquivalentExactly(a: Value, b: Value)
    requires WellFormed(a) && WellFormed(b)
    ensures Equivalent(a, b) <==> a == b || ValueCutShort(a, b)
    ensures a == b ==> !ValueCutShort(a, b)
  {
    EqualIsEqual(a, b);
    BreaksOffIsCutShort(a, b);
  }

  lemma {:induction false} NotOfItself(f: Forest)
    ensures !CutShort(f, f)
    decreases f
  {
    if f.Cons? {
      if f.value.Container? {
        NotOfItself(f.value.items);
      }
      NotOfItself(f.rest);
    }
  }

  lemma {:induction false} CutShortOneWay(a: Forest, b: Forest)
    requires CutShort(a, b)
    ensures !CutShort(b, a)
    decreases a
  {
    if ValueCutShort(a.value, b.value) {
      CutShortOneWay(a.value.items, b.value.items);
      NotOfItself(a.value.items);
    } else {
      if a.value.Container? {
        NotOfItself(a.value.items);
      }
      if CutShort(a.rest, b.rest) {
        CutShortOneWay(a.rest, b.rest);
      }
    }
  }

  /** Asked both ways round, the source decides equality. */
  lemma EquivalentBothWays(a: Value, b: Value)
    requires WellFormed(a) && WellFormed(b)
    ensures Equivalent(a, b) && Equivalent(b, a) <==> a == b
  {
    EquivalentExactly(a, b);
    EquivalentExactly(b, a);
    if ValueCutShort(a, b) {
      CutShortOneWay(a.items, b.items);
    }
  }

  /** Not an equivalence: `[1,2]` passes for `[1]`, though not the other way round. */
  lemma NotSymmetric()
    ensures var one, two := Scalar(Integer, "1"), Scalar(Integer, "2");
            var short := Container(false, Cons(W.None, one, Nil));
            var long := Container(false, Cons(W.None, one, Cons(W.None, two, Nil)));
            Equivalent(long, short) && !Equivalent(short, long)
  {
    var one, two := Scalar(Integer, "1"), Scalar(Integer, "2");
    assert Compare(Cons(W.None, one, Cons(W.None, two, Nil)), Cons(W.None, one, Nil)) == BreaksOff;
    assert Compare(Cons(W.None, one, Nil), Cons(W.None, one, Cons(W.None, two, Nil))) == Different;
  }

  // ---- The walk over both trees ----

  /** Both walks are equally deep. */
  predicate Paired(a: Ctx, b: Ctx)
  {
    a.Root? == b.Root? && (a.Under? ==> Paired(a.outer, b.outer))
  }

  /** What comes of two nodes that are equal so far and followed by these siblings. */
  function Resume(c: Ctx, d: Ctx, a: Forest, b: Forest): Outcome
    requires Paired(c, d)
    decreases c
  {
    Then(CompareRest(a, b), if c.Root? then Equal else Resume(c.outer, d.outer, c.rest, d.rest))
  }

  /** What comes of the comparison from two nodes on. */
  function Onward(c: Ctx, d: Ctx, a: Forest, b: Forest): Outcome
    requires Paired(c, d) && a.Cons? && b.Cons?
  {
    if a.name != b.name then Different
    else Then(CompareValue(a.value, b.value), Resume(c, d, a.rest, b.rest))
  }

  lemma OnwardDown(c: Ctx, d: Ctx, a: Forest, b: Forest)
    requires Paired(c, d) && a.Cons? && b.Cons? && a.name == b.name
    requires a.value.Container? && b.value.Container? && a.value.isObject == b.value.isObject
    requires a.value.items.Cons? && b.value.items.Cons?
    ensures Onward(c, d, a, b)
         == Onward(Under(c, a.value.isObject, a.rest), Under(d, b.value.isObject, b.rest), a.value.items, b.value.items)
  {
    var s, t := a.value.items, b.value.items;
    assert CompareValue(a.value, b.value) == Compare(s, t);
  }

  lemma ResumeNext(c: Ctx, d: Ctx, a: Forest, b: Forest)
    requires Paired(c, d) && a.Cons? && b.Cons?
    ensures Resume(c, d, a, b) == Onward(c, d, a, b)
  {
    var above := if c.Root? then Equal else Resume(c.outer, d.outer, c.rest, d.rest);
    assert Resume(c, d, a, b) == Then(Compare(a, b), above);
    assert Resume(c, d, a.rest, b.rest) == Then(CompareRest(a.rest, b.rest), above);
  }

  /** The fields of two nodes, as far as the source compares them before it goes on. */
  method CompareNodes(a: JsonNode, b: JsonNode) returns (same: bool, down: bool)
    ensures same <==> a.kind == b.kind && a.name == b.name && (HasText(a.kind) ==> a.text == b.text)
                      && (a.kind in {Array, Object} ==> (a.container == null <==> b.container == null))
    ensures down <==> same && a.kind in {Array, Object} && a.container != null
  {
    same := a.kind == b.kind && a.name == b.name;
    down := false;
    if same {
      match a.kind
      case Array =>
        same := (a.container == null) == (b.container == null);
        down := same && a.container != null;
      case Object =>
        same := (a.container == null) == (b.container == null);
        down := same && a.container != null;
      case Quoted => same := a.text == b.text;
      case Integer => same := a.text == b.text;
      case Float => same := a.text == b.text;
      case _ =>
    }
  }

  /** Two walks that have reached these nodes. */
  ghost predicate At(arena: Arena, node: JsonNode, ctx: Ctx, i: nat, f: Forest)
    reads arena, arena.nodes
  {
    arena.Valid() && arena.Has(node, i) && Focus(arena.recs, ctx, i, f)
  }

  ghost predicate Behind(arena: Arena, node: JsonNode, ctx: Ctx, j: nat, rest: Forest, e: nat)
    reads arena, arena.nodes
  {
    arena.Valid() && arena.Has(node, j) && Done(arena.recs, ctx, rest, j, e)
  }

  lemma AtNode(arena: Arena, node: JsonNode, ctx: Ctx, i: nat, f: Forest)
    requires At(arena, node, ctx, i, f)
    ensures node.name == f.name
    ensures node.kind == if f.value.Container? then ContainerType(f.value.isObject) else f.value.kind
    ensures f.value.Scalar? ==> node.text == f.value.text
    ensures f.value.Container? ==> (node.container == null <==> f.value.items.Nil?)
    ensures f.value.Container? && f.value.items.Cons? ==>
              At(arena, node.container, Under(ctx, f.value.isObject, f.rest), i + 1, f.value.items)
    ensures Behind(arena, node, ctx, i, f.rest, i + Size(f.value))
  {
    FocusNode(arena.recs, ctx, i, f);
    assert MirrorAt(arena.nodes, arena.recs, i);
    StepOver(arena.recs, ctx, i, f);
    if f.value.Container? && f.value.items.Cons? {
      StepDown(arena.recs, ctx, i, f);
    }
  }

  lemma BehindNode(arena: Arena, node: JsonNode, ctx: Ctx, j: nat, rest: Forest, e: nat)
    requires Behind(arena, node, ctx, j, rest, e)
    ensures node.next == null <==> rest.Nil?
    ensures rest.Cons? ==> At(arena, node.next, ctx, e, rest)
    ensures rest.Nil? ==> (node.up == null <==> ctx.Root?)
    ensures rest.Nil? && ctx.Under? ==>
              arena.recs[j].up >= 0
              && Behind(arena, node.up, ctx.outer, arena.recs[j].up, ctx.rest, e)
  {
    assert MirrorAt(arena.nodes, arena.recs, j);
    StepNext(arena.recs, ctx, rest, j, e);
    if rest.Nil? {
      StepUp(arena.recs, ctx, j, e);
    }
  }

  /** What comes of a comparison that has reached these nodes, unless one tree is through. */
  ghost predicate Coming(arena: Arena, brena: Arena, a: JsonNode?, b: JsonNode?, c: Ctx, d: Ctx, f: Forest, g: Forest,
                         i: nat, j: nat, outcome: Outcome)
    reads arena, arena.nodes, brena, brena.nodes
  {
    if a == null || b == null then outcome != Different
    else At(arena, a, c, i, f) && At(brena, b, d, j, g) && Paired(c, d) && outcome == Onward(c, d, f, g)
  }

  /** The inner loop: up in both trees as long as the first has no sibling; then on in both. */
  method ClimbBoth(arena: Arena, brena: Arena, a: JsonNode, b: JsonNode, ghost c0: Ctx, ghost d0: Ctx,
                   ghost f0: Forest, ghost g0: Forest, ghost i: nat, ghost j: nat, ghost e: nat, ghost h: nat)
      returns (ok: bool, x: JsonNode?, y: JsonNode?, ghost c: Ctx, ghost d: Ctx, ghost f: Forest, ghost g: Forest)
    requires Behind(arena, a, c0, i, f0, e) && Behind(brena, b, d0, j, g0, h) && Paired(c0, d0)
    ensures !ok ==> Resume(c0, d0, f0, g0) == Different
    ensures ok ==> Coming(arena, brena, x, y, c, d, f, g, e, h, Resume(c0, d0, f0, g0))
    ensures x != null ==> SizeAll(f) + Left(c) == SizeAll(f0) + Left(c0)
  {
    ghost var outcome := Resume(c0, d0, f0, g0);
    ghost var k: nat, l: nat := i, j;
    ok, x, y, c, d, f, g := true, a, b, c0, d0, f0, g0;
    while ok && x != null && x.next == null
      invariant if !ok then outcome == Different
                else if x == null then outcome == Equal
                else y != null && Behind(arena, x, c, k, f, e) && Behind(brena, y, d, l, g, h) && Paired(c, d)
                     && outcome == Resume(c, d, f, g)
      invariant x != null ==> SizeAll(f) + Left(c) == SizeAll(f0) + Left(c0)
      decreases ok, x != null, c
    {
      BehindNode(arena, x, c, k, f, e);
      BehindNode(brena, y, d, l, g, h);
      if y == null || y.next != null {
        ok := false;
      } else {
        x, y := x.up, y.up;
        if x != null {
          k, l := arena.recs[k].up, brena.recs[l].up;
          c, d, f, g := c.outer, d.outer, c.rest, d.rest;
        }
      }
    }
    if ok && x != null {
      BehindNode(arena, x, c, k, f, e);
      BehindNode(brena, y, d, l, g, h);
      if g.Cons? { ResumeNext(c, d, f, g); }
      x, y := x.next, y.next;
    }
  }

  /** CS_jsonNodesEquivalent, on the roots of two trees. */
  method NodesEquivalent(arena: Arena, brena: Arena, a: JsonNode, b: JsonNode, ghost v: Value, ghost w: Value)
      returns (r: bool)
    requires P.Holds(arena, a, v) && P.Holds(brena, b, w)
    ensures r <==> Equivalent(v, w)
  {
    var x: JsonNode?, y: JsonNode? := a, b;
    r := true;
    ghost var c, d, f, g := Root, Root, Cons(W.None, v, Nil), Cons(W.None, w, Nil);
    ghost var i: nat, j: nat := 0, 0;
    FocusRoot(arena.recs, v, W.None);
    FocusRoot(brena.recs, w, W.None);
    ghost var outcome := Onward(c, d, f, g);
    while r && x != null && y != null
      invariant if r then Coming(arena, brena, x, y, c, d, f, g, i, j, outcome) else outcome == Different
      decreases r, x != null, if x != null then SizeAll(f) + Left(c) else 0
    {
      AtNode(arena, x, c, i, f);
      AtNode(brena, y, d, j, g);
      var same, down := CompareNodes(x, y);
      if !same {
        r := false;
      } else if down {
        OnwardDown(c, d, f, g);
        x, y := x.container, y.container;
        c, d := Under(c, f.value.isObject, f.rest), Under(d, g.value.isObject, g.rest);
        f, g, i, j := f.value.items, g.value.items, i + 1, j + 1;
      } else {
        ghost var e, h := i + Size(f.value), j + Size(g.value);
        r, x, y, c, d, f, g := ClimbBoth(arena, brena, x, y, c, d, f.rest, g.rest, i, j, e, h);
        i, j := e, h;
      }
    }
  }
}
