/** The printer of src/json.c, which walks the tree without a stack. */
module JsonPrinter {
  import opened Bytes
  import opened JsonTree
  import opened JsonLayout
  import opened JsonNodes
  import opened JsonWalk
  import P = JsonParser
  import W = Wrappers

  /** What is printed once the siblings of the current node are through. */
  function Closing(ctx: Ctx): string
    decreases ctx, 0
  {
    match ctx
    case Root => []
    case Under(outer, isObject, rest) => Close(isObject) + Following(outer, rest)
  }

  function Following(ctx: Ctx, rest: Forest): string
    decreases ctx, 1
  {
    Rest(rest) + Closing(ctx)
  }

  /** What is printed from the first of the siblings `f` on. */
  function Remaining(ctx: Ctx, f: Forest): string { PrintItems(f) + Closing(ctx) }

  lemma Regroup(tag: string, open: string, items: string, close: string, rest: string, end: string)
    ensures tag + (open + items + close) + rest + end == tag + open + (items + (close + (rest + end)))
  {
  }

  lemma RemainingDown(ctx: Ctx, f: Forest)
    requires f.Cons? && f.value.Container?
    ensures Remaining(ctx, f)
         == Label(f.name) + Open(f.value.isObject) + Remaining(Under(ctx, f.value.isObject, f.rest), f.value.items)
  {
    var under := Under(ctx, f.value.isObject, f.rest);
    assert Closing(under) == Close(f.value.isObject) + (Rest(f.rest) + Closing(ctx));
    assert PrintItems(f) == Label(f.name) + Print(f.value) + Rest(f.rest);
    assert Print(f.value) == Open(f.value.isObject) + PrintItems(f.value.items) + Close(f.value.isObject);
    Regroup(Label(f.name), Open(f.value.isObject), PrintItems(f.value.items), Close(f.value.isObject), Rest(f.rest),
            Closing(ctx));
  }

  lemma RemainingOver(ctx: Ctx, f: Forest)
    requires f.Cons?
    ensures Remaining(ctx, f) == Label(f.name) + Print(f.value) + Following(ctx, f.rest)
  {
    Assoc(Label(f.name) + Print(f.value), Rest(f.rest), Closing(ctx));
  }

  lemma FollowingNext(ctx: Ctx, rest: Forest)
    requires rest.Cons?
    ensures Following(ctx, rest) == "," + Remaining(ctx, rest)
  {
    Assoc(",", PrintItems(rest), Closing(ctx));
  }

  lemma FollowingUp(ctx: Ctx)
    requires ctx.Under?
    ensures Following(ctx, Nil) == Close(ctx.isObject) + Following(ctx.outer, ctx.rest)
  {
    assert [] + Closing(ctx) == Closing(ctx);
  }

  /** The inner loop: up as long as no sibling follows, closing what is left. */
  method Climb(arena: Arena, node: JsonNode, sb: string, ghost ctx: Ctx, ghost rest: Forest, ghost j: nat, ghost e: nat)
      returns (r: JsonNode?, out: string, ghost c: Ctx, ghost f: Forest)
    requires arena.Valid() && arena.Has(node, j) && Done(arena.recs, ctx, rest, j, e)
    ensures r == null ==> out == sb + Following(ctx, rest)
    ensures r != null ==> arena.Has(r, e) && Focus(arena.recs, c, e, f)
    ensures r != null ==> out + Remaining(c, f) == sb + Following(ctx, rest)
    ensures r != null ==> SizeAll(f) + Left(c) == SizeAll(rest) + Left(ctx)
  {
    ghost var whole := sb + Following(ctx, rest);
    ghost var k: nat := j;
    c, f, out, r := ctx, rest, sb, node;
    while r != null && r.next == null
      invariant r == null ==> out == whole
      invariant r != null ==> arena.Has(r, k) && Done(arena.recs, c, f, k, e) && out + Following(c, f) == whole
      invariant r != null ==> SizeAll(f) + Left(c) == SizeAll(rest) + Left(ctx)
      decreases r != null, c
    {
      assert MirrorAt(arena.nodes, arena.recs, k);
      StepUp(arena.recs, c, k, e);
      r := r.up;
      if r == null {
        assert out + Following(c, f) == out;
      } else {
        FollowingUp(c);
        k := arena.recs[k].up;
        assert MirrorAt(arena.nodes, arena.recs, k);
        Assoc(out, Close(c.isObject), Following(c.outer, c.rest));
        out := out + if r.kind == Array then "]" else "}";
        c, f := c.outer, c.rest;
      }
    }
    if r != null {
      assert MirrorAt(arena.nodes, arena.recs, k);
      StepNext(arena.recs, c, f, k, e);
      FollowingNext(c, f);
      Assoc(out, ",", Remaining(c, f));
      out := out + ",";
      r := r.next;
    }
  }

  lemma RemainingRoot(v: Value)
    ensures Remaining(Root, Cons(W.None, v, Nil)) == Print(v)
  {
    var f := Cons(W.None, v, Nil);
    RemainingOver(Root, f);
    assert Following(Root, Nil) == [];
    assert [] + Print(v) + [] == Print(v);
  }

  /** A node with nothing below it. */
  function PrintLeaf(kind: Type, text: string): string
  {
    if kind == Array then "[]" else if kind == Object then "{}" else PrintScalar(kind, text)
  }

  lemma PrintLeafIs(v: Value)
    requires v.Container? ==> v.items.Nil?
    ensures Print(v) == if v.Container? then PrintLeaf(ContainerType(v.isObject), []) else PrintLeaf(v.kind, v.text)
  {
    if v.Container? {
      assert "[" + [] + "]" == "[]" && "{" + [] + "}" == "{}";
    }
  }

  /** The node itself, or the opening bracket of a container that is not empty. */
  method PrintHead(arena: Arena, node: JsonNode, sb: string, ghost i: nat, ghost ctx: Ctx, ghost f: Forest)
      returns (out: string, down: bool)
    requires arena.Valid() && arena.Has(node, i) && Focus(arena.recs, ctx, i, f)
    ensures down <==> f.value.Container? && f.value.items.Cons?
    ensures down ==> out + Remaining(Under(ctx, f.value.isObject, f.rest), f.value.items) == sb + Remaining(ctx, f)
    ensures !down ==> out + Following(ctx, f.rest) == sb + Remaining(ctx, f)
  {
    FocusNode(arena.recs, ctx, i, f);
    assert MirrorAt(arena.nodes, arena.recs, i);
    var tag := Label(node.name);
    down := (node.kind == Array || node.kind == Object) && node.container != null;
    if down {
      var open := Open(node.kind == Object);
      RemainingDown(ctx, f);
      ghost var rest := Remaining(Under(ctx, f.value.isObject, f.rest), f.value.items);
      Assoc(sb, tag + open, rest);
      out := sb + (tag + open);
    } else {
      var value := PrintLeaf(node.kind, node.text);
      PrintLeafIs(f.value);
      RemainingOver(ctx, f);
      Assoc(sb, tag + value, Following(ctx, f.rest));
      out := sb + (tag + value);
    }
  }

  /** CS_jsonNodePrintableToStringBuilder: exactly the recursive print of the tree. */
  method PrintTree(arena: Arena, root: JsonNode, sb: string, ghost v: Value) returns (out: string)
    requires P.Holds(arena, root, v)
    ensures out == sb + Print(v)
  {
    out := sb;
    var current: JsonNode? := root;
    ghost var i: nat, ctx, f := 0, Root, Cons(W.None, v, Nil);
    ghost var whole := sb + Remaining(ctx, f);
    FocusRoot(arena.recs, v, W.None);
    RemainingRoot(v);
    while current != null
      invariant current == null ==> out == whole
      invariant current != null ==>
                  arena.Has(current, i) && Focus(arena.recs, ctx, i, f)
                  && out + Remaining(ctx, f) == whole
      decreases current != null, SizeAll(f) + Left(ctx)
    {
      var down;
      out, down := PrintHead(arena, current, out, i, ctx, f);
      if down {
        FocusNode(arena.recs, ctx, i, f);
        StepDown(arena.recs, ctx, i, f);
        assert MirrorAt(arena.nodes, arena.recs, i);
        current := current.container;
        i, ctx, f := i + 1, Under(ctx, f.value.isObject, f.rest), f.value.items;
      } else {
        StepOver(arena.recs, ctx, i, f);
        ghost var e := i + Size(f.value);
        current, out, ctx, f := Climb(arena, current, out, ctx, f.rest, i, e);
        i := e;
      }
    }
  }
}
