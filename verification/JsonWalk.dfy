/** Walking a tree of src/json.c without a stack: where a walk stands, and its three steps. */
module JsonWalk {
  import opened JsonTree
  import opened JsonLayout

  /** The containers around the current node: their types, and the siblings that follow them. */
  datatype Ctx = Root | Under(outer: Ctx, isObject: bool, rest: Forest)

  /** Node `j` and all below it is done; the siblings `rest` follow it, from `e` on. */
  ghost predicate Done(recs: seq<Rec>, ctx: Ctx, rest: Forest, j: nat, e: nat)
    decreases ctx, 1
  {
    && j < e && j < |recs|
    && recs[j].next == (if rest.Nil? then NONE else e)
    && Sibs(recs, e, rest, recs[j].up, j, NONE)
    && Around(recs, ctx, recs[j].up, e + SizeAll(rest))
  }

  /** Node `up` is the innermost container, and its contents end at `e`. */
  ghost predicate Around(recs: seq<Rec>, ctx: Ctx, up: int, e: nat)
    decreases ctx, 0
  {
    match ctx
    case Root => up == NONE
    case Under(outer, isObject, rest) =>
      && 0 <= up < |recs| && recs[up].kind == ContainerType(isObject)
      && Done(recs, outer, rest, up, e)
  }

  /** Node `i` is the first of the siblings `f` that are still to be walked. */
  ghost predicate Focus(recs: seq<Rec>, ctx: Ctx, i: nat, f: Forest)
  {
    && f.Cons? && i < |recs|
    && Sibs(recs, i, f, recs[i].up, recs[i].last, NONE)
    && Around(recs, ctx, recs[i].up, i + SizeAll(f))
  }

  lemma FocusRoot(recs: seq<Rec>, v: Value, name: Name)
    requires ItemAt(recs, 0, name, v, NONE, NONE, NONE)
    ensures Focus(recs, Root, 0, Cons(name, v, Nil))
  {
    SibsHead(recs, 0, Cons(name, v, Nil), NONE, NONE, NONE);
  }

  /** What the current node holds, and what is below and behind it. */
  lemma FocusNode(recs: seq<Rec>, ctx: Ctx, i: nat, f: Forest)
    requires Focus(recs, ctx, i, f)
    ensures var e, r := i + Size(f.value), recs[i];
            && r == RecOf(i, f.name, f.value, r.up, r.last, if f.rest.Nil? then NONE else e)
            && (f.value.Container? ==> Sibs(recs, i + 1, f.value.items, i, NONE, NONE))
            && Sibs(recs, e, f.rest, r.up, i, NONE)
            && e + SizeAll(f.rest) == i + SizeAll(f)
  {
    SibsHead(recs, i, f, recs[i].up, recs[i].last, NONE);
  }

  lemma StepDown(recs: seq<Rec>, ctx: Ctx, i: nat, f: Forest)
    requires Focus(recs, ctx, i, f) && f.value.Container? && f.value.items.Cons?
    ensures Focus(recs, Under(ctx, f.value.isObject, f.rest), i + 1, f.value.items) && recs[i + 1].up == i
  {
    StepOver(recs, ctx, i, f);
    FocusNode(recs, ctx, i, f);
    SibsHead(recs, i + 1, f.value.items, i, NONE, NONE);
  }

  lemma StepOver(recs: seq<Rec>, ctx: Ctx, i: nat, f: Forest)
    requires Focus(recs, ctx, i, f)
    ensures Done(recs, ctx, f.rest, i, i + Size(f.value))
  {
    FocusNode(recs, ctx, i, f);
  }

  lemma StepNext(recs: seq<Rec>, ctx: Ctx, rest: Forest, j: nat, e: nat)
    requires Done(recs, ctx, rest, j, e)
    ensures rest.Cons? <==> recs[j].next != NONE
    ensures rest.Cons? ==> recs[j].next == e && Focus(recs, ctx, e, rest) && recs[e].up == recs[j].up
  {
    if rest.Cons? {
      SibsHead(recs, e, rest, recs[j].up, j, NONE);
    }
  }

  lemma StepUp(recs: seq<Rec>, ctx: Ctx, j: nat, e: nat)
    requires Done(recs, ctx, Nil, j, e)
    ensures ctx.Root? <==> recs[j].up == NONE
    ensures ctx.Under? ==>
              var p := recs[j].up;
              0 <= p < |recs| && recs[p].kind == ContainerType(ctx.isObject) && Done(recs, ctx.outer, ctx.rest, p, e)
  {
  }

  /** The nodes still to be walked. */
  function Left(ctx: Ctx): nat { if ctx.Root? then 0 else SizeAll(ctx.rest) + Left(ctx.outer) }
}
