/** How the nodes of src/json.c lie in the linear allocator. A node is known by its number, in
    the order of allocation; nodes are allocated in preorder, so the numbers follow the text. */
module JsonLayout {
  import opened JsonTree
  import opened JsonParse
  import W = Wrappers

  const NONE := -1

  /** The fields of a node; links are numbers, NONE for NULL. */
  datatype Rec = Rec(name: Name, up: int, next: int, last: int, kind: Type, items: nat, text: string, container: int)

  function ContainerType(isObject: bool): Type { if isObject then Object else Array }

  /** The node of a finished value. */
  function RecOf(i: int, name: Name, v: Value, up: int, last: int, next: int): Rec
  {
    match v
    case Container(isObject, items) =>
      Rec(name, up, next, last, ContainerType(isObject), Length(items), [], if items.Nil? then NONE else i + 1)
    case Scalar(kind, text) => Rec(name, up, next, last, kind, |text|, text, NONE)
  }

  /** The nodes from `i` on are those of a value. */
  ghost predicate ItemAt(recs: seq<Rec>, i: nat, name: Name, v: Value, up: int, last: int, next: int)
    decreases v
  {
    && i + Size(v) <= |recs|
    && recs[i] == RecOf(i, name, v, up, last, next)
    && (v.Container? ==> Sibs(recs, i + 1, v.items, i, NONE, NONE))
  }

  /** The nodes from `i` on are those of `f`, linked as siblings; `last` comes before them and
      `after` behind them. */
  ghost predicate Sibs(recs: seq<Rec>, i: nat, f: Forest, up: int, last: int, after: int)
    decreases f
  {
    f.Cons? ==>
      var n := i + Size(f.value);
      && ItemAt(recs, i, f.name, f.value, up, last, if f.rest.Nil? then after else n)
      && Sibs(recs, n, f.rest, up, i, after)
  }

  /** The node of a value tells its name and its kind; that of a text how long it is, that of a
      container how many items it has, and its first item, if any, comes next. */
  lemma NodeTells(recs: seq<Rec>, i: nat, name: Name, v: Value, up: int, last: int, next: int)
    requires ItemAt(recs, i, name, v, up, last, next)
    ensures var r := recs[i];
            && r.name == name && r.up == up && r.last == last && r.next == next
            && match v
               case Scalar(kind, text) => r.kind == kind && r.text == text && r.items == |text| && r.container == NONE
               case Container(isObject, items) =>
                 && r.kind == (if isObject then Object else Array) && r.items == Length(items)
                 && r.container == if Length(items) > 0 then i + 1 else NONE
  {
  }

  /** The first of the siblings, what is below it and what is behind it. */
  lemma SibsHead(recs: seq<Rec>, i: nat, f: Forest, up: int, last: int, after: int)
    requires Sibs(recs, i, f, up, last, after) && f.Cons?
    ensures var n := i + Size(f.value);
            && n <= |recs| && n + SizeAll(f.rest) == i + SizeAll(f)
            && recs[i] == RecOf(i, f.name, f.value, up, last, if f.rest.Nil? then after else n)
            && (f.value.Container? ==> Sibs(recs, i + 1, f.value.items, i, NONE, NONE))
            && Sibs(recs, n, f.rest, up, i, after)
  {
    assert ItemAt(recs, i, f.name, f.value, up, last, if f.rest.Nil? then after else i + Size(f.value));
  }

  /** The last of the siblings. */
  function LastOf(i: int, f: Forest, last: int): int
    decreases f
  {
    if f.Nil? then last else LastOf(i + Size(f.value), f.rest, i)
  }

  predicate Agree(a: seq<Rec>, b: seq<Rec>, lo: int, hi: int)
  {
    hi <= |a| && hi <= |b| && forall k :: 0 <= lo <= k < hi ==> a[k] == b[k]
  }

  lemma {:induction false} ItemLocal(a: seq<Rec>, b: seq<Rec>, i: nat, name: Name, v: Value, up: int, last: int,
                                     next: int)
    requires ItemAt(a, i, name, v, up, last, next) && Agree(a, b, i, i + Size(v))
    ensures ItemAt(b, i, name, v, up, last, next)
    decreases v
  {
    assert a[i] == b[i];
    if v.Container? {
      SibsLocal(a, b, i + 1, v.items, i, NONE, NONE);
    }
  }

  lemma {:induction false} SibsLocal(a: seq<Rec>, b: seq<Rec>, i: nat, f: Forest, up: int, last: int, after: int)
    requires Sibs(a, i, f, up, last, after) && Agree(a, b, i, i + SizeAll(f))
    ensures Sibs(b, i, f, up, last, after)
    decreases f
  {
    if f.Cons? {
      var n := i + Size(f.value);
      ItemLocal(a, b, i, f.name, f.value, up, last, if f.rest.Nil? then after else n);
      SibsLocal(a, b, n, f.rest, up, i, after);
    }
  }

  lemma {:induction false} LastIn(recs: seq<Rec>, i: nat, f: Forest, up: int, last: int, after: int)
    requires Sibs(recs, i, f, up, last, after) && f.Cons?
    ensures var l := LastOf(i, f, last);
            i <= l < i + SizeAll(f) <= |recs| && recs[l].next == after && recs[l].up == up
    decreases f
  {
    if f.rest.Cons? {
      LastIn(recs, i + Size(f.value), f.rest, up, i, after);
    }
  }

  /** Changing what comes behind the siblings. */
  lemma {:induction false} SibsRelink(recs: seq<Rec>, i: nat, f: Forest, up: int, last: int, after: int, l: int,
                                      to: int)
    requires Sibs(recs, i, f, up, last, after) && f.Cons? && l == LastOf(i, f, last) && 0 <= l < |recs|
    ensures Sibs(recs[l := recs[l].(next := to)], i, f, up, last, to)
    decreases f
  {
    var b := recs[l := recs[l].(next := to)];
    var n := i + Size(f.value);
    if f.rest.Nil? {
      assert ItemAt(b, i, f.name, f.value, up, last, to) by {
        assert ItemAt(recs, i, f.name, f.value, up, last, after);
        ItemRelink(recs, i, f.name, f.value, up, last, after, to);
      }
    } else {
      assert ItemAt(b, i, f.name, f.value, up, last, n) by {
        assert ItemAt(recs, i, f.name, f.value, up, last, n);
        LastIn(recs, n, f.rest, up, i, after);
        ItemLocal(recs, b, i, f.name, f.value, up, last, n);
      }
      SibsRelink(recs, n, f.rest, up, i, after, l, to);
    }
    SibsMake(b, i, f, up, last, to);
  }

  lemma ItemRelink(recs: seq<Rec>, i: nat, name: Name, v: Value, up: int, last: int, after: int, to: int)
    requires ItemAt(recs, i, name, v, up, last, after) && i < |recs|
    ensures ItemAt(recs[i := recs[i].(next := to)], i, name, v, up, last, to)
  {
    if v.Container? {
      SibsLocal(recs, recs[i := recs[i].(next := to)], i + 1, v.items, i, NONE, NONE);
    }
  }

  lemma SibsMake(recs: seq<Rec>, i: nat, f: Forest, up: int, last: int, after: int)
    requires f.Cons?
    requires ItemAt(recs, i, f.name, f.value, up, last, if f.rest.Nil? then after else i + Size(f.value))
    requires f.rest.Cons? ==> Sibs(recs, i + Size(f.value), f.rest, up, i, after)
    ensures Sibs(recs, i, f, up, last, after)
  {
  }

  lemma {:induction false} SnocSize(i: int, f: Forest, name: Name, v: Value, last: int)
    ensures SizeAll(Snoc(f, name, v)) == SizeAll(f) + Size(v)
    ensures LastOf(i, Snoc(f, name, v), last) == i + SizeAll(f)
    decreases f
  {
    if f.Cons? {
      SnocSize(i + Size(f.value), f.rest, name, v, i);
    }
  }

  /** One more sibling, on the nodes behind the others. */
  lemma {:induction false} SibsSnoc(recs: seq<Rec>, i: nat, f: Forest, up: int, last: int, name: Name, v: Value,
                                    after: int)
    requires Sibs(recs, i, f, up, last, i + SizeAll(f))
    requires ItemAt(recs, i + SizeAll(f), name, v, up, LastOf(i, f, last), after)
    ensures Sibs(recs, i, Snoc(f, name, v), up, last, after)
    decreases f
  {
    if f.Cons? {
      SibsSnoc(recs, i + Size(f.value), f.rest, up, i, name, v, after);
      assert Snoc(f, name, v).rest.Cons?;
    }
  }

  // ---- The links agree ----

  /** Node `k` of the nodes below `end`: its links and those of the nodes it points at agree. */
  predicate Linked(recs: seq<Rec>, k: nat, end: nat)
    requires k < end <= |recs|
  {
    var r := recs[k];
    && (r.next == NONE || (k < r.next < end && recs[r.next].last == k && recs[r.next].up == r.up))
    && (r.last == NONE || (0 <= r.last < k && recs[r.last].next == k && recs[r.last].up == r.up))
    && (r.up == NONE || (0 <= r.up < k && recs[r.up].kind in {Array, Object} && recs[r.up].container != NONE))
    && (r.container == NONE || (r.container == k + 1 < end && recs[k + 1].up == k && recs[k + 1].last == NONE))
  }

  /** The sibling behind the first. */
  lemma SecondIs(recs: seq<Rec>, i: nat, f: Forest, up: int, last: int, after: int)
    requires Sibs(recs, i, f, up, last, after) && f.Cons? && f.rest.Cons?
    ensures var n, g := i + Size(f.value), f.rest;
            && n < n + Size(g.value) <= |recs| && n < i + SizeAll(f)
            && recs[n] == RecOf(n, g.name, g.value, up, i, if g.rest.Nil? then after else n + Size(g.value))
  {
    SibsHead(recs, i, f, up, last, after);
    SibsHead(recs, i + Size(f.value), f.rest, up, i, after);
  }

  /** The first of those below the first. */
  lemma ChildIs(recs: seq<Rec>, i: nat, f: Forest, up: int, last: int, after: int)
    requires Sibs(recs, i, f, up, last, after) && f.Cons? && f.value.Container? && f.value.items.Cons?
    ensures i + 1 < i + SizeAll(f) && i + 1 < |recs| && recs[i + 1].up == i && recs[i + 1].last == NONE
  {
    SibsHead(recs, i, f, up, last, after);
    SibsHead(recs, i + 1, f.value.items, i, NONE, NONE);
  }

  lemma FirstIs(recs: seq<Rec>, i: nat, f: Forest, up: int, last: int, after: int)
    requires Sibs(recs, i, f, up, last, after) && f.Cons?
    ensures i < |recs| && i < i + SizeAll(f)
    ensures recs[i] == RecOf(i, f.name, f.value, up, last, if f.rest.Nil? then after else i + Size(f.value))
  {
    SibsHead(recs, i, f, up, last, after);
  }

  /** The first of the siblings, where those before it and above it agree with it. */
  lemma HeadAgrees(recs: seq<Rec>, i: nat, f: Forest, up: int, last: int)
    requires Sibs(recs, i, f, up, last, NONE) && f.Cons? && i + SizeAll(f) <= |recs|
    requires last == NONE || (0 <= last < i && recs[last].next == i && recs[last].up == up)
    requires up == NONE || (0 <= up < i && recs[up].kind in {Array, Object} && recs[up].container != NONE)
    ensures i < i + SizeAll(f) && Linked(recs, i, i + SizeAll(f)) && recs[i].up == up
  {
    FirstIs(recs, i, f, up, last, NONE);
    if f.rest.Cons? { SecondIs(recs, i, f, up, last, NONE); }
    if f.value.Container? && f.value.items.Cons? { ChildIs(recs, i, f, up, last, NONE); }
  }

  lemma {:induction false} LinksAgree(recs: seq<Rec>, i: nat, f: Forest, up: int, last: int, k: nat)
    requires Sibs(recs, i, f, up, last, NONE) && i <= k < i + SizeAll(f) <= |recs|
    requires last == NONE || (0 <= last < i && recs[last].next == i && recs[last].up == up)
    requires up == NONE || (0 <= up < i && recs[up].kind in {Array, Object} && recs[up].container != NONE)
    ensures Linked(recs, k, i + SizeAll(f))
    ensures recs[k].up == up || i <= recs[k].up
    decreases f
  {
    HeadAgrees(recs, i, f, up, last);
    SibsHead(recs, i, f, up, last, NONE);
    if k >= i + Size(f.value) {
      LinksAgree(recs, i + Size(f.value), f.rest, up, i, k);
    } else if k > i {
      LinksAgree(recs, i + 1, f.value.items, i, NONE, k);
    }
  }

  // ---- Counting back ----

  predicate LastsBack(recs: seq<Rec>) { forall k :: 0 <= k < |recs| ==> NONE <= recs[k].last < k }

  /** The nodes from `j` back along the `last` links. */
  function Count(recs: seq<Rec>, j: int): nat
    requires LastsBack(recs) && j < |recs|
    decreases j
  {
    if j < 0 then 0 else 1 + Count(recs, recs[j].last)
  }

  lemma {:induction false} CountSibs(recs: seq<Rec>, i: nat, f: Forest, up: int, last: int, after: int)
    requires LastsBack(recs) && Sibs(recs, i, f, up, last, after) && last < |recs|
    ensures LastOf(i, f, last) < |recs| && Count(recs, LastOf(i, f, last)) == Count(recs, last) + Length(f)
    decreases f
  {
    if f.Cons? {
      CountSibs(recs, i + Size(f.value), f.rest, up, i, after);
    }
  }

  // ---- The open containers ----

  function Start(z: Zip): nat
    decreases z, 0
  {
    if z.Top? then 0 else Pos(z.outer) + 1
  }

  /** The number of the node that waits for the next token. */
  function Pos(z: Zip): nat
    decreases z, 1
  {
    Start(z) + SizeAll(z.done)
  }

  function Up(z: Zip): int { if z.Top? then NONE else Pos(z.outer) }

  function Last(z: Zip): int { LastOf(Start(z), z.done, NONE) }

  /** The node of an open container: it counts its items only when it is closed. */
  function OpenRec(p: nat, name: Name, isObject: bool, up: int, last: int): Rec
  {
    Rec(name, up, NONE, last, ContainerType(isObject), 0, [], p + 1)
  }

  ghost predicate Hung(recs: seq<Rec>, z: Zip, after: int)
  {
    && Sibs(recs, Start(z), z.done, Up(z), NONE, after)
    && (z.In? ==>
          var p := Pos(z.outer);
          && p < |recs| && recs[p] == OpenRec(p, z.name, z.isObject, Up(z.outer), Last(z.outer))
          && Hung(recs, z.outer, p))
  }

  /** A node that waits for its token; a name may be left on it from a member without a value. */
  function Fresh(name: Name, up: int, last: int): Rec { Rec(name, up, NONE, last, Unknown, 0, [], NONE) }

  /** What holds between two tokens. */
  ghost predicate Parsing(recs: seq<Rec>, z: Zip)
  {
    var c := Pos(z);
    && |recs| == c + 1 && LastsBack(recs)
    && Hung(recs, z, c) && recs[c] == Fresh(recs[c].name, Up(z), Last(z))
  }

  lemma {:induction false} HungLocal(a: seq<Rec>, b: seq<Rec>, z: Zip, after: int)
    requires Hung(a, z, after) && Agree(a, b, 0, Pos(z))
    ensures Hung(b, z, after)
    decreases z
  {
    SibsLocal(a, b, Start(z), z.done, Up(z), NONE, after);
    if z.In? {
      assert a[Pos(z.outer)] == b[Pos(z.outer)];
      HungLocal(a, b, z.outer, Pos(z.outer));
    }
  }

  lemma HangIn(recs: seq<Rec>, z: Zip, name: Name, v: Value, after: int)
    requires Hung(recs, z, Pos(z)) && ItemAt(recs, Pos(z), name, v, Up(z), Last(z), after)
    ensures var y := Hang(z, name, v);
            Hung(recs, y, after) && Pos(y) == Pos(z) + Size(v) && Up(y) == Up(z) && Last(y) == Pos(z)
  {
    SibsSnoc(recs, Start(z), z.done, Up(z), NONE, name, v, after);
    SnocSize(Start(z), z.done, name, v, NONE);
  }

  // ---- The steps of the parser ----

  /** privateNewNext on the waiting node, after it became a scalar. */
  function AfterScalar(recs: seq<Rec>, i: nat, name: Name, kind: Type, text: string): seq<Rec>
    requires i < |recs|
  {
    recs[i := recs[i].(name := name, kind := kind, items := |text|, text := text, next := |recs|)]
      + [Fresh(W.None, recs[i].up, i)]
  }

  /** privateNewContained on the waiting node, after it became a container. */
  function AfterStart(recs: seq<Rec>, i: nat, name: Name, isObject: bool): seq<Rec>
    requires i < |recs|
  {
    recs[i := recs[i].(name := name, kind := ContainerType(isObject), container := |recs|)] + [Fresh(W.None, i, NONE)]
  }

  lemma ScalarKeeps(recs: seq<Rec>, z: Zip, name: Name, kind: Plain, text: string)
    requires Parsing(recs, z)
    ensures Parsing(AfterScalar(recs, Pos(z), name, kind, text), Hang(z, name, Scalar(kind, text)))
  {
    var c, b := Pos(z), AfterScalar(recs, Pos(z), name, kind, text);
    HungLocal(recs, b, z, c);
    HangIn(b, z, name, Scalar(kind, text), c + 1);
  }

  lemma StartKeeps(recs: seq<Rec>, z: Zip, name: Name, isObject: bool)
    requires Parsing(recs, z)
    ensures Parsing(AfterStart(recs, Pos(z), name, isObject), In(z, name, isObject, Nil))
  {
    HungLocal(recs, AfterStart(recs, Pos(z), name, isObject), z, Pos(z));
  }

  /** The waiting node is cut off from its container. */
  function AfterCut(recs: seq<Rec>, i: nat): seq<Rec>
    requires i < |recs| && recs[i].last < |recs| && 0 <= recs[i].up < |recs|
  {
    var l, u := recs[i].last, recs[i].up;
    if l >= 0 then recs[l := recs[l].(next := NONE)] else recs[u := recs[u].(container := NONE)]
  }

  /** The cut node is hung behind its container, which has counted its items. */
  function AfterRehang(recs: seq<Rec>, i: nat, items: nat): seq<Rec>
    requires i < |recs| && 0 <= recs[i].up < |recs|
  {
    var u := recs[i].up;
    var b := recs[u := recs[u].(next := i, items := items)];
    b[i := b[i].(up := b[u].up, last := u)]
  }

  lemma CutKeeps(recs: seq<Rec>, z: Zip)
    requires Parsing(recs, z) && z.In?
    ensures recs[Pos(z)].last < Pos(z) && recs[Pos(z)].up == Pos(z.outer)
    ensures var b, p := AfterCut(recs, Pos(z)), Pos(z.outer);
            && Agree(recs, b, 0, p)
            && Sibs(b, p + 1, z.done, p, NONE, NONE)
            && b[p] == recs[p].(container := if z.done.Nil? then NONE else p + 1)
            && b[Pos(z)] == recs[Pos(z)]
  {
    if z.done.Cons? {
      LastIn(recs, Start(z), z.done, Up(z), NONE, Pos(z));
      SibsRelink(recs, Start(z), z.done, Up(z), NONE, Pos(z), Last(z), NONE);
    }
  }

  /** What privateClose counts. */
  lemma CutCounts(recs: seq<Rec>, z: Zip)
    requires Parsing(recs, z) && z.In?
    ensures recs[Pos(z)].last < Pos(z) && recs[Pos(z)].up == Pos(z.outer) < Pos(z)
    ensures var b := AfterCut(recs, Pos(z));
            && LastsBack(b) && Count(b, recs[Pos(z)].last) == Length(z.done)
            && b[Pos(z)] == recs[Pos(z)] && b[Pos(z.outer)].items == 0
  {
    CutKeeps(recs, z);
    CountSibs(AfterCut(recs, Pos(z)), Start(z), z.done, Pos(z.outer), NONE, NONE);
  }

  function AfterClose(recs: seq<Rec>, i: nat, items: nat): seq<Rec>
    requires i < |recs| && recs[i].last < |recs| && 0 <= recs[i].up < |recs|
    requires recs[i].last != i && recs[i].up != i
  {
    AfterRehang(AfterCut(recs, i), i, items)
  }

  lemma RehangLasts(recs: seq<Rec>, i: nat, items: nat)
    requires i < |recs| && LastsBack(recs) && 0 <= recs[i].up < i
    ensures LastsBack(AfterRehang(recs, i, items))
  {
  }

  lemma CloseLeaves(recs: seq<Rec>, z: Zip, d: seq<Rec>)
    requires Parsing(recs, z) && z.In?
    requires recs[Pos(z)].last < Pos(z) && recs[Pos(z)].up == Pos(z.outer)
    requires d == AfterClose(recs, Pos(z), Length(z.done))
    ensures LastsBack(d) && |d| == |recs|
    ensures Hung(d, z.outer, Pos(z.outer))
    ensures d[Pos(z)] == Fresh(recs[Pos(z)].name, Up(z.outer), Pos(z.outer))
  {
    var c, p, b := Pos(z), Pos(z.outer), AfterCut(recs, Pos(z));
    CutKeeps(recs, z);
    CutCounts(recs, z);
    RehangLasts(b, c, Length(z.done));
    HungLocal(recs, d, z.outer, p);
  }

  lemma CloseItem(recs: seq<Rec>, z: Zip, d: seq<Rec>)
    requires Parsing(recs, z) && z.In?
    requires recs[Pos(z)].last < Pos(z) && recs[Pos(z)].up == Pos(z.outer)
    requires d == AfterClose(recs, Pos(z), Length(z.done))
    ensures ItemAt(d, Pos(z.outer), z.name, Container(z.isObject, z.done), Up(z.outer), Last(z.outer), Pos(z))
  {
    var p, b := Pos(z.outer), AfterCut(recs, Pos(z));
    CutKeeps(recs, z);
    CloseRec(recs, z, d);
    assert Sibs(d, p + 1, z.done, p, NONE, NONE) by {
      SibsLocal(b, d, p + 1, z.done, p, NONE, NONE);
    }
    ContainerMake(d, p, z.name, z.isObject, z.done, Up(z.outer), Last(z.outer), Pos(z));
  }

  lemma ContainerMake(recs: seq<Rec>, i: nat, name: Name, isObject: bool, f: Forest, up: int, last: int, next: int)
    requires i + Size(Container(isObject, f)) <= |recs|
    requires recs[i] == RecOf(i, name, Container(isObject, f), up, last, next) && Sibs(recs, i + 1, f, i, NONE, NONE)
    ensures ItemAt(recs, i, name, Container(isObject, f), up, last, next)
  {
  }

  /** The container's own node, and the nodes below it, when it is closed. */
  lemma CloseRec(recs: seq<Rec>, z: Zip, d: seq<Rec>)
    requires Parsing(recs, z) && z.In?
    requires recs[Pos(z)].last < Pos(z) && recs[Pos(z)].up == Pos(z.outer)
    requires d == AfterClose(recs, Pos(z), Length(z.done))
    ensures var p := Pos(z.outer);
            && p + Size(Container(z.isObject, z.done)) <= |d| && Agree(AfterCut(recs, Pos(z)), d, p + 1, Pos(z))
            && d[p] == RecOf(p, z.name, Container(z.isObject, z.done), Up(z.outer), Last(z.outer), Pos(z))
  {
    CutKeeps(recs, z);
  }

  /** privateClose: the container is finished, and the node that waited in it waits behind it. */
  lemma CloseKeeps(recs: seq<Rec>, z: Zip)
    requires Parsing(recs, z) && z.In?
    ensures var c := Pos(z);
            && recs[c].last < c && recs[c].up == Pos(z.outer)
            && Parsing(AfterClose(recs, c, Length(z.done)), Hang(z.outer, z.name, Container(z.isObject, z.done)))
  {
    CutKeeps(recs, z);
    var d := AfterClose(recs, Pos(z), Length(z.done));
    CloseLeaves(recs, z, d);
    CloseItem(recs, z, d);
    HangIn(d, z.outer, z.name, Container(z.isObject, z.done), Pos(z));
  }
}
