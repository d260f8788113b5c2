/** The pointer-tree parser of src/json.c, for any input: it succeeds exactly where `Parse` does,
    and the nodes it leaves are those of the value, linked as they should be. */
module JsonParser {
  import opened JsonTree
  import opened JsonParse
  import opened JsonLayout
  import opened JsonNodes
  import W = Wrappers
  import T = JsonToken

  /** Between two tokens: `node` waits in the innermost of the containers `z`. */
  ghost predicate Waiting(arena: Arena, node: JsonNode, z: Zip)
    reads arena, arena.nodes
  {
    arena.Valid() && Parsing(arena.recs, z) && arena.Has(node, Pos(z))
  }

  /** Where the waiting node is. */
  lemma WaitingUp(arena: Arena, node: JsonNode, z: Zip)
    requires Waiting(arena, node, z)
    ensures node.up == null <==> z.Top?
    ensures z.In? ==> arena.Has(node.up, Pos(z.outer)) && node.up.kind == ContainerType(z.isObject)
    ensures node.kind == Unknown && node.container == null
  {
    assert MirrorAt(arena.nodes, arena.recs, Pos(z));
    if z.In? {
      assert MirrorAt(arena.nodes, arena.recs, Pos(z.outer));
    }
  }

  /** The first part of pushOn: the name and the type of the token go into the node. */
  method Label(arena: Arena, node: JsonNode, name: Name, kind: Type, text: string, ghost i: nat)
    requires arena.Valid() && arena.Has(node, i)
    modifies arena`recs, node
    ensures arena.Valid()
    ensures arena.recs
            == old(arena.recs)[i := old(arena.recs)[i].(name := name, kind := kind, items := |text|, text := text)]
  {
    ghost var recs := arena.recs;
    node.name, node.kind, node.text, node.nItemsOrLength := name, kind, text, |text|;
    arena.recs := recs[i := recs[i].(name := name, kind := kind, items := |text|, text := text)];
    forall k | 0 <= k < |arena.nodes| ensures MirrorAt(arena.nodes, arena.recs, k) {
      assert old(MirrorAt(arena.nodes, arena.recs, k));
    }
  }

  method PushScalar(arena: Arena, node: JsonNode, name: Name, kind: Plain, text: string, ghost z: Zip)
      returns (r: JsonNode)
    requires Waiting(arena, node, z)
    modifies arena, node
    ensures Waiting(arena, r, Hang(z, name, Scalar(kind, text)))
    ensures fresh(r) && arena.nodes == old(arena.nodes) + [r]
  {
    ghost var recs, i := arena.recs, Pos(z);
    Label(arena, node, name, kind, text, i);
    r := arena.NewNext(node, i);
    assert arena.recs == AfterScalar(recs, i, name, kind, text);
    ScalarKeeps(recs, z, name, kind, text);
  }

  method PushStart(arena: Arena, node: JsonNode, name: Name, isObject: bool, ghost z: Zip) returns (r: JsonNode)
    requires Waiting(arena, node, z)
    modifies arena, node
    ensures Waiting(arena, r, In(z, name, isObject, Nil))
    ensures fresh(r) && arena.nodes == old(arena.nodes) + [r]
  {
    ghost var recs, i := arena.recs, Pos(z);
    WaitingUp(arena, node, z);
    Label(arena, node, name, ContainerType(isObject), [], i);
    assert MirrorAt(arena.nodes, arena.recs, i);
    r := arena.NewContained(node, i);
    assert arena.recs == AfterStart(recs, i, name, isObject);
    StartKeeps(recs, z, name, isObject);
  }

  method Close(arena: Arena, node: JsonNode, ghost z: Zip)
    requires Waiting(arena, node, z) && z.In?
    modifies arena`recs, arena.nodes
    ensures Waiting(arena, node, Hang(z.outer, z.name, Container(z.isObject, z.done)))
  {
    ghost var recs := arena.recs;
    CutCounts(recs, z);
    arena.Close(node, Pos(z), Length(z.done));
    CloseKeeps(recs, z);
  }

  method PushEnd(arena: Arena, node: JsonNode, name: Name, ghost z: Zip)
    requires Waiting(arena, node, z) && z.In?
    modifies arena`recs, arena.nodes
    ensures Waiting(arena, node, Hang(z.outer, z.name, Container(z.isObject, z.done)))
  {
    ghost var recs := arena.recs;
    Label(arena, node, name, Unknown, [], Pos(z));
    HungLocal(recs, arena.recs, z, Pos(z));
    Close(arena, node, z);
  }

  /** pushOn. */
  method PushToken(arena: Arena, node: JsonNode, kind: T.Kind, text: string, name: Name, ghost z: Zip)
      returns (r: JsonNode?)
    requires Waiting(arena, node, z)
    modifies arena, arena.nodes
    ensures r == null <==> PushOn(kind, text, name, z).None?
    ensures r != null ==> Waiting(arena, r, PushOn(kind, text, name, z).value)
    ensures old(arena.nodes) <= arena.nodes && fresh(set n | n in arena.nodes && n !in old(arena.nodes))
  {
    WaitingUp(arena, node, z);
    r := null;
    if name.Some? && (node.up == null || node.up.kind != Object) {
    } else if name.None? && kind != T.EndObject && node.up != null && node.up.kind == Object {
    } else if IsStart(kind) {
      r := PushStart(arena, node, name, kind == T.StartObject, z);
    } else if IsEnd(kind) {
      if node.up != null && node.up.kind == ContainerType(kind == T.EndObject) {
        PushEnd(arena, node, name, z);
        r := node;
      }
    } else if ScalarType(kind).Some? {
      r := PushScalar(arena, node, name, ScalarType(kind).value, text, z);
    }
  }

  /** The tokens that are left at each place of the input. */
  type Lexer = nat -> T.Stream

  ghost predicate LexesAt(lex: Lexer, s: string, i: nat)
    requires i <= |s|
  {
    var t := T.TokenAt(s, i);
    lex(i) == T.Headed(s, t, lex(t.end + 1))
  }

  ghost predicate Lexes(lex: Lexer, s: string)
  {
    forall i: nat :: i <= |s| ==> LexesAt(lex, s, i)
  }

  lemma LexerOf(s: string) returns (lex: Lexer)
    ensures Lexes(lex, s) && lex(0) == T.Lex(s)
  {
    lex := (i: nat) => T.LexFrom(s, i);
    forall i: nat | i <= |s| ensures LexesAt(lex, s, i) {
      T.LexHeaded(s, i);
    }
    assert s[0..] == s;
  }

  /** The tokens from `t` on, which stands in `s`. */
  ghost function From(s: string, lex: Lexer, t: T.Token): T.Stream
    requires t.start <= t.end < |s|
  {
    T.More(t.kind, T.TokenText(s, t), lex(t.end + 1))
  }

  /** `t` is the head of the tokens `r` that are left at `i`. */
  ghost predicate Heads(s: string, lex: Lexer, i: nat, t: T.Token, r: T.Stream)
  {
    match t.kind
    case Eof => r == T.Done
    case Error => i < |s| && r == T.Broken
    case _ => i <= t.start <= t.end < |s| && r == From(s, lex, t)
  }

  /** privateParseNext in the middle of the input. */
  method Next(s: string, ghost lex: Lexer, i: nat) returns (t: T.Token)
    requires i <= |s| && Lexes(lex, s)
    ensures Heads(s, lex, i, t, lex(i))
  {
    t := T.ParseNext(s, i);
    assert LexesAt(lex, s, i);
  }

  /** The key that stands at `t`, the colon behind it and the token behind that. */
  method ReadMember(s: string, ghost lex: Lexer, t: T.Token) returns (ok: bool, name: string, v: T.Token)
    requires t.start <= t.end < |s| && Lexes(lex, s)
    ensures ghost var r := From(s, lex, t);
            ok <==> r.kind == T.QuotedString && r.rest.More? && r.rest.kind == T.KeySeparator && r.rest.rest.More?
    ensures ok ==>
              name == T.TokenText(s, t) && t.end < v.start <= v.end < |s|
              && From(s, lex, t).rest.rest == From(s, lex, v)
  {
    ok, name, v := false, [], t;
    if t.kind == T.QuotedString {
      name := T.TokenText(s, t);
      var colon := Next(s, lex, t.end + 1);
      if colon.kind == T.KeySeparator {
        v := Next(s, lex, colon.end + 1);
        ok := v.kind != T.Eof && v.kind != T.Error;
      }
    }
  }

  /** What the loop does first with a token: the cases without a member name. */
  lemma Unnamed(r: T.Stream, z: Zip, needAComma: bool, afterComma: bool)
    requires r.More?
    ensures r.kind == T.MemberSeparator ==>
              Run(r, z, needAComma, afterComma) == if needAComma then Run(r.rest, z, false, true) else W.None
    ensures IsEnd(r.kind) ==> Run(r, z, needAComma, afterComma) == if afterComma then W.None else Push(r, W.None, z)
    ensures r.kind != T.MemberSeparator && !IsEnd(r.kind) && needAComma ==> Run(r, z, needAComma, afterComma).None?
    ensures r.kind != T.MemberSeparator && !IsEnd(r.kind) && !needAComma && !InObject(z) ==>
              Run(r, z, needAComma, afterComma) == Push(r, W.None, z)
  {
  }

  /** The cases with one. */
  lemma Named(r: T.Stream, z: Zip, afterComma: bool)
    requires r.More? && r.kind != T.MemberSeparator && !IsEnd(r.kind) && InObject(z)
    ensures var ok := r.kind == T.QuotedString && r.rest.More? && r.rest.kind == T.KeySeparator && r.rest.rest.More?;
            Run(r, z, false, afterComma)
            == if !ok then W.None
               else if r.rest.rest.kind == T.MemberSeparator then Run(r.rest.rest.rest, z, false, true)
               else Push(r.rest.rest, W.Some(r.text), z)
  {
  }

  /** What the loop does with a token inside an object: the token behind the key and the colon. */
  method ChooseMember(s: string, ghost lex: Lexer, t: T.Token, ghost z: Zip, ghost afterComma: bool)
      returns (ok: bool, name: Name, v: T.Token)
    requires InObject(z) && t.start <= t.end < |s| && Lexes(lex, s) && t.kind != T.MemberSeparator && !IsEnd(t.kind)
    ensures !ok ==> Run(From(s, lex, t), z, false, afterComma).None?
    ensures ok ==> t.end <= v.end && v.start <= v.end < |s|
    ensures ok && v.kind == T.MemberSeparator ==>
              Run(From(s, lex, t), z, false, afterComma) == Run(lex(v.end + 1), z, false, true)
    ensures ok && v.kind != T.MemberSeparator ==>
              Run(From(s, lex, t), z, false, afterComma) == Push(From(s, lex, v), name, z)
  {
    Named(From(s, lex, t), z, afterComma);
    var key: string;
    ok, key, v := ReadMember(s, lex, t);
    name := W.Some(key);
  }

  /** What the loop does with the token `t`: an error, or the token to push and its name. */
  method Choose(s: string, ghost lex: Lexer, t: T.Token, arena: Arena, node: JsonNode, ghost z: Zip, needAComma: bool,
                afterComma: bool)
      returns (ok: bool, name: Name, v: T.Token)
    requires Waiting(arena, node, z) && t.start <= t.end < |s| && Lexes(lex, s)
    ensures !ok ==> Run(From(s, lex, t), z, needAComma, afterComma).None?
    ensures ok ==> t.end <= v.end && v.start <= v.end < |s|
    ensures ok && v.kind == T.MemberSeparator ==>
              Run(From(s, lex, t), z, needAComma, afterComma) == Run(lex(v.end + 1), z, false, true)
    ensures ok && v.kind != T.MemberSeparator ==>
              Run(From(s, lex, t), z, needAComma, afterComma) == Push(From(s, lex, v), name, z)
  {
    WaitingUp(arena, node, z);
    Unnamed(From(s, lex, t), z, needAComma, afterComma);
    ok, name, v := true, W.None, t;
    if t.kind == T.MemberSeparator {
      ok := needAComma;
    } else if IsEnd(t.kind) {
      ok := !afterComma;
    } else if needAComma {
      ok := false;
    } else if node.up != null && node.up.kind == Object {
      ok, name, v := ChooseMember(s, lex, t, z, afterComma);
    }
  }

  /** Pushing a token, and the rest of the run behind it. */
  lemma PushIs(s: string, lex: Lexer, v: T.Token, name: Name, z: Zip)
    requires v.start <= v.end < |s|
    ensures var y := PushOn(v.kind, T.TokenText(s, v), name, z);
            Push(From(s, lex, v), name, z)
            == if y.None? then W.None else Run(lex(v.end + 1), y.value, !IsStart(v.kind) && y.value.In?, false)
  {
  }

  /** Pushing the chosen token; the node is null on an error. */
  method Apply(s: string, v: T.Token, name: Name, arena: Arena, node: JsonNode, ghost z: Zip)
      returns (r: JsonNode?, ghost y: Zip, comma: bool)
    requires Waiting(arena, node, z) && v.start <= v.end < |s|
    modifies arena, arena.nodes
    ensures old(arena.nodes) <= arena.nodes && fresh(set n | n in arena.nodes && n !in old(arena.nodes))
    ensures var pushed := PushOn(v.kind, T.TokenText(s, v), name, z);
            if r == null then pushed.None?
            else pushed == W.Some(y) && comma == (!IsStart(v.kind) && y.In?) && Waiting(arena, r, y)
  {
    var text := T.TokenText(s, v);
    ghost var pushed := PushOn(v.kind, text, name, z);
    r := PushToken(arena, node, v.kind, text, name, z);
    y, comma := z, false;
    if r != null {
      y := pushed.value;
      WaitingUp(arena, r, y);
      comma := !IsStart(v.kind) && r.up != null;
    }
  }

  /** One turn of the loop of privateParseJson. */
  method Turn(s: string, ghost lex: Lexer, t: T.Token, arena: Arena, node: JsonNode, ghost z: Zip, needAComma: bool,
              afterComma: bool)
      returns (r: JsonNode?, ghost y: Zip, comma: bool, separator: bool, next: nat, following: T.Token)
    requires Waiting(arena, node, z) && t.start <= t.end < |s| && Lexes(lex, s)
    modifies arena, arena.nodes
    ensures old(arena.nodes) <= arena.nodes && fresh(set n | n in arena.nodes && n !in old(arena.nodes))
    ensures r == null ==> Run(From(s, lex, t), z, needAComma, afterComma).None?
    ensures t.end < next <= |s|
    ensures r != null ==> Waiting(arena, r, y)
    ensures r != null ==> Heads(s, lex, next, following, lex(next))
    ensures r != null ==> Run(From(s, lex, t), z, needAComma, afterComma) == Run(lex(next), y, comma, separator)
  {
    ghost var outcome := Run(From(s, lex, t), z, needAComma, afterComma);
    var ok, name, v := Choose(s, lex, t, arena, node, z, needAComma, afterComma);
    r, y, comma, separator, next, following := null, z, false, false, t.end + 1, t;
    if ok {
      next := v.end + 1;
      following := Next(s, lex, next);
      if v.kind == T.MemberSeparator {
        r, separator := node, true;
      } else {
        PushIs(s, lex, v, name, z);
        r, y, comma := Apply(s, v, name, arena, node, z);
      }
    }
  }

  // ---- The end of the input ----

  lemma Nested(z: Zip)
    ensures z.In? ==> Pos(z.outer) < Pos(z)
    ensures z.Top? && z.done.Cons? ==> Size(z.done.value) <= Pos(z)
    ensures z.Top? && z.done.Cons? && z.done.rest.Cons? ==> Size(z.done.value) < Pos(z)
  {
    assert z.done.Cons? ==> z.done.rest.Cons? ==> SizeAll(z.done.rest) > 0;
  }

  /** Whether the root's next node is the waiting one tells whether one value is complete. */
  lemma {:induction false} RootNext(recs: seq<Rec>, z: Zip, after: int)
    requires Hung(recs, z, after) && 0 < Pos(z) <= |recs|
    ensures z.Top? ==> recs[0].next == if z.done.rest.Nil? then after else Size(z.done.value)
    ensures z.In? ==> recs[0].next < Pos(z)
    decreases z
  {
    Nested(z);
    if z.Top? {
      SibsHead(recs, 0, z.done, NONE, NONE, after);
    } else if Pos(z.outer) > 0 {
      Nested(z.outer);
      RootNext(recs, z.outer, Pos(z.outer));
    } else {
      assert recs[0].next == NONE;
    }
  }

  lemma RootTells(recs: seq<Rec>, z: Zip)
    requires Parsing(recs, z)
    ensures Pos(z) == 0 ==> !Complete(z)
    ensures Pos(z) > 0 ==> (recs[0].next == Pos(z) <==> Complete(z))
  {
    Nested(z);
    if Pos(z) > 0 {
      RootNext(recs, z, Pos(z));
    }
  }

  /** The value is complete: the root is let go of the node that still waits. */
  lemma RootDone(recs: seq<Rec>, z: Zip)
    requires Parsing(recs, z) && Complete(z)
    ensures recs[Pos(z)].last == 0 < Pos(z)
    ensures ItemAt(recs[0 := recs[0].(next := NONE)], 0, z.done.name, z.done.value, NONE, NONE, NONE)
  {
    SibsRelink(recs, 0, z.done, NONE, NONE, Pos(z), 0, NONE);
  }

  lemma TopHasNoName(s: string, z: Zip)
    requires Run(T.Lex(s), Top(Nil), false, false) == W.Some(z) && Complete(z)
    ensures z.done.name == W.None && WellFormed(z.done.value)
  {
    LexSound(s);
    RunWellFormed(T.Lex(s), Top(Nil), false, false);
  }

  /** `root` is the root of a tree of nodes that holds `v`. */
  ghost predicate Holds(arena: Arena, root: JsonNode, v: Value)
    reads arena, arena.nodes
  {
    arena.Valid() && arena.Has(root, 0) && ItemAt(arena.recs, 0, W.None, v, NONE, NONE, NONE)
  }

  method Finish(s: string, arena: Arena, root: JsonNode, node: JsonNode, ghost z: Zip) returns (r: JsonNode?)
    requires Waiting(arena, node, z) && arena.Has(root, 0) && Run(T.Lex(s), Top(Nil), false, false) == W.Some(z)
    modifies arena`recs, arena.nodes
    ensures r == null <==> Parse(s).None?
    ensures r != null ==> Holds(arena, r, Parse(s).value)
  {
    RootTells(arena.recs, z);
    assert MirrorAt(arena.nodes, arena.recs, 0);
    assert MirrorAt(arena.nodes, arena.recs, Pos(z));
    r := null;
    if node != root && root.next == node {
      assert Complete(z);
      RootDone(arena.recs, z);
      TopHasNoName(s, z);
      node.last.next := null;
      arena.recs := arena.recs[0 := arena.recs[0].(next := NONE)];
      forall k | 0 <= k < |arena.nodes| ensures MirrorAt(arena.nodes, arena.recs, k) {
        assert old(MirrorAt(arena.nodes, arena.recs, k));
      }
      r := root;
    }
  }

  /** privateParseJson, copying the strings. */
  method ParseJson(s: string) returns (r: JsonNode?, arena: Arena)
    ensures r == null <==> Parse(s).None?
    ensures r != null ==> Holds(arena, r, Parse(s).value)
  {
    arena := new Arena();
    var root := arena.NewNode();
    var node: JsonNode? := root;
    var current, needAComma, afterComma := 0, false, false;
    ghost var lex := LexerOf(s);
    var t := Next(s, lex, 0);
    ghost var z := Top(Nil);
    ghost var outcome := Run(T.Lex(s), z, false, false);
    while node != null && current < |s| && t.kind != T.Eof
      invariant current <= |s| && fresh(arena) && fresh(arena.nodes) && [root] <= arena.nodes
      invariant if node == null then outcome.None?
                else
                  && Waiting(arena, node, z) && Heads(s, lex, current, t, lex(current))
                  && outcome == Run(lex(current), z, needAComma, afterComma)
      decreases node != null, |s| - current
    {
      if t.kind == T.Error {
        node := null;
      } else {
        node, z, needAComma, afterComma, current, t := Turn(s, lex, t, arena, node, z, needAComma, afterComma);
      }
    }
    r := null;
    if node != null {
      r := Finish(s, arena, root, node, z);
    }
  }

  /** In such a tree the links of every node and those of the nodes it points at agree. */
  lemma WellLinked(arena: Arena, root: JsonNode, v: Value, k: nat)
    requires Holds(arena, root, v) && k < Size(v)
    ensures var n := arena.nodes[k];
            && (n.next != null ==> n.next.last == n && n.next.up == n.up)
            && (n.last != null ==> n.last.next == n && n.last.up == n.up)
            && (n.container != null ==> n.container.up == n && n.container.last == null)
            && (n.up != null ==> n.up.kind in {Array, Object} && n.up.container != null)
            && (n.next != n && n.last != n && n.up != n && n.container != n)
  {
    var f := Cons(W.None, v, Nil);
    assert SizeAll(f) == Size(v) by { assert SizeAll(f.rest) == 0; }
    assert Sibs(arena.recs, 0, f, NONE, NONE, NONE);
    LinksAgree(arena.recs, 0, f, NONE, NONE, k);
    var r := arena.recs[k];
    assert MirrorAt(arena.nodes, arena.recs, k);
    assert r.next != NONE ==> MirrorAt(arena.nodes, arena.recs, r.next);
    assert r.last != NONE ==> MirrorAt(arena.nodes, arena.recs, r.last);
    assert r.container != NONE ==> MirrorAt(arena.nodes, arena.recs, r.container);
    assert r.up != NONE ==> MirrorAt(arena.nodes, arena.recs, r.up);
  }
}
