/** The language privateParseJson accepts, exactly: the grammar of RFC 8259 over the tokens of
    this tokenizer, but for one thing: the value behind a colon may be missing, and such a
    member is dropped. */
module JsonLanguage {
  import opened JsonTree
  import opened JsonParse
  import N = JsonNumber
  import S = JsonString
  import T = JsonToken
  import W = Wrappers

  /** A text as it was written, with the members that have no value. */
  datatype Doc = Group(isObject: bool, items: Docs) | Atom(kind: Plain, text: string)

  datatype Docs = NoDocs | Item(name: Name, value: W.Option<Doc>, rest: Docs)

  predicate Grammatical(d: Doc)
    decreases d
  {
    match d
    case Group(isObject, items) => AllGrammatical(items, isObject)
    case Atom(_, _) => true
  }

  predicate AllGrammatical(f: Docs, named: bool)
    decreases f
  {
    f.Item? ==>
      && f.name.Some? == named
      && (if f.value.Some? then Grammatical(f.value.value) else named)
      && AllGrammatical(f.rest, named)
  }

  function Spelled(d: Doc, rest: T.Stream): T.Stream
    decreases d
  {
    match d
    case Group(isObject, items) =>
      T.More(OpenKind(isObject), [], SpelledAll(items, T.More(CloseKind(isObject), [], rest)))
    case Atom(kind, text) => T.More(ScalarToken(kind), text, rest)
  }

  function SpelledAll(f: Docs, rest: T.Stream): T.Stream
    decreases f, 0
  {
    if f.NoDocs? then rest else SpelledItem(f.name, f.value, SpelledRest(f.rest, rest))
  }

  function SpelledItem(name: Name, d: W.Option<Doc>, rest: T.Stream): T.Stream
    decreases d
  {
    LabelTokens(name, if d.Some? then Spelled(d.value, rest) else rest)
  }

  function SpelledRest(f: Docs, rest: T.Stream): T.Stream
    decreases f, 1
  {
    if f.NoDocs? then rest else T.More(T.MemberSeparator, [], SpelledAll(f, rest))
  }

  /** What a document stands for. */
  function Meaning(d: Doc): Value
    decreases d
  {
    match d
    case Group(isObject, items) => Container(isObject, MeaningAll(items))
    case Atom(kind, text) => Scalar(kind, text)
  }

  function MeaningAll(f: Docs): Forest
    decreases f
  {
    if f.NoDocs? then Nil
    else if f.value.None? then MeaningAll(f.rest)
    else Cons(f.name, Meaning(f.value.value), MeaningAll(f.rest))
  }

  // ---- Every document of the grammar is accepted ----

  lemma ScalarTypeOf(kind: Plain)
    ensures ScalarType(ScalarToken(kind)) == W.Some(kind)
  {
  }

  /** The tokens of a value hang it where they are read. */
  lemma {:induction false} PushDoc(d: Doc, rest: T.Stream, z: Zip, name: Name)
    requires Grammatical(d) && (name.Some? <==> InObject(z))
    ensures Push(Spelled(d, rest), name, z) == Run(rest, Hang(z, name, Meaning(d)), z.In?, false)
    decreases d
  {
    match d
    case Group(isObject, items) => RunAll(items, rest, In(z, name, isObject, Nil), false);
    case Atom(kind, text) => ScalarTypeOf(kind);
  }

  lemma StartsValue(d: Doc, rest: T.Stream)
    requires Grammatical(d)
    ensures Spelled(d, rest).kind != T.MemberSeparator && !IsEnd(Spelled(d, rest).kind)
  {
  }

  function CloseToken(isObject: bool, rest: T.Stream): T.Stream { T.More(CloseKind(isObject), [], rest) }

  /** All items up to the closing token, which then closes the container over them. */
  lemma {:induction false} RunAll(f: Docs, rest: T.Stream, z: Zip, afterComma: bool)
    requires z.In? && AllGrammatical(f, z.isObject) && (f.NoDocs? ==> !afterComma)
    ensures Run(SpelledAll(f, CloseToken(z.isObject, rest)), z, false, afterComma)
         == Push(CloseToken(z.isObject, rest), W.None, z.(done := Append(z.done, MeaningAll(f))))
    decreases f, 1
  {
    if f.NoDocs? {
      AppendNil(z.done);
    } else if f.value.Some? {
      RunValue(f, rest, z, afterComma);
    } else {
      RunNoValue(f, rest, z, afterComma);
    }
  }

  lemma {:induction false} AppendNil(f: Forest)
    ensures Append(f, Nil) == f
    decreases f
  {
    if f.Cons? {
      AppendNil(f.rest);
    }
  }

  lemma {:induction false} RunValue(f: Docs, rest: T.Stream, z: Zip, afterComma: bool)
    requires z.In? && f.Item? && f.value.Some? && AllGrammatical(f, z.isObject)
    ensures Run(SpelledAll(f, CloseToken(z.isObject, rest)), z, false, afterComma)
         == Push(CloseToken(z.isObject, rest), W.None, z.(done := Append(z.done, MeaningAll(f))))
    decreases f, 0
  {
    var d, close := f.value.value, CloseToken(z.isObject, rest);
    var more := SpelledRest(f.rest, close);
    var y := Hang(z, f.name, Meaning(d));
    PushDoc(d, more, z, f.name);
    StartsValue(d, more);
    assert Run(SpelledAll(f, close), z, false, afterComma) == Run(more, y, true, false);
    AppendSnoc(z.done, f.name, Meaning(d), MeaningAll(f.rest));
    if f.rest.Item? {
      RunAll(f.rest, rest, y, true);
    }
  }

  lemma {:induction false} RunNoValue(f: Docs, rest: T.Stream, z: Zip, afterComma: bool)
    requires z.In? && f.Item? && f.value.None? && AllGrammatical(f, z.isObject)
    ensures Run(SpelledAll(f, CloseToken(z.isObject, rest)), z, false, afterComma)
         == Push(CloseToken(z.isObject, rest), W.None, z.(done := Append(z.done, MeaningAll(f))))
    decreases f, 0
  {
    if f.rest.Item? {
      RunAll(f.rest, rest, z, true);
    } else {
      AppendNil(z.done);
    }
  }

  // ---- Only documents of the grammar are accepted ----

  /** The containers that are still open, with the items that were written in them. */
  datatype DocZip = TopDocs(docs: Docs) | InDocs(outer: DocZip, name: Name, isObject: bool, docs: Docs)

  function Meant(z: DocZip): Zip
  {
    match z
    case TopDocs(docs) => Top(MeaningAll(docs))
    case InDocs(outer, name, isObject, docs) => In(Meant(outer), name, isObject, MeaningAll(docs))
  }

  predicate GrammaticalZip(z: DocZip)
  {
    match z
    case TopDocs(docs) => AllGrammatical(docs, false)
    case InDocs(outer, name, isObject, docs) =>
      && name.Some? == (outer.InDocs? && outer.isObject)
      && AllGrammatical(docs, isObject) && GrammaticalZip(outer)
  }

  /** Documents one after the other, as the parser takes them at the top. */
  function Loose(f: Docs, rest: T.Stream): T.Stream
    decreases f
  {
    if f.NoDocs? then rest else SpelledItem(f.name, f.value, Loose(f.rest, rest))
  }

  /** What was read when the items `f` were complete, then `rest`. */
  function Read(z: DocZip, rest: T.Stream): T.Stream
  {
    match z
    case TopDocs(docs) => Loose(docs, rest)
    case InDocs(outer, name, isObject, docs) =>
      ReadOn(outer, LabelTokens(name, T.More(OpenKind(isObject), [], SpelledAll(docs, rest))))
  }

  /** The same, and a comma if another item is to follow. */
  function ReadOn(z: DocZip, rest: T.Stream): T.Stream
  {
    match z
    case TopDocs(docs) => Loose(docs, rest)
    case InDocs(outer, name, isObject, docs) =>
      var more := if docs.NoDocs? then rest else T.More(T.MemberSeparator, [], rest);
      ReadOn(outer, LabelTokens(name, T.More(OpenKind(isObject), [], SpelledAll(docs, more))))
  }

  function Add(f: Docs, name: Name, d: W.Option<Doc>): Docs
  {
    if f.NoDocs? then Item(name, d, NoDocs) else f.(rest := Add(f.rest, name, d))
  }

  function AddTo(z: DocZip, name: Name, d: W.Option<Doc>): DocZip { z.(docs := Add(z.docs, name, d)) }

  lemma {:induction false} AddAll(f: Docs, name: Name, d: W.Option<Doc>, named: bool)
    requires AllGrammatical(f, named) && name.Some? == named
    requires if d.Some? then Grammatical(d.value) else named
    ensures AllGrammatical(Add(f, name, d), named)
    ensures MeaningAll(Add(f, name, d))
            == if d.Some? then Snoc(MeaningAll(f), name, Meaning(d.value)) else MeaningAll(f)
    decreases f
  {
    if f.Item? {
      AddAll(f.rest, name, d, named);
    }
  }

  lemma {:induction false} AddLoose(f: Docs, name: Name, d: W.Option<Doc>, rest: T.Stream)
    ensures Loose(Add(f, name, d), rest) == Loose(f, SpelledItem(name, d, rest))
    decreases f
  {
    if f.Item? {
      AddLoose(f.rest, name, d, rest);
    }
  }

  lemma {:induction false} AddSpelled(f: Docs, name: Name, d: W.Option<Doc>, rest: T.Stream)
    ensures SpelledAll(Add(f, name, d), rest)
         == if f.NoDocs? then SpelledItem(name, d, rest)
            else SpelledAll(f, T.More(T.MemberSeparator, [], SpelledItem(name, d, rest)))
    decreases f
  {
    if f.Item? {
      AddSpelled(f.rest, name, d, rest);
    }
  }

  lemma AddRead(z: DocZip, name: Name, d: W.Option<Doc>, rest: T.Stream)
    ensures Read(AddTo(z, name, d), rest) == ReadOn(z, SpelledItem(name, d, rest))
  {
    if z.TopDocs? {
      AddLoose(z.docs, name, d, rest);
    } else {
      AddSpelled(z.docs, name, d, rest);
    }
  }

  /** A run that succeeds has read documents of the grammar: those in `z`, and on. */
  lemma {:induction false} RunReads(r: T.Stream, z: DocZip, needAComma: bool, afterComma: bool) returns (y: DocZip)
    requires Sound(r) && GrammaticalZip(z) && Run(r, Meant(z), needAComma, afterComma).Some?
    requires needAComma ==> z.InDocs? && z.docs.Item? && !afterComma
    requires afterComma ==> z.InDocs? && z.docs.Item?
    requires !needAComma && !afterComma ==> z.TopDocs? || z.docs.NoDocs?
    ensures Run(r, Meant(z), needAComma, afterComma) == W.Some(Meant(y)) && GrammaticalZip(y)
    ensures y.TopDocs? ==> Read(y, T.Done) == if afterComma then ReadOn(z, r) else Read(z, r)
    decreases r, 1
  {
    if r.Done? {
      y := z;
    } else if r.kind == T.MemberSeparator {
      y := RunReads(r.rest, z, false, true);
    } else if IsEnd(r.kind) {
      y := CloseReads(r, z, W.None);
    } else if !InObject(Meant(z)) {
      y := PushReads(r, W.None, z);
    } else {
      y := MemberReads(r, z);
    }
  }

  lemma {:induction false} CloseReads(r: T.Stream, z: DocZip, name: Name) returns (y: DocZip)
    requires r.More? && IsEnd(r.kind)
    requires Sound(r) && GrammaticalZip(z) && Push(r, name, Meant(z)).Some?
    ensures Push(r, name, Meant(z)) == W.Some(Meant(y)) && GrammaticalZip(y)
    ensures y.TopDocs? ==> Read(y, T.Done) == Read(z, r)
    decreases r, 0
  {
    assert z.InDocs? && r.kind == CloseKind(z.isObject) && r.text == [];
    var d := W.Some(Group(z.isObject, z.docs));
    var x := AddTo(z.outer, z.name, d);
    AddAll(z.outer.docs, z.name, d, InObject(Meant(z.outer)));
    AddRead(z.outer, z.name, d, r.rest);
    y := RunReads(r.rest, x, x.InDocs?, false);
  }

  lemma {:induction false} PushReads(r: T.Stream, name: Name, z: DocZip) returns (y: DocZip)
    requires r.More? && !IsEnd(r.kind) && (name.Some? <==> InObject(Meant(z)))
    requires Sound(r) && GrammaticalZip(z) && Push(r, name, Meant(z)).Some?
    ensures Push(r, name, Meant(z)) == W.Some(Meant(y)) && GrammaticalZip(y)
    ensures y.TopDocs? ==> Read(y, T.Done) == ReadOn(z, LabelTokens(name, r))
    decreases r, 0
  {
    if IsStart(r.kind) {
      y := RunReads(r.rest, InDocs(z, name, r.kind == T.StartObject, NoDocs), false, false);
    } else {
      var d := W.Some(Atom(ScalarType(r.kind).value, r.text));
      var x := AddTo(z, name, d);
      AddAll(z.docs, name, d, InObject(Meant(z)));
      AddRead(z, name, d, r.rest);
      y := RunReads(r.rest, x, x.InDocs?, false);
    }
  }

  lemma {:induction false} MemberReads(r: T.Stream, z: DocZip) returns (y: DocZip)
    requires r.More? && r.kind != T.MemberSeparator && !IsEnd(r.kind) && InObject(Meant(z))
    requires Sound(r) && GrammaticalZip(z) && Run(r, Meant(z), false, false).Some?
    ensures Run(r, Meant(z), false, false) == W.Some(Meant(y)) && GrammaticalZip(y)
    ensures y.TopDocs? ==> Read(y, T.Done) == ReadOn(z, r)
    decreases r, 0
  {
    var v, name := r.rest.rest, W.Some(r.text);
    assert Sound(r.rest) && Sound(v);
    assert r == LabelTokens(name, v);
    if v.kind == T.MemberSeparator || IsEnd(v.kind) {
      var x := AddTo(z, name, W.None);
      AddAll(z.docs, name, W.None, true);
      AddRead(z, name, W.None, v);
      if IsEnd(v.kind) {
        y := CloseReads(v, x, name);
      } else {
        y := RunReads(v.rest, x, false, true);
      }
    } else {
      y := PushReads(v, name, z);
    }
  }

  // ---- The language ----

  /** `d` spells the tokens of `s`. */
  ghost predicate Spells(d: Doc, s: string)
  {
    Grammatical(d) && Spelled(d, T.Done) == T.Lex(s)
  }

  /** What the parser makes of a document is what the document means. */
  lemma ParsesDoc(s: string, d: Doc)
    requires Spells(d, s)
    ensures Parse(s) == W.Some(Meaning(d))
  {
    PushDoc(d, T.Done, Top(Nil), W.None);
    StartsValue(d, T.Done);
  }

  /** The parser accepts exactly the texts whose tokens spell a document of the grammar. */
  lemma AcceptedLanguage(s: string)
    ensures Parse(s).Some? <==> exists d :: Spells(d, s)
  {
    if Parse(s).Some? {
      LexSound(s);
      var z := TopDocs(NoDocs);
      var y := RunReads(T.Lex(s), z, false, false);
      OneDoc(y.docs);
      assert Spells(y.docs.value.value, s);
    }
    if d :| Spells(d, s) {
      ParsesDoc(s, d);
    }
  }

  /** At the top nothing is dropped, so a single value comes from a single document. */
  lemma OneDoc(f: Docs)
    requires AllGrammatical(f, false) && MeaningAll(f).Cons? && MeaningAll(f).rest.Nil?
    ensures f.Item? && f.name.None? && f.value.Some? && f.rest.NoDocs?
    ensures Grammatical(f.value.value) && Loose(f, T.Done) == Spelled(f.value.value, T.Done)
  {
  }

  // ---- What is printed is parsed back ----

  /** A value as it is printed: every member has its value. */
  function Exact(v: Value): Doc
    decreases v
  {
    match v
    case Container(isObject, items) => Group(isObject, ExactAll(items))
    case Scalar(kind, text) => Atom(kind, text)
  }

  function ExactAll(f: Forest): Docs
    decreases f
  {
    if f.Nil? then NoDocs else Item(f.name, W.Some(Exact(f.value)), ExactAll(f.rest))
  }

  lemma {:induction false} ExactSpells(v: Value, rest: T.Stream)
    requires WellFormed(v)
    ensures Grammatical(Exact(v)) && Meaning(Exact(v)) == v && Spelled(Exact(v), rest) == Tokens(v, rest)
    decreases v
  {
    if v.Container? {
      ExactAllSpells(v.items, v.isObject, T.More(CloseKind(v.isObject), [], rest));
    }
  }

  lemma {:induction false} ExactAllSpells(f: Forest, named: bool, rest: T.Stream)
    requires AllWellFormed(f, named)
    ensures AllGrammatical(ExactAll(f), named) && MeaningAll(ExactAll(f)) == f
    ensures SpelledAll(ExactAll(f), rest) == ItemTokens(f, rest)
    decreases f
  {
    if f.Cons? {
      ExactSpells(f.value, RestTokens(f.rest, rest));
      ExactAllSpells(f.rest, named, rest);
    }
  }

  /** Parsing what was printed gives the value back. */
  lemma RoundTrip(v: Value)
    requires WellFormed(v)
    ensures Parse(Print(v)) == W.Some(v)
  {
    var s := Print(v);
    LexValue(v, []);
    assert s + [] == s;
    ExactSpells(v, T.Done);
    ParsesDoc(s, Exact(v));
  }

  /** Any accepted text yields a value that prints; the print is accepted and stands for the
      same value. */
  lemma ParsePrintParse(s: string)
    requires Parse(s).Some?
    ensures WellFormed(Parse(s).value) && Parse(Print(Parse(s).value)) == Parse(s)
  {
    LexSound(s);
    RunWellFormed(T.Lex(s), Top(Nil), false, false);
    RoundTrip(Parse(s).value);
  }

  /** Any text of bytes 1 to 127, quoted, is a document, and the string it parses to unquotes to
      that text. */
  lemma TextRoundTrip(t: string)
    requires forall k :: 0 <= k < |t| ==> S.NUL < t[k] < 128 as char
    ensures Parse(T.Quoted(S.Quote(t))) == W.Some(Scalar(Quoted, S.Quote(t)))
    ensures S.Unquote(S.Quote(t)) == W.Some(t)
  {
    S.QuoteIsScannable(t);
    RoundTrip(Scalar(Quoted, S.Quote(t)));
    S.UnquoteQuote(t);
  }

  // ---- What the grammar of RFC 8259 does not have ----

  lemma LexHead(c: char, rest: string, r: T.Stream)
    requires T.Punctuation(c).Some? && T.Lex(rest) == r
    ensures T.Lex([c] + rest) == T.More(T.Punctuation(c).value, [], r)
  {
    T.LexPunctuation(c, rest);
  }

  lemma LexName(name: string, rest: string, r: T.Stream)
    requires S.Scannable(name) && T.Lex(rest) == r
    ensures T.Lex(Label(W.Some(name)) + rest) == LabelTokens(W.Some(name), r)
  {
    LexLabel(W.Some(name), rest);
  }

  lemma LexClose()
    ensures T.Lex("}") == T.More(T.EndObject, [], T.Done)
  {
    assert "}" == ['}'] + [];
    LexHead('}', [], T.Done);
  }

  /** A member whose value is missing, and what follows it. */
  lemma LexMissing(name: string, rest: string, r: T.Stream)
    requires S.Scannable(name) && T.Lex(rest) == r
    ensures T.Lex(['{'] + (Label(W.Some(name)) + rest)) == T.More(T.StartObject, [], LabelTokens(W.Some(name), r))
  {
    LexName(name, rest, r);
    LexHead('{', Label(W.Some(name)) + rest, LabelTokens(W.Some(name), r));
  }

  /** An object whose first member has no value. */
  lemma WithoutFirst(name: string, f: Docs)
    requires AllGrammatical(f, true)
    ensures var d := Group(true, Item(W.Some(name), W.None, f));
            && Grammatical(d) && Meaning(d) == Container(true, MeaningAll(f))
            && Spelled(d, T.Done) == T.More(T.StartObject, [], LabelTokens(W.Some(name),
                                       SpelledRest(f, T.More(T.EndObject, [], T.Done))))
  {
    var g := Item(W.Some(name), W.None, f);
    assert AllGrammatical(g, true) && MeaningAll(g) == MeaningAll(f);
    var rest := T.More(T.EndObject, [], T.Done);
    assert SpelledAll(g, rest) == LabelTokens(W.Some(name), SpelledRest(f, rest));
  }

  /** A member without a value is dropped, */
  lemma DropsLast(name: string)
    requires S.Scannable(name)
    ensures Parse(['{'] + (Label(W.Some(name)) + "}")) == W.Some(Container(true, Nil))
  {
    var s, d := ['{'] + (Label(W.Some(name)) + "}"), Group(true, Item(W.Some(name), W.None, NoDocs));
    LexClose();
    LexMissing(name, "}", T.More(T.EndObject, [], T.Done));
    WithoutFirst(name, NoDocs);
    assert Spells(d, s);
    ParsesDoc(s, d);
  }

  lemma LexMember(name: string, v: Value)
    requires S.Scannable(name) && WellFormed(v)
    ensures T.Lex(Label(W.Some(name)) + (Print(v) + "}"))
            == LabelTokens(W.Some(name), Tokens(v, T.More(T.EndObject, [], T.Done)))
  {
    LexClose();
    LexValue(v, "}");
    LexName(name, Print(v) + "}", Tokens(v, T.More(T.EndObject, [], T.Done)));
  }

  lemma ExactItem(name: string, v: Value, rest: T.Stream)
    requires WellFormed(v)
    ensures var f := Item(W.Some(name), W.Some(Exact(v)), NoDocs);
            && AllGrammatical(f, true) && SpelledAll(f, rest) == LabelTokens(W.Some(name), Tokens(v, rest))
            && MeaningAll(f) == Cons(W.Some(name), v, Nil)
  {
    ExactSpells(v, rest);
  }

  /** also before another one. */
  lemma DropsFirst(name: string, other: string, v: Value)
    requires S.Scannable(name) && S.Scannable(other) && WellFormed(v)
    ensures Parse(['{'] + (Label(W.Some(name)) + ([','] + (Label(W.Some(other)) + (Print(v) + "}")))))
            == W.Some(Container(true, Cons(W.Some(other), v, Nil)))
  {
    var u := Label(W.Some(other)) + (Print(v) + "}");
    var r := LabelTokens(W.Some(other), Tokens(v, T.More(T.EndObject, [], T.Done)));
    LexMember(other, v);
    LexHead(',', u, r);
    LexMissing(name, [','] + u, T.More(T.MemberSeparator, [], r));
    var f := Item(W.Some(other), W.Some(Exact(v)), NoDocs);
    ExactItem(other, v, T.More(T.EndObject, [], T.Done));
    WithoutFirst(name, f);
    var s, d := ['{'] + (Label(W.Some(name)) + ([','] + u)), Group(true, Item(W.Some(name), W.None, f));
    assert Spells(d, s);
    ParsesDoc(s, d);
  }

  lemma ValueMissing()
    ensures Parse("{\"a\":}") == W.Some(Container(true, Nil))
  {
    assert "{\"a\":}" == ['{'] + (Label(W.Some("a")) + "}");
    assert S.Scannable("a");
    DropsLast("a");
  }

  lemma ValueMissingBefore()
    ensures Parse("{\"a\":,\"b\":1}") == W.Some(Container(true, Cons(W.Some("b"), Scalar(Integer, "1"), Nil)))
  {
    var one := Scalar(Integer, "1");
    assert "{\"a\":,\"b\":1}"
        == ['{'] + (Label(W.Some("a")) + ([','] + (Label(W.Some("b")) + (Print(one) + "}"))));
    assert S.Scannable("a") && S.Scannable("b");
    N.OneIsNumber();
    DropsFirst("a", "b", one);
  }

  /** A fraction behind an exponent. */
  lemma FractionalExponent()
    ensures Parse("1e2.5") == W.Some(Scalar(Float, "1e2.5"))
  {
    N.FractionalExponentIsNumber();
    assert "1e2.5"[1] == 'e';
    RoundTrip(Scalar(Float, "1e2.5"));
  }
}
