/** JSON values and what the printer of src/json.c writes for them. */
module JsonTree {
  import opened Bytes
  import S = JsonString
  import W = Wrappers
  import N = JsonNumber
  import T = JsonToken

  type Name = W.Option<string>

  /** The node types the parser produces; Unknown is a node still waiting for its token. */
  datatype Type = Array | Object | Quoted | Integer | Float | False | True | Null | Unknown

  type Plain = t: Type | t != Array && t != Object && t != Unknown witness Null

  /** The text is the quoted string without its quotes, or the number as it was written. */
  datatype Value = Container(isObject: bool, items: Forest) | Scalar(kind: Plain, text: string)

  /** The children of a container, with their names. */
  datatype Forest = Nil | Cons(name: Name, value: Value, rest: Forest)

  function Append(f: Forest, g: Forest): Forest
  {
    if f.Nil? then g else Cons(f.name, f.value, Append(f.rest, g))
  }

  function Snoc(f: Forest, name: Name, v: Value): Forest { Append(f, Cons(name, v, Nil)) }

  lemma {:induction false} AppendSnoc(f: Forest, name: Name, v: Value, g: Forest)
    ensures Append(Snoc(f, name, v), g) == Append(f, Cons(name, v, g))
    decreases f
  {
    if f.Cons? {
      AppendSnoc(f.rest, name, v, g);
    }
  }

  function Length(f: Forest): nat { if f.Nil? then 0 else 1 + Length(f.rest) }

  /** The nodes of a value. */
  function Size(v: Value): (n: nat)
    ensures n > 0
    decreases v
  {
    if v.Container? then 1 + SizeAll(v.items) else 1
  }

  function SizeAll(f: Forest): nat
    decreases f
  {
    if f.Nil? then 0 else Size(f.value) + SizeAll(f.rest)
  }

  /** A member has a name exactly inside an object; texts are what the tokenizer takes. */
  ghost predicate WellFormed(v: Value)
    decreases v
  {
    match v
    case Container(isObject, items) => AllWellFormed(items, isObject)
    case Scalar(kind, text) =>
      match kind
      case Quoted => S.Scannable(text)
      case Integer => N.Number(text) && !T.HasMark(text)
      case Float => N.Number(text) && T.HasMark(text)
      case False => text == []
      case True => text == []
      case Null => text == []
      case _ => false
  }

  ghost predicate AllWellFormed(f: Forest, named: bool)
    decreases f
  {
    f.Cons? ==> Named(f.name, named) && WellFormed(f.value) && AllWellFormed(f.rest, named)
  }

  predicate Named(name: Name, named: bool)
  {
    if named then name.Some? && S.Scannable(name.value) else name.None?
  }

  // ---- The printer ----

  function Label(name: Name): string
  {
    if name.None? then [] else T.Quoted(name.value) + ":"
  }

  function PrintScalar(kind: Type, text: string): string
  {
    match kind
    case Quoted => T.Quoted(text)
    case False => "false"
    case True => "true"
    case Null => "null"
    case _ => text
  }

  function Open(isObject: bool): string { if isObject then "{" else "[" }

  function Close(isObject: bool): string { if isObject then "}" else "]" }

  function Print(v: Value): string
    decreases v
  {
    match v
    case Container(isObject, items) => Open(isObject) + PrintItems(items) + Close(isObject)
    case Scalar(kind, text) => PrintScalar(kind, text)
  }

  function PrintItems(f: Forest): string
    decreases f, 0
  {
    if f.Nil? then [] else Label(f.name) + Print(f.value) + Rest(f.rest)
  }

  /** What follows an item. */
  function Rest(f: Forest): string
    decreases f, 1
  {
    if f.Nil? then [] else "," + PrintItems(f)
  }

  // ---- What is printed is tokenized back ----

  function ScalarToken(kind: Plain): T.Kind
  {
    match kind
    case Quoted => T.QuotedString
    case Integer => T.IntegerNumber
    case Float => T.FloatNumber
    case False => T.FalseWord
    case True => T.TrueWord
    case Null => T.NullWord
    case _ => T.Error
  }

  function OpenKind(isObject: bool): T.Kind { if isObject then T.StartObject else T.StartArray }

  function CloseKind(isObject: bool): T.Kind { if isObject then T.EndObject else T.EndArray }

  function LabelTokens(name: Name, rest: T.Stream): T.Stream
  {
    if name.None? then rest
    else T.More(T.QuotedString, name.value, T.More(T.KeySeparator, [], rest))
  }

  /** The tokens of a value, then `rest`. */
  function Tokens(v: Value, rest: T.Stream): T.Stream
    decreases v
  {
    match v
    case Container(isObject, items) =>
      T.More(OpenKind(isObject), [], ItemTokens(items, T.More(CloseKind(isObject), [], rest)))
    case Scalar(kind, text) => T.More(ScalarToken(kind), text, rest)
  }

  function ItemTokens(f: Forest, rest: T.Stream): T.Stream
    decreases f, 0
  {
    if f.Nil? then rest
    else LabelTokens(f.name, Tokens(f.value, RestTokens(f.rest, rest)))
  }

  function RestTokens(f: Forest, rest: T.Stream): T.Stream
    decreases f, 1
  {
    if f.Nil? then rest else T.More(T.MemberSeparator, [], ItemTokens(f, rest))
  }

  lemma LexScalar(kind: Plain, text: string, rest: string)
    requires WellFormed(Scalar(kind, text)) && T.NoNumber(rest)
    ensures T.Lex(PrintScalar(kind, text) + rest) == T.More(ScalarToken(kind), text, T.Lex(rest))
  {
    match kind
    case Quoted => T.LexQuoted(text, rest);
    case Integer => T.LexNumber(text, rest);
    case Float => T.LexNumber(text, rest);
    case False => T.LexWord("false", rest);
    case True => T.LexWord("true", rest);
    case Null => T.LexWord("null", rest);
  }

  lemma LexLabel(name: Name, rest: string)
    requires Named(name, name.Some?)
    ensures T.Lex(Label(name) + rest) == LabelTokens(name, T.Lex(rest))
  {
    if name.Some? {
      Assoc(T.Quoted(name.value), ":", rest);
      T.LexQuoted(name.value, ":" + rest);
      T.LexPunctuation(':', rest);
    } else {
      assert Label(name) + rest == rest;
    }
  }

  /** The print of a value is tokenized to its tokens, whatever follows, as long as that does
      not prolong a number. */
  lemma {:induction false} LexValue(v: Value, rest: string)
    requires WellFormed(v) && T.NoNumber(rest)
    ensures T.Lex(Print(v) + rest) == Tokens(v, T.Lex(rest))
    decreases v, 0
  {
    if v.Scalar? {
      LexScalar(v.kind, v.text, rest);
    } else {
      var open, items, close := Open(v.isObject), PrintItems(v.items), Close(v.isObject);
      T.LexPunctuation(close[0], rest);
      LexItems(v.items, v.isObject, close + rest);
      T.LexPunctuation(open[0], items + (close + rest));
      Assoc(open, items, close + rest);
      Assoc(open + items, close, rest);
    }
  }

  lemma {:induction false} LexItems(f: Forest, named: bool, rest: string)
    requires AllWellFormed(f, named) && T.NoNumber(rest)
    ensures T.Lex(PrintItems(f) + rest) == ItemTokens(f, T.Lex(rest))
    decreases f, 1
  {
    if f.Nil? {
      assert PrintItems(f) + rest == rest;
    } else {
      var tag, value, more := Label(f.name), Print(f.value), Rest(f.rest) + rest;
      LexRest(f.rest, named, rest);
      assert T.NoNumber(more) by { RestEnds(f.rest, rest); }
      LexValue(f.value, more);
      LexLabel(f.name, value + more);
      Assoc(tag, value, more);
      Assoc(tag + value, Rest(f.rest), rest);
    }
  }

  lemma RestEnds(f: Forest, rest: string)
    requires T.NoNumber(rest)
    ensures T.NoNumber(Rest(f) + rest)
  {
    if f.Nil? {
      assert Rest(f) + rest == rest;
    }
  }

  lemma LexComma(items: string, rest: string)
    ensures T.Lex("," + items + rest) == T.More(T.MemberSeparator, [], T.Lex(items + rest))
  {
    T.LexPunctuation(',', items + rest);
    Assoc([','], items, rest);
  }

  lemma {:induction false} LexRest(f: Forest, named: bool, rest: string)
    requires AllWellFormed(f, named) && T.NoNumber(rest)
    ensures T.Lex(Rest(f) + rest) == RestTokens(f, T.Lex(rest))
    decreases f, 2
  {
    if f.Nil? {
      assert Rest(f) + rest == rest;
    } else {
      LexItems(f, named, rest);
      LexComma(PrintItems(f), rest);
    }
  }
}
