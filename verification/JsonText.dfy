/** JSON texts as they are written, character by character: the tokens of src/json.c with any blanks
    before, between and behind them, and nothing else. */
module JsonText {
  import opened JsonTree
  import opened JsonParse
  import opened JsonLanguage
  import S = JsonString
  import N = JsonNumber
  import T = JsonToken
  import W = Wrappers

  // ---- Blanks ----

  /** Tab, line feed, carriage return and space. */
  predicate IsSpace(c: char) { c == 9 as char || c == 10 as char || c == 13 as char || c == 32 as char }

  predicate Blanks(b: string) { forall k :: 0 <= k < |b| ==> IsSpace(b[k]) }

  lemma LexBehind(s: string)
    requires s != [] && IsSpace(s[0])
    ensures T.LexFrom(s, 0) == T.LexFrom(s, 1)
  {
    assert T.TokenAt(s, 0) == T.TokenAt(s, 1);
    T.LexHeaded(s, 0);
    T.LexHeaded(s, 1);
  }

  /** A blank in front of a text changes nothing. */
  lemma BlankSkipped(c: char, rest: string)
    requires IsSpace(c)
    ensures T.Lex([c] + rest) == T.Lex(rest)
  {
    var s := [c] + rest;
    LexBehind(s);
    assert s[1..] == rest && s[0..] == s;
  }

  lemma {:induction false} BlanksSkipped(b: string, rest: string)
    requires Blanks(b)
    ensures T.Lex(b + rest) == T.Lex(rest)
    decreases |b|
  {
    if b == [] {
      assert b + rest == rest;
    } else {
      assert b + rest == [b[0]] + (b[1..] + rest);
      BlankSkipped(b[0], b[1..] + rest);
      BlanksSkipped(b[1..], rest);
    }
  }

  /** A brace, a bracket, a comma, a colon, a quote, a minus, a digit or the head of a word. */
  predicate StartsToken(c: char)
  {
    || c == '{' || c == '}' || c == '[' || c == ']' || c == ',' || c == ':' || c == 34 as char
    || c == '-' || 48 as char <= c <= 57 as char || c == 't' || c == 'f' || c == 'n'
  }

  /** Any other character breaks the text. */
  lemma NoToken(c: char, rest: string)
    requires !IsSpace(c) && !StartsToken(c)
    ensures T.Lex([c] + rest) == T.Broken
  {
    assert ([c] + rest)[0] == c;
  }

  // ---- Texts ----

  function Spelling(kind: T.Kind, text: string): string
  {
    match kind
    case StartObject => "{"
    case EndObject => "}"
    case StartArray => "["
    case EndArray => "]"
    case MemberSeparator => ","
    case KeySeparator => ":"
    case QuotedString => "\"" + text + "\""
    case TrueWord => "true"
    case FalseWord => "false"
    case NullWord => "null"
    case IntegerNumber => text
    case FloatNumber => text
    case _ => []
  }

  /** A token with the blanks before it. */
  datatype Piece = Piece(blank: string, kind: T.Kind, text: string)

  predicate IsNumber(kind: T.Kind) { kind == T.IntegerNumber || kind == T.FloatNumber }

  /** Only strings and numbers have a text of their own; a number is a float iff it holds a point or
      an e. */
  ghost predicate Proper(kind: T.Kind, text: string)
  {
    match kind
    case QuotedString => S.StringText(text)
    case IntegerNumber => N.Number(text) && !T.HasMark(text)
    case FloatNumber => N.Number(text) && T.HasMark(text)
    case Eof => false
    case Error => false
    case _ => text == []
  }

  function TextOf(ps: seq<Piece>, last: string): string
    decreases |ps|
  {
    if ps == [] then last else ps[0].blank + (Spelling(ps[0].kind, ps[0].text) + TextOf(ps[1..], last))
  }

  function TokensOf(ps: seq<Piece>): T.Stream
    decreases |ps|
  {
    if ps == [] then T.Done else T.More(ps[0].kind, ps[0].text, TokensOf(ps[1..]))
  }

  /** Nothing but blanks between the tokens, and behind a number something that does not prolong it. */
  ghost predicate Spaced(ps: seq<Piece>, last: string)
    decreases |ps|
  {
    if ps == [] then Blanks(last)
    else
      && Blanks(ps[0].blank) && Proper(ps[0].kind, ps[0].text) && Spaced(ps[1..], last)
      && (IsNumber(ps[0].kind) ==> T.NoNumber(TextOf(ps[1..], last)))
  }

  lemma LexOne(kind: T.Kind, text: string, rest: string)
    requires Proper(kind, text) && (IsNumber(kind) ==> T.NoNumber(rest))
    ensures T.Lex(Spelling(kind, text) + rest) == T.More(kind, text, T.Lex(rest))
  {
    match kind
    case QuotedString =>
      S.ScannableExactly(text);
      T.LexQuoted(text, rest);
    case IntegerNumber => T.LexNumber(text, rest);
    case FloatNumber => T.LexNumber(text, rest);
    case TrueWord => T.LexWord("true", rest);
    case FalseWord => T.LexWord("false", rest);
    case NullWord => T.LexWord("null", rest);
    case StartObject => T.LexPunctuation('{', rest);
    case EndObject => T.LexPunctuation('}', rest);
    case StartArray => T.LexPunctuation('[', rest);
    case EndArray => T.LexPunctuation(']', rest);
    case MemberSeparator => T.LexPunctuation(',', rest);
    case KeySeparator => T.LexPunctuation(':', rest);
  }

  lemma LexBlank(last: string)
    requires Blanks(last)
    ensures T.Lex(last) == T.Done
  {
    BlanksSkipped(last, []);
    assert last + [] == last;
  }

  /** A text of that form is read as just these tokens. */
  lemma {:induction false} LexText(ps: seq<Piece>, last: string)
    requires Spaced(ps, last)
    ensures T.Lex(TextOf(ps, last)) == TokensOf(ps)
    decreases |ps|
  {
    if ps == [] {
      LexBlank(last);
    } else {
      var rest := TextOf(ps[1..], last);
      LexText(ps[1..], last);
      LexOne(ps[0].kind, ps[0].text, rest);
      BlanksSkipped(ps[0].blank, Spelling(ps[0].kind, ps[0].text) + rest);
    }
  }

  /** No token of a stream is broken. */
  predicate Whole(r: T.Stream) { if r.More? then Whole(r.rest) else r.Done? }

  /** What stands where a token is found. */
  ghost predicate Found(s: string, i: nat, t: T.Token)
    requires i <= |s|
  {
    if t.kind == T.Eof then Blanks(s[i..])
    else if t.kind == T.Error then true
    else
      && i <= t.start <= t.end < |s| && Blanks(s[i..t.start])
      && s[t.start..t.end + 1] == Spelling(t.kind, T.TokenText(s, t))
      && (IsNumber(t.kind) ==> T.NoNumber(s[t.end + 1..]))
  }

  lemma Between(s: string, i: nat, e: nat)
    requires i < e < |s|
    ensures s[i..e + 1] == [s[i]] + s[i + 1..e] + [s[e]]
  {
  }

  lemma FoundString(s: string, i: nat)
    requires i < |s| && s[i] == '"'
    ensures Found(s, i, T.StringToken(s, i))
  {
    var e := S.Scan(s, i + 1);
    if e >= 0 {
      ScanEnd(s, i + 1);
      Between(s, i, e);
      assert ['"'] == "\"";
    }
  }

  lemma FoundNumber(s: string, i: nat)
    requires i < |s| && (s[i] == '-' || N.IsDigit(s[i]))
    ensures Found(s, i, T.NumberToken(s, i))
  {
    var e := N.RunEnd(s, i + 1);
    assert N.NumberText(s, i) == s[i..e];
    assert e < |s| ==> s[e..][0] == s[e];
  }

  lemma FoundWord(s: string, i: nat, word: string, kind: T.Kind)
    requires i < |s| && word != [] && Spelling(kind, []) == word && kind in {T.TrueWord, T.FalseWord, T.NullWord}
    ensures Found(s, i, T.WordToken(s, i, word, kind))
  {
  }

  lemma FoundOne(s: string, i: nat)
    requires i < |s| && T.Punctuation(s[i]).Some?
    ensures Found(s, i, T.Token(T.Punctuation(s[i]).value, i, i))
  {
    assert s[i..i + 1] == [s[i]];
  }

  lemma FoundBehind(s: string, i: nat, t: T.Token)
    requires i < |s| && IsSpace(s[i]) && Found(s, i + 1, t)
    ensures Found(s, i, t)
  {
    assert s[i..] == [s[i]] + s[i + 1..];
    if t.kind != T.Eof && t.kind != T.Error { assert s[i..t.start] == [s[i]] + s[i + 1..t.start]; }
  }

  lemma {:induction false} FoundAt(s: string, i: nat)
    requires i <= |s|
    ensures Found(s, i, T.TokenAt(s, i))
    decreases |s| - i
  {
    if i < |s| {
      if T.IsBlank(s[i]) {
        FoundAt(s, i + 1);
        FoundBehind(s, i, T.TokenAt(s, i));
      } else if T.Punctuation(s[i]).Some? {
        FoundOne(s, i);
      } else if s[i] == 't' {
        FoundWord(s, i, "true", T.TrueWord);
      } else if s[i] == 'f' {
        FoundWord(s, i, "false", T.FalseWord);
      } else if s[i] == 'n' {
        FoundWord(s, i, "null", T.NullWord);
      } else if s[i] == '"' {
        FoundString(s, i);
      } else if s[i] == '-' || N.IsDigit(s[i]) {
        FoundNumber(s, i);
      }
    }
  }

  lemma ProperToken(s: string)
    ensures T.Lex(s).More? ==> Proper(T.Lex(s).kind, T.Lex(s).text)
  {
    LexSound(s);
    if T.Lex(s).More? && T.Lex(s).kind == T.QuotedString { S.ScannableExactly(T.Lex(s).text); }
  }

  lemma ThreeParts(s: string, i: nat, j: nat)
    requires i <= j <= |s|
    ensures s == s[..i] + (s[i..j] + s[j..])
  {
  }

  lemma FirstToken(s: string) returns (t: T.Token)
    requires T.Lex(s).More?
    ensures t == T.TokenAt(s, 0) && t.kind != T.Eof && t.kind != T.Error && t.start <= t.end < |s|
    ensures T.Lex(s) == T.More(t.kind, T.TokenText(s, t), T.Lex(s[t.end + 1..]))
  {
    t := T.TokenAt(s, 0);
    T.LexHeaded(s, 0);
    assert s[0..] == s;
  }

  /** The first token of a text, and the blanks before it. */
  lemma FirstPiece(s: string) returns (c: Piece, tail: string)
    requires T.Lex(s).More?
    ensures s == c.blank + (Spelling(c.kind, c.text) + tail) && Blanks(c.blank)
    ensures (IsNumber(c.kind) ==> T.NoNumber(tail)) && T.Lex(s) == T.More(c.kind, c.text, T.Lex(tail))
    ensures |tail| < |s|
  {
    var t := FirstToken(s);
    FoundAt(s, 0);
    tail := s[t.end + 1..];
    c := Piece(s[0..t.start], t.kind, T.TokenText(s, t));
    ThreeParts(s, t.start, t.end + 1);
    assert s[0..t.start] == s[..t.start];
  }

  lemma DoneIsEof(s: string)
    requires T.Lex(s).Done?
    ensures T.TokenAt(s, 0).kind == T.Eof
  {
    T.LexHeaded(s, 0);
    assert s[0..] == s;
  }

  /** And a text that is read as whole tokens has that form. */
  lemma {:induction false} OnlyTexts(s: string) returns (ps: seq<Piece>, last: string)
    requires Whole(T.Lex(s))
    ensures Spaced(ps, last) && s == TextOf(ps, last) && T.Lex(s) == TokensOf(ps)
    decreases |s|
  {
    if T.Lex(s).Done? {
      FoundAt(s, 0);
      DoneIsEof(s);
      assert s[0..] == s;
      ps, last := [], s;
    } else {
      var c, tail := FirstPiece(s);
      ProperToken(s);
      var more;
      more, last := OnlyTexts(tail);
      ps := [c] + more;
      OneMorePiece(c, more, last);
    }
  }

  lemma OneMorePiece(c: Piece, more: seq<Piece>, last: string)
    requires Spaced(more, last) && Blanks(c.blank) && Proper(c.kind, c.text)
    requires IsNumber(c.kind) ==> T.NoNumber(TextOf(more, last))
    ensures var ps := [c] + more;
            && Spaced(ps, last) && TextOf(ps, last) == c.blank + (Spelling(c.kind, c.text) + TextOf(more, last))
            && TokensOf(ps) == T.More(c.kind, c.text, TokensOf(more))
  {
    assert ([c] + more)[1..] == more;
  }

  // ---- The language ----

  lemma {:induction false} SpelledIsWhole(d: Doc, rest: T.Stream)
    requires Whole(rest)
    ensures Whole(Spelled(d, rest))
    decreases d
  {
    if d.Group? { AllSpelledIsWhole(d.items, T.More(CloseKind(d.isObject), [], rest)); }
  }

  lemma {:induction false} AllSpelledIsWhole(f: Docs, rest: T.Stream)
    requires Whole(rest)
    ensures Whole(SpelledAll(f, rest))
    decreases f
  {
    if f.Item? {
      AllSpelledIsWhole(f.rest, rest);
      if f.value.Some? { SpelledIsWhole(f.value.value, SpelledRest(f.rest, rest)); }
    }
  }

  /** A text that writes the tokens of a document down. */
  ghost predicate Writes(s: string, d: Doc, ps: seq<Piece>, last: string)
  {
    Grammatical(d) && Spaced(ps, last) && s == TextOf(ps, last) && TokensOf(ps) == Spelled(d, T.Done)
  }

  /** The tokens of a document, with any blanks before, between and behind them, parse to what the
      document means. */
  lemma ParsesText(d: Doc, ps: seq<Piece>, last: string)
    requires Grammatical(d) && Spaced(ps, last) && TokensOf(ps) == Spelled(d, T.Done)
    ensures Parse(TextOf(ps, last)) == W.Some(Meaning(d))
  {
    LexText(ps, last);
    ParsesDoc(TextOf(ps, last), d);
  }

  /** The parser accepts exactly these texts. */
  lemma AcceptedTexts(s: string)
    ensures Parse(s).Some? <==> exists d, ps, last :: Writes(s, d, ps, last)
  {
    AcceptedLanguage(s);
    if d :| Spells(d, s) {
      SpelledIsWhole(d, T.Done);
      var ps, last := OnlyTexts(s);
      assert Writes(s, d, ps, last);
    }
    if d, ps, last :| Writes(s, d, ps, last) {
      ParsesText(d, ps, last);
    }
  }

  /** The words, */
  lemma Words()
    ensures Parse("true") == W.Some(Scalar(True, []))
    ensures Parse("false") == W.Some(Scalar(False, []))
    ensures Parse("null") == W.Some(Scalar(Null, []))
  {
    RoundTrip(Scalar(True, []));
    RoundTrip(Scalar(False, []));
    RoundTrip(Scalar(Null, []));
  }

  lemma BlankBefore(c: char, s: string)
    requires IsSpace(c)
    ensures Parse([c] + s) == Parse(s)
  {
    BlankSkipped(c, s);
  }

  lemma PrintedItem(v: Value, f: Forest)
    ensures PrintItems(Cons(W.None, v, f)) == Print(v) + if f.Nil? then [] else "," + PrintItems(f)
  {
    assert Label(W.None) == [] && [] + Print(v) == Print(v);
  }

  function One(): Value { Scalar(Integer, "1") }

  lemma PrintedOne()
    ensures PrintItems(Cons(W.None, One(), Nil)) == "1"
    ensures Print(Container(false, Cons(W.None, One(), Nil))) == "[1]"
  {
    PrintedItem(One(), Nil);
    assert "[" + "1" + "]" == "[1]";
  }

  lemma IntegerIsWellFormed(text: string)
    requires N.Number(text) && !T.HasMark(text)
    ensures WellFormed(Scalar(Integer, text))
  {
  }

  lemma InArray(v: Value)
    requires WellFormed(v)
    ensures WellFormed(Container(false, Cons(W.None, v, Nil)))
  {
    assert Named(W.None, false) && AllWellFormed(Nil, false);
    assert AllWellFormed(Cons(W.None, v, Nil), false);
  }

  lemma OneHasNoMark()
    ensures !T.HasMark("1")
  {
  }

  lemma ParsesPrint(s: string, v: Value)
    requires WellFormed(v) && s == Print(v)
    ensures Parse(s) == W.Some(v)
  {
    RoundTrip(v);
  }

  lemma ParsedOne()
    ensures Parse("[1]") == W.Some(Container(false, Cons(W.None, One(), Nil)))
  {
    PrintedOne();
    N.OneIsNumber();
    OneHasNoMark();
    IntegerIsWellFormed("1");
    InArray(One());
    ParsesPrint("[1]", Container(false, Cons(W.None, One(), Nil)));
  }

  /** and an array that starts on a new line. */
  lemma OnNewLine()
    ensures Parse("\n[1]") == W.Some(Container(false, Cons(W.None, Scalar(Integer, "1"), Nil)))
  {
    ParsedOne();
    BlankBefore(10 as char, "[1]");
    assert "\n[1]" == [10 as char] + "[1]";
  }

  function Words3(): Forest
  {
    Cons(W.None, Scalar(True, []), Cons(W.None, Scalar(False, []), Cons(W.None, Scalar(Null, []), Nil)))
  }

  lemma PrintedWords()
    ensures PrintItems(Words3()) == "true,false,null"
  {
    var last := Cons(W.None, Scalar(Null, []), Nil);
    PrintedItem(Scalar(Null, []), Nil);
    PrintedItem(Scalar(False, []), last);
    PrintedItem(Scalar(True, []), Cons(W.None, Scalar(False, []), last));
    assert "true" + ("," + ("false" + ("," + "null"))) == "true,false,null";
  }

  lemma PrintedMember(name: string, v: Value)
    ensures Print(Container(true, Cons(W.Some(name), v, Nil))) == "{" + (T.Quoted(name) + ":" + Print(v)) + "}"
  {
    assert PrintItems(Cons(W.Some(name), v, Nil)) == T.Quoted(name) + ":" + Print(v) + [];
  }

  lemma PrintedList(f: Forest)
    ensures Print(Container(false, f)) == "[" + PrintItems(f) + "]"
  {
  }

  /** A print with both brackets, a name and the words. */
  lemma PrintSample()
    ensures Print(Container(true, Cons(W.Some("a"), Container(false, Words3()), Nil))) == "{\"a\":[true,false,null]}"
  {
    PrintedWords();
    PrintedList(Words3());
    PrintedMember("a", Container(false, Words3()));
    assert T.Quoted("a") + ":" + ("[" + "true,false,null" + "]") == "\"a\":[true,false,null]";
  }
}
