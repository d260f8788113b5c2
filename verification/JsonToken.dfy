/** The tokenizer of src/json.c. */
module JsonToken {
  import opened JsonNumber
  import B = Bytes
  import S = JsonString
  import W = Wrappers

  datatype Kind =
    | StartObject | EndObject | StartArray | EndArray
    | QuotedString | MemberSeparator | KeySeparator
    | IntegerNumber | FloatNumber | FalseWord | TrueWord | NullWord
    | Eof | Error

  /** The first and the last character of a token; for a string these are its quotes. */
  datatype Token = Token(kind: Kind, start: nat, end: nat)

  predicate IsBlank(c: char) { c == S.HT || c == ' ' || c == S.CR || c == S.LF }

  /** `p` stands in `s` at `i`. */
  predicate At(s: string, i: nat, p: string)
  {
    i + |p| <= |s| && s[i..i + |p|] == p
  }

  predicate HasMark(t: string) { exists k :: 0 <= k < |t| && IsMark(t[k]) }

  /** What a quoted text at `i` is: up to its closing quote, or nothing. */
  function StringToken(s: string, i: nat): Token
  {
    var e := S.Scan(s, i + 1);
    if e < 0 then Token(Error, i, i) else Token(QuotedString, i, e)
  }

  function WordToken(s: string, i: nat, word: string, kind: Kind): Token
    requires |word| > 0
  {
    if At(s, i, word) then Token(kind, i, i + |word| - 1) else Token(Error, i, i)
  }

  ghost function NumberToken(s: string, i: nat): Token
    requires i < |s|
  {
    var t := NumberText(s, i);
    if Number(t) then Token(if HasMark(t) then FloatNumber else IntegerNumber, i, i + |t| - 1)
    else Token(Error, i, i)
  }

  function Punctuation(c: char): W.Option<Kind>
  {
    match c
    case '{' => W.Some(StartObject)
    case '}' => W.Some(EndObject)
    case '[' => W.Some(StartArray)
    case ']' => W.Some(EndArray)
    case ',' => W.Some(MemberSeparator)
    case ':' => W.Some(KeySeparator)
    case _ => W.None
  }

  /** The next token at or behind `i`. */
  ghost function TokenAt(s: string, i: nat): (t: Token)
    requires i <= |s|
    ensures t.kind == Eof || i <= t.start <= t.end < |s|
    decreases |s| - i
  {
    if i == |s| then Token(Eof, i, i)
    else if IsBlank(s[i]) then TokenAt(s, i + 1)
    else if Punctuation(s[i]).Some? then Token(Punctuation(s[i]).value, i, i)
    else if s[i] == '"' then StringToken(s, i)
    else if s[i] == 't' then WordToken(s, i, "true", TrueWord)
    else if s[i] == 'f' then WordToken(s, i, "false", FalseWord)
    else if s[i] == 'n' then WordToken(s, i, "null", NullWord)
    else if s[i] == '-' || IsDigit(s[i]) then NumberToken(s, i)
    else Token(Error, i, i)
  }

  /** privateParseString: the first character is the one that led here. */
  method ParseWord(s: string, start: nat, word: string, kind: Kind) returns (t: Token)
    requires start < |s| && |word| > 0 && s[start] == word[0]
    ensures t == WordToken(s, start, word, kind)
  {
    if |s| - start < |word| {
      return Token(Error, start, start);
    }
    ghost var there := s[start..start + |word|];
    for i := 1 to |word|
      invariant forall k :: 0 <= k < i ==> there[k] == word[k]
    {
      assert there[i] == s[start + i];
      if s[start + i] != word[i] {
        return Token(Error, start, start);
      }
    }
    t := Token(kind, start, start + |word| - 1);
  }

  method ParseNumberToken(s: string, start: nat) returns (t: Token)
    requires start < |s| && (s[start] == '-' || IsDigit(s[start]))
    ensures t == NumberToken(s, start)
  {
    ghost var text := NumberText(s, start);
    var ok, float, end := ParseNumber(s, start);
    if ok {
      assert forall k :: 0 <= k < |text| ==> text[k] == s[start + k];
      assert float <==> HasMark(text) by {
        if float {
          ghost var k :| start <= k < end && IsMark(s[k]);
          assert IsMark(text[k - start]);
        }
      }
      t := Token(if float then FloatNumber else IntegerNumber, start, end - 1);
    } else {
      t := Token(Error, start, start);
    }
  }

  /** privateParseNext. */
  method ParseNext(s: string, from: nat) returns (t: Token)
    requires from <= |s|
    ensures t == TokenAt(s, from)
  {
    var i := from;
    while i < |s| && IsBlank(s[i])
      invariant from <= i <= |s|
      invariant TokenAt(s, from) == TokenAt(s, i)
    {
      i := i + 1;
    }
    if i == |s| {
      t := Token(Eof, i, i);
    } else if Punctuation(s[i]).Some? {
      t := Token(Punctuation(s[i]).value, i, i);
    } else if s[i] == '"' {
      var e := S.ScanQuoted(s, i);
      t := if e < 0 then Token(Error, i, i) else Token(QuotedString, i, e);
    } else if s[i] == 't' {
      t := ParseWord(s, i, "true", TrueWord);
    } else if s[i] == 'f' {
      t := ParseWord(s, i, "false", FalseWord);
    } else if s[i] == 'n' {
      t := ParseWord(s, i, "null", NullWord);
    } else if s[i] == '-' || IsDigit(s[i]) {
      t := ParseNumberToken(s, i);
    } else {
      t := Token(Error, i, i);
    }
  }

  // ---- A text as a stream of tokens ----

  /** The string value the source sets: only strings and numbers have one. */
  function TokenText(s: string, t: Token): string
    requires t.start <= t.end < |s|
  {
    if t.kind == QuotedString then if t.start < t.end then s[t.start + 1..t.end] else []
    else if t.kind == IntegerNumber || t.kind == FloatNumber then s[t.start..t.end + 1]
    else []
  }

  /** The tokens of a text up to its end or up to what is no token. */
  datatype Stream = Done | Broken | More(kind: Kind, text: string, rest: Stream)

  ghost function Lex(s: string): Stream
    decreases |s|, 0
  {
    var t := TokenAt(s, 0);
    if t.kind == Eof then Done else From(t.kind, TokenText(s, t), s[t.end + 1..])
  }

  /** A token, then what follows it. */
  ghost function From(kind: Kind, text: string, tail: string): Stream
    decreases |tail|, 1
  {
    if kind == Error then Broken else More(kind, text, Lex(tail))
  }

  // ---- A token does not depend on what was read before it ----

  lemma TailAt(s: string, n: nat, i: nat, p: string)
    requires n <= |s|
    ensures At(s[n..], i, p) <==> At(s, n + i, p)
  {
    if n + i + |p| <= |s| {
      assert s[n..][i..i + |p|] == s[n + i..n + i + |p|];
    }
  }

  lemma {:induction false} TailScan(s: string, n: nat, i: nat)
    requires n + i <= |s|
    ensures S.Scan(s, n + i) == if S.Scan(s[n..], i) < 0 then -1 else n + S.Scan(s[n..], i)
    decreases |s| - i
  {
    var u := s[n..];
    assert forall k :: 0 <= k < |u| ==> u[k] == s[n + k];
    if n + i + 1 < |s| {
      TailScan(s, n, i + 1);
      TailScan(s, n, i + 2);
    }
    if n + i + 5 < |s| {
      TailScan(s, n, i + 6);
    }
  }

  lemma TailNumber(s: string, n: nat, i: nat)
    requires n + i < |s|
    ensures NumberText(s[n..], i) == NumberText(s, n + i)
  {
    var u, e := s[n..], RunEnd(s[n..], i + 1);
    assert forall k :: 0 <= k < |u| ==> u[k] == s[n + k];
    RunEndThrough(s, n + i + 1, n + e);
  }

  function Shift(n: nat, t: Token): Token { Token(t.kind, n + t.start, n + t.end) }

  lemma TailWord(s: string, n: nat, i: nat, word: string, kind: Kind)
    requires n <= |s| && |word| > 0
    ensures WordToken(s, n + i, word, kind) == Shift(n, WordToken(s[n..], i, word, kind))
  {
    TailAt(s, n, i, word);
  }

  /** The token that starts with the character at `i`. */
  lemma TailStarted(s: string, n: nat, i: nat, u: string)
    requires n + i < |s| && u == s[n..] && !IsBlank(s[n + i])
    ensures TokenAt(s, n + i) == Shift(n, TokenAt(u, i))
  {
    var c := s[n + i];
    assert c == u[i];
    if c == '"' {
      TailScan(s, n, i + 1);
    } else if c == 't' {
      TailWord(s, n, i, "true", TrueWord);
    } else if c == 'f' {
      TailWord(s, n, i, "false", FalseWord);
    } else if c == 'n' {
      TailWord(s, n, i, "null", NullWord);
    } else if c == '-' || IsDigit(c) {
      TailNumber(s, n, i);
    }
  }

  lemma {:induction false} TailToken(s: string, n: nat, i: nat)
    requires n + i <= |s|
    ensures TokenAt(s, n + i) == Shift(n, TokenAt(s[n..], i))
    decreases |s| - i
  {
    var u := s[n..];
    if n + i < |s| {
      assert u[i] == s[n + i];
      if IsBlank(u[i]) {
        TailToken(s, n, i + 1);
      } else {
        TailStarted(s, n, i, u);
      }
    }
  }

  lemma TailText(s: string, n: nat, t: Token)
    requires n <= |s| && t.start <= t.end < |s| - n
    ensures TokenText(s, Shift(n, t)) == TokenText(s[n..], t)
    ensures s[n + t.end + 1..] == s[n..][t.end + 1..]
  {
    var u := s[n..];
    assert u[t.start..t.end + 1] == s[n + t.start..n + t.end + 1];
    assert t.start < t.end ==> u[t.start + 1..t.end] == s[n + t.start + 1..n + t.end];
  }

  lemma LexHead(u: string, t: Token, text: string, tail: string)
    requires t == TokenAt(u, 0) && (t.kind != Eof ==> text == TokenText(u, t) && tail == u[t.end + 1..])
    ensures Lex(u) == if t.kind == Eof then Done else From(t.kind, text, tail)
  {
  }

  /** Reading on in the middle of a text. */
  lemma LexAt(s: string, i: nat)
    requires i <= |s|
    ensures var t := TokenAt(s, i);
            Lex(s[i..]) == if t.kind == Eof then Done else From(t.kind, TokenText(s, t), s[t.end + 1..])
  {
    var t, w := TokenAt(s[i..], 0), TokenAt(s, i);
    TailToken(s, i, 0);
    if t.kind == Eof {
      LexHead(s[i..], t, [], []);
    } else {
      TailText(s, i, t);
      LexHead(s[i..], t, TokenText(s, w), s[w.end + 1..]);
    }
  }

  /** The tokens with the head `t`, or what there is instead, and `rest` behind it. */
  function Headed(s: string, t: Token, rest: Stream): Stream
    requires t.kind == Eof || t.kind == Error || t.start <= t.end < |s|
  {
    if t.kind == Eof then Done else if t.kind == Error then Broken else More(t.kind, TokenText(s, t), rest)
  }

  ghost function LexFrom(s: string, i: nat): Stream { if i <= |s| then Lex(s[i..]) else Done }

  lemma LexHeaded(s: string, i: nat)
    requires i <= |s|
    ensures var t := TokenAt(s, i); LexFrom(s, i) == Headed(s, t, LexFrom(s, t.end + 1))
  {
    LexAt(s, i);
  }

  // ---- Printed tokens are read back ----

  /** A quoted text between its quotes. */
  function Quoted(q: string): string { "\"" + q + "\"" }

  /** No number goes on in a text. */
  predicate NoNumber(s: string) { s == [] || !IsNumberChar(s[0]) }

  lemma LexPunctuation(c: char, rest: string)
    requires Punctuation(c).Some?
    ensures Lex([c] + rest) == More(Punctuation(c).value, [], Lex(rest))
    ensures NoNumber([c] + rest)
  {
    assert ([c] + rest)[1..] == rest;
  }

  lemma LexQuoted(q: string, rest: string)
    requires S.Scannable(q)
    ensures Lex(Quoted(q) + rest) == More(QuotedString, q, Lex(rest))
  {
    var s, e := Quoted(q) + rest, 1 + |q|;
    S.ScanText("\"", q, rest);
    B.Assoc("\"" + q, "\"", rest);
    assert s[1..e] == q && s[e + 1..] == rest;
  }

  function WordKind(word: string): Kind
    requires word in {"true", "false", "null"}
  {
    if word == "true" then TrueWord else if word == "false" then FalseWord else NullWord
  }

  lemma LexWord(word: string, rest: string)
    requires word in {"true", "false", "null"}
    ensures Lex(word + rest) == More(WordKind(word), [], Lex(rest))
  {
    var s := word + rest;
    assert s[0..|word|] == word && s[|word|..] == rest;
  }

  lemma PowerChars(t: string, k: nat)
    requires Power(t, k)
    ensures forall j :: 0 <= j < |t| ==> IsNumberChar(t[j])
  {
    forall j | 0 <= j < |t| ensures IsNumberChar(t[j]) {
      if j < k {
        assert t[j] == t[..k][j];
      } else {
        assert t[j] == t[k..][j - k];
        assert j > k ==> t[j] == t[k..][1..][j - k - 1];
      }
    }
  }

  lemma ExponentChars(t: string)
    requires Exponent(t)
    ensures forall j :: 0 <= j < |t| ==> IsNumberChar(t[j])
  {
    if t != [] {
      var u := t[1..];
      if k: nat :| Power(u, k) {
        PowerChars(u, k);
      } else {
        var k: nat :| Power(u[1..], k);
        PowerChars(u[1..], k);
        assert forall j :: 1 <= j < |u| ==> u[j] == u[1..][j - 1];
      }
      assert forall j :: 1 <= j < |t| ==> t[j] == u[j - 1];
    }
  }

  /** A number starts as the tokenizer expects and holds nothing but number characters. */
  lemma NumberChars(t: string)
    requires Number(t)
    ensures |t| > 0 && (IsDigit(t[0]) || t[0] == '-') && forall k :: 0 <= k < |t| ==> IsNumberChar(t[k])
  {
    var a: nat, b: nat :| Cut(t, a, b);
    var whole, fraction, power := t[..a], t[a..b], t[b..];
    assert whole[0] == t[0];
    ExponentChars(power);
    forall k | 0 <= k < |t| ensures IsNumberChar(t[k]) {
      if k < a {
        assert t[k] == whole[k];
        assert t[0] == '-' ==> k > 0 ==> whole[k] == whole[1..][k - 1];
      } else if k < b {
        assert t[k] == fraction[k - a];
        assert k > a ==> fraction[k - a] == fraction[1..][k - a - 1];
      } else {
        assert t[k] == power[k - b];
      }
    }
  }

  lemma LexNumber(t: string, rest: string)
    requires Number(t) && NoNumber(rest)
    ensures Lex(t + rest) == More(if HasMark(t) then FloatNumber else IntegerNumber, t, Lex(rest))
  {
    NumberChars(t);
    var s := t + rest;
    assert s[..|t|] == t && s[|t|..] == rest;
    RunEndThrough(s, 1, |t|);
    assert NumberText(s, 0) == t;
  }
}
