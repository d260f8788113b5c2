/** privateParseJson of src/json.c as a function over the tokens of its input: the quirks of its
    loop, and what they do not spoil. */
module JsonParse {
  import opened JsonTree
  import S = JsonString
  import W = Wrappers
  import T = JsonToken
  import N = JsonNumber

  /** The containers that are still open, innermost first, with the children they have so far. */
  datatype Zip =
    | Top(done: Forest)
    | In(outer: Zip, name: Name, isObject: bool, done: Forest)

  predicate InObject(z: Zip) { z.In? && z.isObject }

  function Hang(z: Zip, name: Name, v: Value): Zip { z.(done := Snoc(z.done, name, v)) }

  function ScalarType(kind: T.Kind): W.Option<Plain>
  {
    match kind
    case QuotedString => W.Some(Quoted)
    case IntegerNumber => W.Some(Integer)
    case FloatNumber => W.Some(Float)
    case FalseWord => W.Some(False)
    case TrueWord => W.Some(True)
    case NullWord => W.Some(Null)
    case _ => W.None
  }

  predicate IsStart(kind: T.Kind) { kind == T.StartObject || kind == T.StartArray }

  predicate IsEnd(kind: T.Kind) { kind == T.EndObject || kind == T.EndArray }

  /** pushOn: a token becomes the node that waits, or closes the container the node waits in. */
  function PushOn(kind: T.Kind, text: string, name: Name, z: Zip): W.Option<Zip>
  {
    if name.Some? && !InObject(z) then W.None
    else if name.None? && InObject(z) && kind != T.EndObject then W.None
    else if IsStart(kind) then W.Some(In(z, name, kind == T.StartObject, Nil))
    else if IsEnd(kind) then
      if z.Top? || z.isObject != (kind == T.EndObject) then W.None
      else W.Some(Hang(z.outer, z.name, Container(z.isObject, z.done)))
    else if ScalarType(kind).Some? then W.Some(Hang(z, name, Scalar(ScalarType(kind).value, text)))
    else W.None
  }

  /** The loop of privateParseJson: the containers left open at the end of the input, nothing
      on an error. */
  function Run(r: T.Stream, z: Zip, needAComma: bool, afterComma: bool): W.Option<Zip>
    decreases r, 1
  {
    match r
    case Done => W.Some(z)
    case Broken => W.None
    case More(kind, text, rest) =>
      if kind == T.MemberSeparator then
        if needAComma then Run(rest, z, false, true) else W.None
      else if IsEnd(kind) then
        if afterComma then W.None else Push(r, W.None, z)
      else if needAComma then W.None
      else if !InObject(z) then Push(r, W.None, z)
      else if kind == T.QuotedString && rest.More? && rest.kind == T.KeySeparator && rest.rest.More? then
        // The token behind the colon may be a comma or a closing brace.
        if rest.rest.kind == T.MemberSeparator then Run(rest.rest.rest, z, false, true)
        else Push(rest.rest, W.Some(text), z)
      else W.None
  }

  /** The first token is pushed and the loop goes on behind it. */
  function Push(r: T.Stream, name: Name, z: Zip): W.Option<Zip>
    requires r.More?
    decreases r, 0
  {
    var y := PushOn(r.kind, r.text, name, z);
    if y.None? then W.None else Run(r.rest, y.value, !IsStart(r.kind) && y.value.In?, false)
  }

  /** One value at the top and nothing left open. */
  predicate Complete(z: Zip)
  {
    z.Top? && z.done.Cons? && z.done.rest.Nil?
  }

  ghost function Parse(s: string): W.Option<Value>
  {
    var z := Run(T.Lex(s), Top(Nil), false, false);
    if z.Some? && Complete(z.value) then W.Some(z.value.done.value) else W.None
  }

  // ---- What is parsed is well formed ----

  ghost predicate WellFormedZip(z: Zip)
    decreases z
  {
    match z
    case Top(done) => AllWellFormed(done, false)
    case In(outer, name, isObject, done) =>
      Named(name, InObject(outer)) && AllWellFormed(done, isObject) && WellFormedZip(outer)
  }

  ghost predicate SoundText(kind: T.Kind, text: string)
  {
    && (ScalarType(kind).Some? ==> WellFormed(Scalar(ScalarType(kind).value, text)))
    && (kind == T.QuotedString ==> S.Scannable(text))
    && (ScalarType(kind).None? ==> text == [])
  }

  ghost predicate Sound(r: T.Stream)
    decreases r
  {
    r.More? ==> SoundText(r.kind, r.text) && Sound(r.rest)
  }

  lemma {:induction false} SnocWellFormed(f: Forest, name: Name, v: Value, named: bool)
    requires AllWellFormed(f, named) && Named(name, named) && WellFormed(v)
    ensures AllWellFormed(Snoc(f, name, v), named)
    decreases f
  {
    if f.Cons? {
      SnocWellFormed(f.rest, name, v, named);
    }
  }

  lemma PushWellFormed(kind: T.Kind, text: string, name: Name, z: Zip)
    requires WellFormedZip(z) && SoundText(kind, text) && (name.Some? ==> S.Scannable(name.value))
    ensures PushOn(kind, text, name, z).Some? ==> WellFormedZip(PushOn(kind, text, name, z).value)
  {
    if PushOn(kind, text, name, z).Some? {
      if IsEnd(kind) {
        SnocWellFormed(z.outer.done, z.name, Container(z.isObject, z.done), InObject(z.outer));
      } else if ScalarType(kind).Some? {
        SnocWellFormed(z.done, name, Scalar(ScalarType(kind).value, text), InObject(z));
      }
    }
  }

  lemma {:induction false} RunWellFormed(r: T.Stream, z: Zip, needAComma: bool, afterComma: bool)
    requires Sound(r) && WellFormedZip(z)
    ensures var y := Run(r, z, needAComma, afterComma); y.Some? ==> WellFormedZip(y.value)
    decreases r, 1
  {
    if r.More? {
      assert Sound(r.rest) && (r.rest.More? ==> Sound(r.rest.rest));
      if r.kind == T.MemberSeparator {
        RunWellFormed(r.rest, z, false, true);
      } else if IsEnd(r.kind) || !InObject(z) {
        PushStepWellFormed(r, W.None, z);
      } else if r.kind == T.QuotedString && r.rest.More? && r.rest.rest.More? {
        if r.rest.rest.kind == T.MemberSeparator {
          RunWellFormed(r.rest.rest.rest, z, false, true);
        } else {
          PushStepWellFormed(r.rest.rest, W.Some(r.text), z);
        }
      }
    }
  }

  lemma {:induction false} PushStepWellFormed(r: T.Stream, name: Name, z: Zip)
    requires r.More? && Sound(r) && WellFormedZip(z) && (name.Some? ==> S.Scannable(name.value))
    ensures Push(r, name, z).Some? ==> WellFormedZip(Push(r, name, z).value)
    decreases r, 0
  {
    PushWellFormed(r.kind, r.text, name, z);
    var y := PushOn(r.kind, r.text, name, z);
    if y.Some? {
      RunWellFormed(r.rest, y.value, !IsStart(r.kind) && y.value.In?, false);
    }
  }

  lemma {:induction false} ScanEnd(s: string, k: nat)
    requires S.Scan(s, k) >= 0
    ensures k <= S.Scan(s, k) < |s| && s[S.Scan(s, k)] == '"'
    decreases |s| - k
  {
    if s[k] == '\\' {
      ScanEnd(s, if s[k + 1] in S.ESCAPES then k + 2 else k + 6);
    } else if s[k] != '"' {
      ScanEnd(s, k + 1);
    }
  }

  lemma QuotedSound(s: string, i: nat)
    requires S.Scan(s, i) >= 0
    ensures S.Scannable(s[i..S.Scan(s, i)])
  {
    var e := S.Scan(s, i);
    ScanEnd(s, i);
    S.ScanHeld(s, i, e, s[i..e + 1], 0 - i);
    assert s[i..e] + "\"" == s[i..e + 1];
  }

  ghost predicate SoundToken(s: string, t: T.Token)
    requires t.kind == T.Eof || t.start <= t.end < |s|
  {
    t.kind != T.Eof && t.kind != T.Error ==> SoundText(t.kind, T.TokenText(s, t))
  }

  lemma StringSound(s: string, i: nat)
    requires i < |s|
    ensures SoundToken(s, T.StringToken(s, i))
  {
    if S.Scan(s, i + 1) >= 0 {
      QuotedSound(s, i + 1);
    }
  }

  lemma NumberSound(s: string, i: nat)
    requires i < |s|
    ensures SoundToken(s, T.NumberToken(s, i))
  {
    var t, text := T.NumberToken(s, i), N.NumberText(s, i);
    if t.kind != T.Error {
      assert T.TokenText(s, t) == text;
    }
  }

  lemma {:induction false} TokenSound(s: string, i: nat)
    requires i <= |s|
    ensures SoundToken(s, T.TokenAt(s, i))
    decreases |s| - i
  {
    if i < |s| {
      if T.IsBlank(s[i]) {
        TokenSound(s, i + 1);
      } else if T.Punctuation(s[i]).Some? {
      } else if s[i] == '"' {
        StringSound(s, i);
      } else if s[i] == '-' || N.IsDigit(s[i]) {
        NumberSound(s, i);
      }
    }
  }

  lemma {:induction false} LexSound(s: string)
    ensures Sound(T.Lex(s))
    decreases |s|
  {
    var t := T.TokenAt(s, 0);
    TokenSound(s, 0);
    if t.kind != T.Eof && t.kind != T.Error {
      LexSound(s[t.end + 1..]);
    }
  }
}
