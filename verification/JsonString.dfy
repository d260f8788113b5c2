/** Quoted JSON strings in src/json.c: quoting, scanning and unquoting. A string is the bytes
    of a C string without its terminating NUL, one char per byte. */
module JsonString {
  import opened Bytes
  import opened Wrappers

  const NUL: char := '\0'
  const BS: char := 8 as char
  const HT: char := 9 as char
  const LF: char := 10 as char
  const CR: char := 13 as char
  /** The source's form feed is 14, not 12. */
  const FF: char := 14 as char

  // ---- Quoting ----

  const HEXDIGIT := "0123456789abcdef0123456789abcdef"
  const HEXDIGIT1 := "00000000000000001111111111111111"

  function QuoteChar(c: char): (q: string)
    ensures 1 <= |q| <= 6
  {
    if c < ' ' then
      if c == BS then ['\\', 'b'] else if c == HT then ['\\', 't'] else if c == LF then ['\\', 'n']
      else if c == CR then ['\\', 'r'] else if c == FF then ['\\', 'f']
      else ['\\', 'u', '0', '0', HEXDIGIT1[c as int], HEXDIGIT[c as int]]
    else if c == '\\' || c == '"' then ['\\', c]
    else [c]
  }

  /** The images of the elements of `s`, one after the other. */
  function FlatMap<S, T>(f: S -> seq<T>, s: seq<S>): seq<T>
  {
    if s == [] then [] else f(s[0]) + FlatMap(f, s[1..])
  }

  lemma {:induction false} FlatMapConcat<S, T>(f: S -> seq<T>, a: seq<S>, b: seq<S>)
    ensures FlatMap(f, a + b) == FlatMap(f, a) + FlatMap(f, b)
    decreases |a|
  {
    if a == [] {
      assert a + b == b;
    } else {
      FlatMapConcat(f, a[1..], b);
      assert (a + b)[1..] == a[1..] + b;
    }
  }

  lemma FlatMapSnoc<S, T>(f: S -> seq<T>, s: seq<S>, i: nat)
    requires i < |s|
    ensures FlatMap(f, s[..i + 1]) == FlatMap(f, s[..i]) + f(s[i])
  {
    assert s[..i + 1] == s[..i] + [s[i]] && [s[i]][1..] == [];
    FlatMapConcat(f, s[..i], [s[i]]);
    assert FlatMap(f, [s[i]]) == f(s[i]) + FlatMap(f, []);
  }

  function Quote(s: string): string { FlatMap(QuoteChar, s) }

  /** privateQuoteString over a builder: appends the quoted form of the first `len` bytes. */
  method QuoteString(input: string, len: nat, out: string) returns (r: string)
    requires forall k :: 0 <= k < |input| ==> NUL < input[k] < 128 as char
    ensures r == out + Quote(if len < |input| then input[..len] else input)
  {
    r := out;
    var i := 0;
    while i < len && i < |input|
      invariant i <= |input| && i <= len
      invariant r == out + Quote(input[..i])
    {
      FlatMapSnoc(QuoteChar, input, i);
      var q := QuoteChar(input[i]);
      Assoc(out, Quote(input[..i]), q);
      r := r + q;
      i := i + 1;
    }
    assert i == |input| ==> input[..i] == input;
  }

  lemma {:induction false} QuoteLength(s: string)
    ensures |s| <= |Quote(s)| <= 6 * |s|
    decreases |s|
  {
    if s != [] {
      QuoteLength(s[1..]);
    }
  }

  // ---- Scanning ----

  predicate IsHex(c: char) { '0' <= c <= '9' || 'a' <= c <= 'f' || 'A' <= c <= 'F' }

  const ESCAPES := ['b', 't', 'r', 'n', 'f', '"', '/', '\\']

  /** Where the quoted string whose text starts at `i` closes, -1 if it does not. */
  function Scan(s: string, i: nat): (r: int)
    ensures r == -1 || i <= r < |s|
    decreases if i <= |s| then |s| - i else 0
  {
    if i >= |s| || s[i] == NUL then -1
    else if s[i] == '\\' then
      if i + 2 >= |s| then -1
      else if s[i + 1] in ESCAPES then Scan(s, i + 2)
      else if s[i + 1] == 'u' && i + 5 < |s| && IsHex(s[i + 2]) && IsHex(s[i + 3]) && IsHex(s[i + 4]) && IsHex(s[i + 5])
      then Scan(s, i + 6)
      else -1
    else if s[i] < ' ' then -1
    else if s[i] == '"' then i
    else Scan(s, i + 1)
  }

  /** privateParseQuotedString, at an opening quote. */
  method ScanQuoted(input: string, start: nat) returns (r: int)
    requires start < |input| && input[start] == '"'
    ensures r == Scan(input, start + 1)
  {
    var current := start + 1;
    while current < |input| && input[current] != NUL
      invariant start < current <= |input|
      invariant Scan(input, start + 1) == Scan(input, current)
      decreases |input| - current
    {
      if input[current] == '\\' {
        if current + 2 >= |input| { return -1; }
        if input[current + 1] in ESCAPES {
          current := current + 2;
          continue;
        }
        if input[current + 1] != 'u' { return -1; }
        ghost var escape := current;
        current := current + 1;
        var i := 0;
        while i < 4
          invariant 0 <= i <= 4 && current == escape + 1 + i < |input|
          invariant i > 0 ==> IsHex(input[escape + 2])
          invariant i > 1 ==> IsHex(input[escape + 3])
          invariant i > 2 ==> IsHex(input[escape + 4])
          invariant i > 3 ==> IsHex(input[escape + 5])
        {
          current := current + 1;
          if current >= |input| || !IsHex(input[current]) { return -1; }
          i := i + 1;
        }
        current := current + 1;
        continue;
      }
      if input[current] < ' ' { return -1; }
      if input[current] == '"' { return current; }
      current := current + 1;
    }
    return -1;
  }

  /** A text that a quoted string can carry: between quotes it is one token. */
  predicate Scannable(q: string)
  {
    Scan(q + "\"", 0) == |q|
  }

  /** `t` holds what stands in `s` from `i` to `e`, `d` places further on. */
  ghost predicate Holds(s: string, i: nat, e: nat, t: string, d: int)
  {
    i <= e < |s| && 0 <= i + d && e + d < |t| && forall k :: i <= k <= e ==> t[k + d] == s[k]
  }

  /** Scanning depends on nothing before its start, nor behind the closing quote it finds. */
  lemma {:induction false} ScanHeld(s: string, i: nat, e: nat, t: string, d: int)
    requires Scan(s, i) == e && Holds(s, i, e, t, d)
    ensures Scan(t, i + d) == e + d
    decreases e - i
  {
    assert t[i + d] == s[i];
    if s[i] == '\\' {
      assert t[i + 1 + d] == s[i + 1];
      if s[i + 1] in ESCAPES {
        ScanHeld(s, i + 2, e, t, d);
      } else {
        assert t[i + 2 + d] == s[i + 2] && t[i + 3 + d] == s[i + 3];
        assert t[i + 4 + d] == s[i + 4] && t[i + 5 + d] == s[i + 5];
        ScanHeld(s, i + 6, e, t, d);
      }
    } else if s[i] != '"' {
      ScanHeld(s, i + 1, e, t, d);
    }
  }

  lemma QuoteJoins(pre: string, q: string, rest: string)
    ensures pre + q + ("\"" + rest) == pre + (q + "\"") + rest
  {
    Assoc(pre, q, "\"");
    Assoc(pre + q, "\"", rest);
  }

  lemma ScanIn(t: string, pre: string, q: string, rest: string)
    requires Scannable(q) && t == pre + (q + "\"") + rest
    ensures Scan(t, |pre|) == |pre| + |q|
  {
    var u := q + "\"";
    assert forall k :: 0 <= k <= |q| ==> t[k + |pre|] == u[k];
    ScanHeld(u, 0, |q|, t, |pre|);
  }

  /** A scannable text between quotes is found wherever it stands. */
  lemma ScanText(pre: string, q: string, rest: string)
    requires Scannable(q)
    ensures Scan(pre + q + ("\"" + rest), |pre|) == |pre| + |q|
  {
    var t := pre + q + ("\"" + rest);
    QuoteJoins(pre, q, rest);
    ScanIn(t, pre, q, rest);
  }

  /** The shapes a quoted byte can have. */
  lemma QuoteShape(c: char)
    requires NUL < c
    ensures var q := QuoteChar(c);
            || (q == [c] && c >= ' ' && c != '\\' && c != '"')
            || (|q| == 2 && q[0] == '\\' && q[1] in ESCAPES)
            || (|q| == 6 && q[0] == '\\' && q[1] == 'u' && IsHex(q[2]) && IsHex(q[3]) && IsHex(q[4]) && IsHex(q[5]))
  {
  }

  lemma ScanQuoteChar(pre: string, q: string, rest: string)
    requires rest != []
    requires || (|q| == 1 && q[0] >= ' ' && q[0] != '\\' && q[0] != '"')
             || (|q| == 2 && q[0] == '\\' && q[1] in ESCAPES)
             || (|q| == 6 && q[0] == '\\' && q[1] == 'u' && IsHex(q[2]) && IsHex(q[3]) && IsHex(q[4]) && IsHex(q[5]))
    ensures Scan(pre + q + rest, |pre|) == Scan(pre + q + rest, |pre| + |q|)
  {
    var s := pre + q + rest;
    var n := |pre|;
    assert s[n] == q[0];
    if |q| > 1 {
      assert s[n + 1] == q[1];
    }
    if |q| == 6 {
      assert s[n + 2] == q[2] && s[n + 3] == q[3] && s[n + 4] == q[4] && s[n + 5] == q[5];
    }
  }

  /** A quoted string of any bytes but NUL is one token, ending at the last quote. */
  lemma {:induction false} QuoteScans(pre: string, t: string, rest: string)
    requires forall k :: 0 <= k < |t| ==> NUL < t[k]
    ensures Scan(pre + Quote(t) + ("\"" + rest), |pre|) == |pre| + |Quote(t)|
    decreases |t|
  {
    var tail := "\"" + rest;
    if t == [] {
      assert pre + Quote(t) + tail == pre + tail && (pre + tail)[|pre|] == '"';
    } else {
      var q, qs := QuoteChar(t[0]), Quote(t[1..]);
      QuoteShape(t[0]);
      ScanQuoteChar(pre, q, qs + tail);
      QuoteScans(pre + q, t[1..], rest);
      Assoc(pre + q, qs, tail);
      Assoc(pre, q, qs);
    }
  }

  lemma QuoteIsScannable(t: string)
    requires forall k :: 0 <= k < |t| ==> NUL < t[k]
    ensures Scannable(Quote(t))
  {
    QuoteScans([], t, []);
    assert [] + Quote(t) + ("\"" + []) == Quote(t) + "\"";
  }

  // ---- Unquoting ----

  function HexValue(c: char): (d: int)
    ensures -1 <= d < 16
    ensures d >= 0 <==> IsHex(c)
  {
    if '0' <= c <= '9' then c as int - '0' as int
    else if 'a' <= c <= 'f' then c as int - 'a' as int + 10
    else if 'A' <= c <= 'F' then c as int - 'A' as int + 10
    else -1
  }

  /** The code point of four hex digits, -1 if one of them is none. */
  function CodePoint(a: char, b: char, c: char, d: char): (n: int)
    ensures -1 <= n < 0x10000
  {
    if IsHex(a) && IsHex(b) && IsHex(c) && IsHex(d)
    then 0x1000 * HexValue(a) + 0x100 * HexValue(b) + 0x10 * HexValue(c) + HexValue(d)
    else -1
  }

  /** CS_utf8FromInt for what four digits can name. */
  function Utf8(n: nat): (u: string)
    requires n < 0x10000
    ensures 1 <= |u| <= 3
  {
    if n <= 0x7F then [n as char]
    else if n <= 0x7FF then [(0xC0 + n / 0x40) as char, (0x80 + n % 0x40) as char]
    else [(0xE0 + n / 0x1000) as char, (0x80 + n / 0x40 % 0x40) as char, (0x80 + n % 0x40) as char]
  }

  /** The value of a hex digit in either case, in numbers. */
  lemma HexValueIs(c: char)
    ensures HexValue(c)
            == if 48 <= c as int <= 57 then c as int - 48 else if 97 <= c as int <= 102 then c as int - 87
               else if 65 <= c as int <= 70 then c as int - 55 else -1
  {
  }

  /** Four digits are a number to the base 16, the first one most significant. */
  lemma CodePointIs(i: nat, j: nat, k: nat, l: nat, upper: bool)
    requires i < 16 && j < 16 && k < 16 && l < 16
    ensures var d := if upper then "0123456789ABCDEF" else "0123456789abcdef";
            CodePoint(d[i], d[j], d[k], d[l]) == ((i * 16 + j) * 16 + k) * 16 + l
  {
    var d := if upper then "0123456789ABCDEF" else "0123456789abcdef";
    DigitIs(i, upper);
    DigitIs(j, upper);
    DigitIs(k, upper);
    DigitIs(l, upper);
  }

  lemma DigitIs(i: nat, upper: bool)
    requires i < 16
    ensures var d := if upper then "0123456789ABCDEF" else "0123456789abcdef"; IsHex(d[i]) && HexValue(d[i]) == i
  {
  }

  /** A character in the encoding of section 3 of RFC 3629, up to three bytes of it: the range of the
      first byte tells their number, and each of the others has six bits. */
  function ReadUtf8(u: string): int
  {
    if |u| == 1 && u[0] as int < 0x80 then u[0] as int
    else if |u| == 2 && 0xC0 <= u[0] as int < 0xE0 && 0x80 <= u[1] as int < 0xC0 then
      (u[0] as int - 0xC0) * 64 + (u[1] as int - 0x80)
    else if |u| == 3 && 0xE0 <= u[0] as int < 0xF0 && 0x80 <= u[1] as int < 0xC0 && 0x80 <= u[2] as int < 0xC0 then
      (u[0] as int - 0xE0) * 4096 + (u[1] as int - 0x80) * 64 + (u[2] as int - 0x80)
    else -1
  }

  /** What is written reads back, and no fewer bytes would do. */
  lemma Utf8Reads(n: nat)
    requires n < 0x10000
    ensures ReadUtf8(Utf8(n)) == n
    ensures |Utf8(n)| == if n < 0x80 then 1 else if n < 0x800 then 2 else 3
  {
    assert n / 0x1000 * 64 + n / 0x40 % 0x40 == n / 0x40;
  }

  /** The byte a one-letter escape stands for. The scanner lets `\/` pass, but it means nothing here. */
  function Unescape(e: char): Option<char>
  {
    if e == '\\' || e == '"' then Some(e)
    else if e == 'b' then Some(BS)
    else if e == 't' then Some(HT)
    else if e == 'n' then Some(LF)
    else if e == 'r' then Some(CR)
    else if e == 'f' then Some(FF)
    else None
  }

  /** The byte or the escape at the head of a quoted text: what it stands for and how long it
      is; nothing when it makes no sense. */
  function Unit(t: string): (r: (string, nat))
    requires t != []
    ensures |r.0| <= r.1 <= |t|
  {
    if t[0] != '\\' then ([t[0]], 1)
    else if |t| == 1 then ([], 0)
    else if t[1] == 'u' then
      if |t| < 6 || CodePoint(t[2], t[3], t[4], t[5]) < 0 then ([], 0)
      else (Utf8(CodePoint(t[2], t[3], t[4], t[5])), 6)
    else if Unescape(t[1]).None? then ([], 0)
    else ([Unescape(t[1]).value], 2)
  }

  /** What a quoted text stands for; it ends early at a NUL. */
  function Unquote(t: string): Option<string>
    decreases |t|
  {
    if t == [] || t[0] == NUL then Some([])
    else if Unit(t).1 == 0 then None
    else Prepend(Unit(t).0, Unquote(t[Unit(t).1..]))
  }

  /** No escape of the text is `\/`. */
  predicate NoSlash(q: string)
    decreases |q|
  {
    if |q| < 2 then true
    else if q[0] != '\\' then NoSlash(q[1..])
    else q[1] != '/' && NoSlash(q[2..])
  }

  lemma NoSlashHex(t: string)
    requires |t| >= 4 && IsHex(t[0]) && IsHex(t[1]) && IsHex(t[2]) && IsHex(t[3])
    ensures NoSlash(t) == NoSlash(t[4..])
  {
    var u, v := t[1..], t[2..];
    assert u[1..] == v && v[1..] == t[3..] && t[3..][1..] == t[4..];
    assert NoSlash(t) == NoSlash(u) == NoSlash(v) == NoSlash(t[3..]);
  }

  /** Past its head a text unquotes as the whole does, and has its escapes. */
  ghost predicate SameBehind(t: string, n: nat)
    requires n <= |t|
  {
    (Unquote(t).Some? <==> Unquote(t[n..]).Some?) && NoSlash(t) == NoSlash(t[n..])
  }

  lemma PlainHead(t: string)
    requires t != [] && t[0] != '\\' && t[0] != NUL
    ensures SameBehind(t, 1)
  {
    assert Unit(t) == ([t[0]], 1);
  }

  lemma EscapeHead(t: string)
    requires |t| >= 2 && t[0] == '\\' && t[1] in ESCAPES
    ensures if t[1] == '/' then Unquote(t).None? && !NoSlash(t) else SameBehind(t, 2)
  {
    assert Unit(t).1 == if t[1] == '/' then 0 else 2;
  }

  lemma HexHead(t: string)
    requires |t| >= 6 && t[0] == '\\' && t[1] == 'u' && IsHex(t[2]) && IsHex(t[3]) && IsHex(t[4]) && IsHex(t[5])
    ensures SameBehind(t, 6)
  {
    assert Unit(t).1 == 6;
    assert t[2..][4..] == t[6..];
    NoSlashHex(t[2..]);
  }

  lemma {:induction false} UnquotesFrom(q: string, i: nat)
    requires i <= |q| && Scan(q + "\"", i) == |q|
    ensures Unquote(q[i..]).Some? <==> NoSlash(q[i..])
    decreases |q| - i
  {
    if i < |q| {
      var s, t := q + "\"", q[i..];
      assert s[i] == t[0];
      if t[0] != '\\' {
        PlainHead(t);
        assert t[1..] == q[i + 1..];
        UnquotesFrom(q, i + 1);
      } else if s[i + 1] in ESCAPES {
        assert s[i + 1] == t[1] && t[2..] == q[i + 2..];
        EscapeHead(t);
        UnquotesFrom(q, i + 2);
      } else {
        assert t[1..6] == s[i + 1..i + 6];
        assert t[1] == 'u' && IsHex(t[2]) && IsHex(t[3]) && IsHex(t[4]) && IsHex(t[5]);
        HexHead(t);
        assert t[6..] == q[i + 6..];
        UnquotesFrom(q, i + 6);
      }
    }
  }

  /** Exactly which of the texts that scan also unquote: those without the escape `\/`. */
  lemma UnquotesExactly(q: string)
    requires Scannable(q)
    ensures Unquote(q).Some? <==> NoSlash(q)
  {
    UnquotesFrom(q, 0);
    assert q[0..] == q;
  }

  predicate HexText(c: char)
  {
    48 as char <= c <= 57 as char || 65 as char <= c <= 70 as char || 97 as char <= c <= 102 as char
  }

  /** What may stand between the quotes, section 7 of RFC 8259: bytes from 32 on but the quote and the
      backslash, which starts an escape. */
  predicate StringText(q: string)
    decreases |q|
  {
    if q == [] then true
    else if q[0] != 92 as char then q[0] >= 32 as char && q[0] != 34 as char && StringText(q[1..])
    else if |q| == 1 then false
    else if q[1] == 'u' then
      |q| >= 6 && HexText(q[2]) && HexText(q[3]) && HexText(q[4]) && HexText(q[5]) && StringText(q[6..])
    else
      && (q[1] == 34 as char || q[1] == 92 as char || q[1] == '/' || q[1] == 'b' || q[1] == 'f' || q[1] == 'n'
          || q[1] == 'r' || q[1] == 't')
      && StringText(q[2..])
  }

  lemma {:induction false} ScansFrom(q: string, i: nat)
    requires i <= |q|
    ensures Scan(q + "\"", i) == |q| <==> StringText(q[i..])
    decreases |q| - i
  {
    var s, t := q + "\"", q[i..];
    if i < |q| {
      assert s[i] == t[0];
      if t[0] != '\\' {
        assert t[1..] == q[i + 1..];
        ScansFrom(q, i + 1);
      } else if i + 1 < |q| {
        assert s[i + 1] == t[1] && t[2..] == q[i + 2..];
        ScansFrom(q, i + 2);
        if i + 6 <= |q| {
          assert t[1..6] == s[i + 1..i + 6] && t[6..] == q[i + 6..];
          ScansFrom(q, i + 6);
        }
      }
    }
  }

  /** Just these texts scan. */
  lemma ScannableExactly(q: string)
    ensures Scannable(q) <==> StringText(q)
  {
    ScansFrom(q, 0);
    assert q[0..] == q;
  }

  /** `\/` scans, but does not unquote. */
  lemma SlashDoesNotUnquote()
    ensures Scannable("\\/") && Unquote("\\/").None?
  {
    var s := "\\/" + "\"";
    assert s[0] == '\\' && s[1] == '/' && s[2] == '"' && Scan(s, 2) == 2;
    assert Unit("\\/") == ([], 0);
  }

  /** Two and three bytes: the letter e with an acute accent, and the Euro sign in either case. */
  lemma TwoAndThreeBytes()
    ensures Unquote("\\u00e9") == Some([0xC3 as char, 0xA9 as char])
    ensures Unquote("\\u20ac") == Some([0xE2 as char, 0x82 as char, 0xAC as char])
    ensures Unquote("\\u20AC") == Unquote("\\u20ac")
  {
    UnquotesTo("\\u00e9", 0, 0, 14, 9, false);
    UnquotesTo("\\u20ac", 2, 0, 10, 12, false);
    UnquotesTo("\\u20AC", 2, 0, 10, 12, true);
  }

  lemma UnquotesTo(t: string, i: nat, j: nat, k: nat, l: nat, upper: bool)
    requires i < 16 && j < 16 && k < 16 && l < 16
    requires var d := if upper then "0123456789ABCDEF" else "0123456789abcdef";
             t == ['\\', 'u', d[i], d[j], d[k], d[l]]
    ensures Unquote(t) == Some(Utf8(((i * 16 + j) * 16 + k) * 16 + l))
  {
    CodePointIs(i, j, k, l, upper);
    UnquoteOne(t);
  }

  /** A single escape by four digits. */
  lemma UnquoteOne(t: string)
    requires |t| == 6 && t[0] == '\\' && t[1] == 'u' && CodePoint(t[2], t[3], t[4], t[5]) >= 0
    ensures Unquote(t) == Some(Utf8(CodePoint(t[2], t[3], t[4], t[5])))
  {
    var u := Utf8(CodePoint(t[2], t[3], t[4], t[5]));
    assert Unit(t) == (u, 6) && t[6..] == [] && Unquote([]) == Some([]);
    assert Prepend(u, Some([])) == Some(u + []) && u + [] == u;
  }

  /** The escapes of one letter, in numbers, and what is quoted with them. */
  lemma EscapesAre()
    ensures Unescape(34 as char) == Some(34 as char) && Unescape(92 as char) == Some(92 as char)
    ensures Unescape('b') == Some(8 as char) && Unescape('t') == Some(9 as char) && Unescape('n') == Some(10 as char)
    ensures Unescape('r') == Some(13 as char) && Unescape('f') == Some(14 as char)
    ensures QuoteChar(8 as char) == "\\b" && QuoteChar(9 as char) == "\\t" && QuoteChar(10 as char) == "\\n"
    ensures QuoteChar(13 as char) == "\\r" && QuoteChar(14 as char) == "\\f" && QuoteChar(27 as char) == "\\u001b"
    ensures QuoteChar(34 as char) == [92 as char, 34 as char] && QuoteChar(92 as char) == [92 as char, 92 as char]
  {
  }

  lemma PlainIsKept(c: char)
    requires 32 <= c as int && c as int != 34 && c as int != 92
    ensures QuoteChar(c) == [c]
  {
  }

  /** The escape for a form feed unquotes to 14. */
  lemma FormFeedIsFourteen()
    ensures Unquote("\\f") == Some([14 as char])
  {
    assert Unit("\\f") == ([FF], 2);
    assert "\\f"[2..] == [] && Unquote([]) == Some([]);
    assert Prepend([FF], Some([])) == Some([FF] + []) && [FF] + [] == [14 as char];
  }

  function Prepend(a: string, u: Option<string>): Option<string>
  {
    if u.None? then None else Some(a + u.value)
  }

  lemma PrependPrepend(a: string, b: string, u: Option<string>)
    ensures Prepend(a, Prepend(b, u)) == Prepend(a + b, u)
  {
    if u.Some? {
      Assoc(a, b, u.value);
    }
  }

  /** Writing behind the read head leaves what is still to be read alone, in place or not. */
  method PutBehind(output: array<char>, input: array<char>, at: nat, u: string, head: nat, end: nat)
    requires at + |u| <= head <= end <= input.Length && at + |u| <= output.Length
    modifies output
    ensures output[..at + |u|] == old(output[..at]) + u
    ensures input[head..end] == old(input[head..end])
  {
    Put(output, at, u);
    assert output[..at + |u|] == output[..at] + output[at..at + |u|];
  }

  lemma PrependNothing(u: Option<string>)
    ensures Prepend([], u) == u
  {
    if u.Some? {
      assert [] + u.value == u.value;
    }
  }

  /** Writes `u` at `at`, one byte after the other. */
  method Put(output: array<char>, at: nat, u: string)
    requires at + |u| <= output.Length
    modifies output
    ensures output[..at] == old(output[..at]) && output[at..at + |u|] == u
    ensures forall k :: at + |u| <= k < output.Length ==> output[k] == old(output[k])
  {
    var k := 0;
    while k < |u|
      invariant 0 <= k <= |u|
      invariant output[..at] == old(output[..at]) && output[at..at + k] == u[..k]
      invariant forall n :: at + k <= n < output.Length ==> output[n] == old(output[n])
    {
      output[at + k] := u[k];
      k := k + 1;
    }
  }

  /** What is written so far, and what is still to be read, make up `goal`. */
  ghost predicate Unquoting(goal: Option<string>, head: string, rest: string)
  {
    goal == Prepend(head, Unquote(rest))
  }

  lemma UnquoteStep(goal: Option<string>, head: string, rest: string, u: string, size: nat)
    requires Unquoting(goal, head, rest) && rest != [] && rest[0] != NUL && Unit(rest) == (u, size)
    ensures size == 0 ==> goal.None?
    ensures size > 0 ==> size <= |rest| && |u| <= size && Unquoting(goal, head + u, rest[size..])
  {
    if size > 0 {
      PrependPrepend(head, u, Unquote(rest[size..]));
    }
  }

  lemma UnquoteEnd(goal: Option<string>, head: string, rest: string)
    requires Unquoting(goal, head, rest) && (rest == [] || rest[0] == NUL)
    ensures goal == Some(head)
  {
    assert head + [] == head;
  }

  /** One turn of the loop of unquotePrivate; `ok` unless the text makes no sense. */
  method UnquoteTurn(output: array<char>, input: array<char>, len: nat, out: nat, i: nat, ghost goal: Option<string>)
      returns (ok: bool, out': nat, i': nat)
    requires out <= i < len <= input.Length && len < output.Length && input[i] != NUL
    requires Unquoting(goal, output[..out], input[i..len])
    modifies output
    ensures out' <= i' <= len
    ensures !ok ==> goal.None?
    ensures ok ==> i < i' && Unquoting(goal, output[..out'], input[i'..len])
  {
    ghost var head := output[..out];
    var rest := input[i..len];
    var u, size := UnquoteUnit(rest);
    UnquoteStep(goal, head, rest, u, size);
    ok, out', i' := size > 0, out + |u|, i + size;
    if ok {
      assert rest[size..] == input[i'..len];
      PutBehind(output, input, out, u, i', len);
    }
  }

  /** unquotePrivate, writing to another buffer or to the text itself. In place is the same as
      out of place, because the write head never passes the read head. */
  method UnquoteInto(output: array<char>, input: array<char>, len: nat) returns (r: int)
    requires len <= input.Length && len < output.Length
    modifies output
    ensures var u := Unquote(old(input[..len]));
            if u.None? then r == -1
            else r == |u.value| <= len && output[..r] == u.value && output[r] == NUL
  {
    ghost var goal := Unquote(input[..len]);
    var out, i, ok := 0, 0, true;
    assert Unquoting(goal, output[..0], input[0..len]) by {
      assert input[0..len] == input[..len];
      PrependNothing(goal);
    }
    while ok && i < len && input[i] != NUL
      invariant 0 <= out <= i <= len
      invariant if ok then Unquoting(goal, output[..out], input[i..len]) else goal.None?
      decreases ok, len - i
    {
      ok, out, i := UnquoteTurn(output, input, len, out, i, goal);
    }
    if ok {
      UnquoteEnd(goal, output[..out], input[i..len]);
      output[out] := NUL;
      r := out;
    } else {
      r := -1;
    }
  }

  /** The switch of unquotePrivate over the byte, or the escape, at the head of the text: the
      bytes it stands for and how much of the text it takes, 0 when it makes no sense. */
  method UnquoteUnit(t: string) returns (u: string, size: nat)
    requires t != []
    ensures (u, size) == Unit(t)
  {
    if t[0] != '\\' { return [t[0]], 1; }
    if |t| <= 1 { return [], 0; }
    match t[1]
    case '\\' => return ['\\'], 2;
    case '"' => return ['"'], 2;
    case 'b' => return [BS], 2;
    case 't' => return [HT], 2;
    case 'n' => return [LF], 2;
    case 'r' => return [CR], 2;
    case 'f' => return [FF], 2;
    case 'u' =>
      if 2 + 4 > |t| { return [], 0; }
      var n := CodePoint(t[2], t[3], t[4], t[5]);
      if n < 0 { return [], 0; }
      return Utf8(n), 6;
    case _ => return [], 0;
  }

  lemma UnquoteQuoteChar(c: char, rest: string)
    requires NUL < c < 128 as char
    ensures Unit(QuoteChar(c) + rest) == ([c], |QuoteChar(c)|)
  {
    var q := QuoteChar(c);
    var t := q + rest;
    assert t[0] == q[0];
    if |q| > 1 {
      assert t[1] == q[1];
    }
    if |q| == 6 {
      assert t[2] == q[2] && t[3] == q[3] && t[4] == q[4] && t[5] == q[5];
      HexOfControl(c);
    }
  }

  lemma HighDigit(n: nat)
    requires n < 32
    ensures HEXDIGIT1[n] == if n < 16 then '0' else '1'
  {
  }

  lemma LowDigit(n: nat)
    requires n < 32
    ensures IsHex(HEXDIGIT[n]) && HexValue(HEXDIGIT[n]) == n % 16
  {
  }

  lemma HexPair(high: char, low: char, n: nat)
    requires n < 32 && high == (if n < 16 then '0' else '1') && IsHex(low) && HexValue(low) == n % 16
    ensures CodePoint('0', '0', high, low) == n
  {
  }

  /** The tables spell every control byte in hexadecimal. */
  lemma HexOfControl(c: char)
    requires c < ' '
    ensures CodePoint('0', '0', HEXDIGIT1[c as int], HEXDIGIT[c as int]) == c as int
  {
    var n := c as int;
    HighDigit(n);
    LowDigit(n);
    HexPair(HEXDIGIT1[n], HEXDIGIT[n], n);
  }

  /** Round trip: unquoting a quoted string of bytes 1..127 gives it back. */
  lemma {:induction false} UnquoteQuote(t: string)
    requires forall k :: 0 <= k < |t| ==> NUL < t[k] < 128 as char
    ensures Unquote(Quote(t)) == Some(t)
    decreases |t|
  {
    if t != [] {
      var q, qs := QuoteChar(t[0]), Quote(t[1..]);
      UnquoteQuoteChar(t[0], qs);
      UnquoteQuote(t[1..]);
      assert (q + qs)[|q|..] == qs && (q + qs)[0] == q[0];
      assert [t[0]] + t[1..] == t;
    }
  }
}
