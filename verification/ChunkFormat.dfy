/** The chunked transfer format as src/http.c speaks it (section 7.1 of RFC 9112, except that
    the message ends with the zero-size line and no final CRLF), given twice: as a stream
    producer and as a byte-at-a-time consumer. */
module ChunkFormat {
  import opened Bytes

  const INT_MAX := 0x7FFF_FFFF
  /** Sizes with more hex digits than this do not fit the encoder's size line. */
  const SIZE_LIMIT := 0x10_0000
  const MAX_CHUNK_SIZE_LENGTH := 8

  // ---- Hexadecimal ----

  function HexDigitToInt(u: byte): (d: int)
    ensures -1 <= d < 16
    ensures d >= 0 <==>
              '0' as int <= u <= '9' as int || 'a' as int <= u <= 'f' as int || 'A' as int <= u <= 'F' as int
    ensures d >= 0 ==> u == HexChar(d) || (d >= 10 && u == 'A' as int + d - 10)
  {
    if u < '0' as int then -1
    else if u > 'f' as int then -1
    else if u <= '9' as int then u - '0' as int
    else if u >= 'a' as int then u - 'a' as int + 10
    else if u > 'F' as int then -1
    else if u >= 'A' as int then u - 'A' as int + 10
    else -1
  }

  function HexChar(d: nat): byte
    requires d < 16
  {
    if d < 10 then '0' as int + d else 'a' as int + d - 10
  }

  /** The digit's value, or -1, in numbers. */
  lemma HexDigitIs(u: byte)
    ensures HexDigitToInt(u)
            == if 48 <= u <= 57 then u - 48 else if 97 <= u <= 102 then u - 87 else if 65 <= u <= 70 then u - 55 else -1
  {
  }

  lemma HexCharIs(d: nat)
    requires d < 16
    ensures HexChar(d) == "0123456789abcdef"[d] as int
  {
  }

  /** "%x" of a number that is not negative. */
  function Hex(n: nat): (s: bytes)
    ensures |s| >= 1
  {
    if n < 16 then [HexChar(n)] else Hex(n / 16) + [HexChar(n % 16)]
  }

  function Pow16(k: nat): nat { if k == 0 then 1 else 16 * Pow16(k - 1) }

  lemma {:induction false} HexWidth(n: nat, k: nat)
    requires k >= 1
    ensures |Hex(n)| <= k <==> n < Pow16(k)
  {
    if n < 16 {
      Pow16Positive(k - 1);
    } else if k > 1 {
      HexWidth(n / 16, k - 1);
    }
  }

  lemma {:induction false} Pow16Positive(k: nat)
    ensures Pow16(k) >= 1
  {
    if k > 0 {
      Pow16Positive(k - 1);
    }
  }

  lemma HexLength(n: nat)
    ensures |Hex(n)| <= 5 <==> n < SIZE_LIMIT
    ensures |Hex(n)| <= 6 <==> n < 0x100_0000
  {
    assert Pow16(3) == 0x1000;
    assert Pow16(5) == SIZE_LIMIT;
    assert Pow16(6) == 0x100_0000;
    HexWidth(n, 5);
    HexWidth(n, 6);
  }

  // ---- What hexadecimal digits mean ----

  /** The digits of a number to the base 16, the most significant one first, in either case. */
  predicate HexDigits(s: bytes)
  {
    forall k :: 0 <= k < |s| ==> 48 <= s[k] <= 57 || 97 <= s[k] <= 102 || 65 <= s[k] <= 70
  }

  function DigitValue(u: byte): nat
  {
    if 48 <= u <= 57 then u - 48 else if 97 <= u <= 102 then u - 87 else if 65 <= u <= 70 then u - 55 else 0
  }

  function HexNumber(s: bytes): nat
  {
    if s == [] then 0 else 16 * HexNumber(s[..|s| - 1]) + DigitValue(s[|s| - 1])
  }

  predicate LowerCase(s: bytes) { forall k :: 0 <= k < |s| ==> !(65 <= s[k] <= 70) }

  lemma OneMoreDigit(s: bytes, d: nat)
    requires HexDigits(s) && LowerCase(s) && d < 16
    ensures var t := s + [HexChar(d)]; HexDigits(t) && LowerCase(t) && HexNumber(t) == 16 * HexNumber(s) + d
  {
    assert (s + [HexChar(d)])[..|s|] == s;
  }

  /** "%x" writes a number in lower case digits, without a leading zero. */
  lemma {:induction false} HexIsNumber(n: nat)
    ensures HexDigits(Hex(n)) && LowerCase(Hex(n)) && HexNumber(Hex(n)) == n
    ensures Hex(n)[0] == 48 <==> n == 0
  {
    if n < 16 {
      OneMoreDigit([], n);
      assert [] + [HexChar(n)] == [HexChar(n)];
    } else {
      HexIsNumber(n / 16);
      OneMoreDigit(Hex(n / 16), n % 16);
    }
  }

  // ---- What the encoder writes ----

  /** What snprintf leaves in the eight-byte size buffer for "%x\r\n": at most seven
      characters and a NUL. Only the first |"%x\r\n"| bytes are sent. */
  function SizeLine(n: nat): bytes
  {
    var full := Hex(n) + CRLF;
    if |full| < MAX_CHUNK_SIZE_LENGTH then full
    else full[..MAX_CHUNK_SIZE_LENGTH - 1] + [0]
  }

  /** The bytes an encoder that wants chunks of `wanted` bytes produces for `payload`. */
  function Stream(payload: bytes, wanted: nat): bytes
    decreases |payload|
  {
    var c := Min(|payload|, wanted);
    if c == 0 then SizeLine(0)
    else SizeLine(c) + payload[..c] + CRLF + Stream(payload[c..], wanted)
  }

  /** The intended format: every size line complete. */
  function Chunked(payload: bytes, wanted: nat): bytes
    requires wanted > 0
    decreases |payload|
  {
    if payload == [] then Hex(0) + CRLF
    else
      var c := Min(|payload|, wanted);
      Hex(c) + CRLF + payload[..c] + CRLF + Chunked(payload[c..], wanted)
  }

  // ---- What a decoder makes of a byte ----

  /** Where a decoder is in the format. `Overflow` is the undefined shift of a size that no
      longer fits an int32_t. */
  datatype Phase =
    | Size(acc: nat)
    | SizeCr(acc: nat)
    | Body(rest: nat)
    | BodyCr
    | End
    | Malformed
    | Overflow

  predicate Stopped(p: Phase) { p.End? || p.Malformed? || p.Overflow? }

  function Next(p: Phase, b: byte): Phase
  {
    match p
    case Size(acc) =>
      if b == CR then SizeCr(acc)
      else if HexDigitToInt(b) < 0 then Malformed
      else if acc * 16 + HexDigitToInt(b) > INT_MAX then Overflow
      else Size(acc * 16 + HexDigitToInt(b))
    case SizeCr(acc) => if b != LF then Malformed else if acc == 0 then End else Body(acc)
    case Body(rest) => if rest > 0 then Body(rest - 1) else if b == CR then BodyCr else Malformed
    case BodyCr => if b == LF then Size(0) else Malformed
    case _ => p
  }

  /** The phase reached from `p` by reading `s`. */
  function After(p: Phase, s: bytes): Phase
    decreases |s|
  {
    if s == [] then p else After(Next(p, s[0]), s[1..])
  }

  /** The payload bytes found while reading `s` from phase `p`. */
  function Decoded(p: Phase, s: bytes): bytes
    decreases |s|
  {
    if s == [] then []
    else (if p.Body? && p.rest > 0 then [s[0]] else []) + Decoded(Next(p, s[0]), s[1..])
  }

  ghost predicate Reads(p: Phase, s: bytes, q: Phase, out: bytes)
  {
    After(p, s) == q && Decoded(p, s) == out
  }

  /** Fragment independence: reading in two pieces is reading at once. */
  lemma {:induction false} Split(p: Phase, a: bytes, b: bytes)
    ensures After(p, a + b) == After(After(p, a), b)
    ensures Decoded(p, a + b) == Decoded(p, a) + Decoded(After(p, a), b)
    decreases |a|
  {
    if a == [] {
      assert a + b == b;
    } else {
      var q := Next(p, a[0]);
      Split(q, a[1..], b);
      assert (a + b)[0] == a[0] && (a + b)[1..] == a[1..] + b;
      var head: bytes := if p.Body? && p.rest > 0 then [a[0]] else [];
      Assoc(head, Decoded(q, a[1..]), Decoded(After(q, a[1..]), b));
    }
  }

  /** Reading a list of fragments one after the other, the phase carried along. */
  function AfterAll(p: Phase, fragments: seq<bytes>): Phase
    decreases |fragments|
  {
    if fragments == [] then p else AfterAll(After(p, fragments[0]), fragments[1..])
  }

  function DecodedAll(p: Phase, fragments: seq<bytes>): bytes
    decreases |fragments|
  {
    if fragments == [] then []
    else Decoded(p, fragments[0]) + DecodedAll(After(p, fragments[0]), fragments[1..])
  }

  function Concat(fragments: seq<bytes>): bytes
  {
    if fragments == [] then [] else fragments[0] + Concat(fragments[1..])
  }

  /** Any fragmentation of a stream gives the output and the phase of the whole stream. */
  lemma {:induction false} SplitIndependence(p: Phase, fragments: seq<bytes>)
    ensures AfterAll(p, fragments) == After(p, Concat(fragments))
    ensures DecodedAll(p, fragments) == Decoded(p, Concat(fragments))
    decreases |fragments|
  {
    if fragments != [] {
      SplitIndependence(After(p, fragments[0]), fragments[1..]);
      Split(p, fragments[0], Concat(fragments[1..]));
    }
  }

  lemma {:induction false} ReadOne(p: Phase, b: byte)
    ensures After(p, [b]) == Next(p, b)
    ensures Decoded(p, [b]) == if p.Body? && p.rest > 0 then [b] else []
  {
    assert [b][1..] == [];
    assert After(Next(p, b), []) == Next(p, b);
  }

  lemma ReadSnoc(p: Phase, s: bytes, i: nat)
    requires i < |s|
    ensures After(p, s[..i + 1]) == Next(After(p, s[..i]), s[i])
    ensures Decoded(p, s[..i + 1]) == Decoded(p, s[..i]) + Decoded(After(p, s[..i]), [s[i]])
  {
    assert s[..i + 1] == s[..i] + [s[i]];
    Split(p, s[..i], [s[i]]);
    ReadOne(After(p, s[..i]), s[i]);
  }

  /** A stage that reads `s` in phase `p` ends in phase `q` and has passed `out` on: the
      payload bytes in `s`, or, when it copies, all of them. It reads nothing behind the byte
      that ends the message. */
  ghost predicate Passes(copyAll: bool, p: Phase, s: bytes, q: Phase, out: bytes)
  {
    && After(p, s) == q && out == (if copyAll then s else Decoded(p, s))
    && (s != [] ==> !Stopped(After(p, s[..|s| - 1])))
  }

  lemma PassesOne(copyAll: bool, p: Phase, b: byte)
    requires !Stopped(p) && (p.Body? ==> p.rest == 0)
    ensures Passes(copyAll, p, [b], Next(p, b), if copyAll then [b] else [])
  {
    ReadOne(p, b);
  }

  lemma PassesBody(copyAll: bool, rest: nat, s: bytes)
    requires |s| <= rest
    ensures Passes(copyAll, Body(rest), s, Body(rest - |s|), s)
  {
    ReadBody(rest, s);
    if s != [] {
      ReadBody(rest, s[..|s| - 1]);
    }
  }

  lemma PassesDigits(copyAll: bool, p: Phase, s: bytes, q: Phase)
    requires Reads(p, s, q, []) && !Stopped(q)
    ensures Passes(copyAll, p, s, q, if copyAll then s else [])
  {
    if s != [] && Stopped(After(p, s[..|s| - 1])) {
      StoppedByPrefix(p, s, |s| - 1);
    }
  }

  lemma PassesOn(copyAll: bool, p: Phase, s: bytes, q: Phase, out: bytes, s': bytes, r: Phase, out': bytes)
    requires Passes(copyAll, p, s, q, out) && Passes(copyAll, q, s', r, out')
    ensures Passes(copyAll, p, s + s', r, out + out')
  {
    Split(p, s, s');
    if s' == [] {
      assert s + s' == s;
    } else {
      assert (s + s')[..|s + s'| - 1] == s + s'[..|s'| - 1];
      Split(p, s, s'[..|s'| - 1]);
    }
  }

  lemma ReadTwo(p: Phase, a: byte, b: byte)
    requires !p.Body? || p.rest == 0
    requires !Next(p, a).Body? || Next(p, a).rest == 0
    ensures Reads(p, [a, b], Next(Next(p, a), b), [])
  {
    ReadOne(p, a);
    ReadOne(Next(p, a), b);
    Split(p, [a], [b]);
    assert [a] + [b] == [a, b];
  }

  /** Once stopped, the decoder ignores everything. */
  lemma {:induction false} ReadStopped(p: Phase, s: bytes)
    requires Stopped(p)
    ensures Reads(p, s, p, [])
    decreases |s|
  {
    if s != [] {
      ReadStopped(p, s[1..]);
    }
  }

  /** A decoder that stops inside `s` is stopped by all of `s`. */
  lemma StoppedByPrefix(p: Phase, s: bytes, i: nat)
    requires i <= |s| && Stopped(After(p, s[..i]))
    ensures After(p, s) == After(p, s[..i])
  {
    assert s == s[..i] + s[i..];
    Split(p, s[..i], s[i..]);
    ReadStopped(After(p, s[..i]), s[i..]);
  }

  /** Chunk data passes straight through. */
  lemma {:induction false} ReadBody(rest: nat, s: bytes)
    requires |s| <= rest
    ensures Reads(Body(rest), s, Body(rest - |s|), s)
    decreases |s|
  {
    if s != [] {
      ReadBody(rest - 1, s[1..]);
      assert [s[0]] + s[1..] == s;
    }
  }

  lemma {:induction false} ReadHex(n: nat)
    requires n <= INT_MAX
    ensures Reads(Size(0), Hex(n), Size(n), [])
  {
    if n < 16 {
      ReadOne(Size(0), HexChar(n));
    } else {
      ReadHex(n / 16);
      ReadOne(Size(n / 16), HexChar(n % 16));
      Split(Size(0), Hex(n / 16), [HexChar(n % 16)]);
    }
  }

  /** A complete size line announces its chunk; the zero line ends the message. */
  lemma ReadSizeLine(n: nat)
    requires n <= INT_MAX
    ensures Reads(Size(0), Hex(n) + CRLF, if n == 0 then End else Body(n), [])
  {
    ReadHex(n);
    ReadTwo(Size(n), CR, LF);
    Split(Size(0), Hex(n), CRLF);
  }

  lemma SizeLineComplete(n: nat)
    requires n < 0x100_0000
    ensures |SizeLine(n)| == |Hex(n)| + 2
    ensures SizeLine(n) == Hex(n) + CRLF <==> n < SIZE_LIMIT
  {
    HexLength(n);
    if n >= SIZE_LIMIT {
      assert (Hex(n) + CRLF)[7] == LF && SizeLine(n)[7] == 0;
    }
  }

  /** A size line of six digits has lost its LF, and a decoder rejects it. */
  lemma ReadCutLine(n: nat)
    requires SIZE_LIMIT <= n < 0x100_0000
    ensures Reads(Size(0), SizeLine(n), Malformed, [])
  {
    HexLength(n);
    assert SizeLine(n) == Hex(n) + [CR, 0];
    ReadHex(n);
    ReadTwo(Size(n), CR, 0);
    Split(Size(0), Hex(n), [CR, 0]);
  }

  lemma ReadThree(p: Phase, a: bytes, b: bytes, c: bytes, q: Phase, r: Phase, t: Phase, out: bytes)
    requires Reads(p, a, q, []) && Reads(q, b, r, out) && Reads(r, c, t, [])
    ensures Reads(p, a + b + c, t, out)
  {
    Split(p, a, b);
    Split(p, a + b, c);
  }

  /** One chunk of the stream, from boundary to boundary. */
  lemma ReadChunk(data: bytes)
    requires 0 < |data| <= INT_MAX
    ensures Reads(Size(0), Hex(|data|) + CRLF + data + CRLF, Size(0), data)
  {
    ReadSizeLine(|data|);
    ReadBody(|data|, data);
    ReadTwo(Body(0), CR, LF);
    ReadThree(Size(0), Hex(|data|) + CRLF, data, CRLF, Body(|data|), Body(0), Size(0), data);
  }

  /** Round trip of the format itself: decoding `Chunked` gives back the payload and stops at
      the end of the message. */
  lemma {:induction false} DecodeChunked(payload: bytes, wanted: nat)
    requires 0 < wanted
    requires Min(|payload|, wanted) <= INT_MAX
    ensures Reads(Size(0), Chunked(payload, wanted), End, payload)
    decreases |payload|
  {
    if payload == [] {
      ReadSizeLine(0);
    } else {
      var c := Min(|payload|, wanted);
      DecodeChunked(payload[c..], wanted);
      ReadChunk(payload[..c]);
      Split(Size(0), Hex(c) + CRLF + payload[..c] + CRLF, Chunked(payload[c..], wanted));
      assert payload[..c] + payload[c..] == payload;
    }
  }

  /** Only the last byte of the message ends it. */
  lemma {:induction false} EndsLast(payload: bytes, wanted: nat)
    requires 0 < wanted && Min(|payload|, wanted) <= INT_MAX
    ensures var m := Chunked(payload, wanted); m != [] && !Stopped(After(Size(0), m[..|m| - 1]))
    decreases |payload|
  {
    var m := Chunked(payload, wanted);
    if payload == [] {
      ReadHex(0);
      ReadOne(Size(0), CR);
      Split(Size(0), Hex(0), [CR]);
      assert m[..|m| - 1] == Hex(0) + [CR];
    } else {
      var c := Min(|payload|, wanted);
      var chunk, rest := Hex(c) + CRLF + payload[..c] + CRLF, Chunked(payload[c..], wanted);
      EndsLast(payload[c..], wanted);
      ReadChunk(payload[..c]);
      assert m == chunk + rest && m[..|m| - 1] == chunk + rest[..|rest| - 1];
      Split(Size(0), chunk, rest[..|rest| - 1]);
    }
  }

  /** What has not stopped before its last byte lies within a message that ends. */
  lemma WithinMessage(p: Phase, m: bytes, behind: bytes, s: bytes, rest: bytes)
    requires m + behind == s + rest && Stopped(After(p, m)) && (s != [] ==> !Stopped(After(p, s[..|s| - 1])))
    ensures |s| <= |m| && s == m[..|s|]
  {
    if |s| > |m| {
      var t := s[..|s| - 1];
      assert t[..|m|] == (s + rest)[..|m|] == (m + behind)[..|m|] == m;
      StoppedByPrefix(p, t, |m|);
      assert false;
    }
    assert s == (s + rest)[..|s|] == (m + behind)[..|s|] == m[..|s|];
  }

  lemma EndsWithin(p: Phase, m: bytes, n: nat)
    requires n < |m| && !Stopped(After(p, m[..|m| - 1]))
    ensures !Stopped(After(p, m[..n]))
  {
    var t := m[..|m| - 1];
    assert t[..n] == m[..n];
    if Stopped(After(p, m[..n])) {
      StoppedByPrefix(p, t, n);
    }
  }

  lemma BeforeEnd(p: Phase, m: bytes, payload: bytes, s: bytes, q: Phase)
    requires Reads(p, m, End, payload) && m != [] && !Stopped(After(p, m[..|m| - 1]))
    requires |s| <= |m| && s == m[..|s|] && After(p, s) == q
    ensures Decoded(p, s) <= payload
    ensures q.End? <==> s == m
  {
    assert m == s + m[|s|..];
    Split(p, s, m[|s|..]);
    if |s| < |m| {
      EndsWithin(p, m, |s|);
    }
  }

  lemma NothingBehindEnd(copyAll: bool, p: Phase, m: bytes, payload: bytes, behind: bytes, s: bytes, rest: bytes,
                         q: Phase, out: bytes)
    requires Reads(p, m, End, payload) && m != [] && !Stopped(After(p, m[..|m| - 1]))
    requires m + behind == s + rest && Passes(copyAll, p, s, q, out)
    ensures s <= m && out <= if copyAll then m else payload
    ensures q.End? <==> s == m
    ensures q.End? ==> rest == behind && out == if copyAll then m else payload
  {
    WithinMessage(p, m, behind, s, rest);
    BeforeEnd(p, m, payload, s, q);
    if |s| == |m| {
      assert behind == (m + behind)[|m|..] == rest;
    }
  }

  /** Whatever follows a message, a stage reads nothing but the message: when it has reached the
      end, exactly the message. A copying stage has then passed it whole, a decoding one its
      payload. */
  lemma NothingBehind(copyAll: bool, payload: bytes, wanted: nat, behind: bytes, s: bytes, rest: bytes, q: Phase,
                      out: bytes)
    requires 0 < wanted && Min(|payload|, wanted) <= INT_MAX
    requires Chunked(payload, wanted) + behind == s + rest && Passes(copyAll, Size(0), s, q, out)
    ensures s <= Chunked(payload, wanted) && out <= if copyAll then Chunked(payload, wanted) else payload
    ensures q.End? <==> s == Chunked(payload, wanted)
    ensures q.End? ==> rest == behind && out == if copyAll then Chunked(payload, wanted) else payload
  {
    DecodeChunked(payload, wanted);
    EndsLast(payload, wanted);
    NothingBehindEnd(copyAll, Size(0), Chunked(payload, wanted), payload, behind, s, rest, q, out);
  }

  /** Exactly when the encoder writes the intended format: no chunk reaches 0x100000 bytes. */
  lemma {:induction false} StreamIsChunked(payload: bytes, wanted: nat)
    requires 0 < wanted
    requires Min(|payload|, wanted) < 0x100_0000
    ensures Stream(payload, wanted) == Chunked(payload, wanted) <==> Min(|payload|, wanted) < SIZE_LIMIT
    decreases |payload|
  {
    var c := Min(|payload|, wanted);
    SizeLineComplete(c);
    SizeLineComplete(0);
    if c > 0 {
      if c < SIZE_LIMIT {
        StreamIsChunked(payload[c..], wanted);
      } else {
        HexLength(c);
        assert Stream(payload, wanted)[7] == 0;
        assert Chunked(payload, wanted)[7] == LF;
      }
    }
  }

  /** A stream that starts with a cut size line is rejected before any payload. */
  lemma DecodeCutStream(payload: bytes, wanted: nat)
    requires SIZE_LIMIT <= Min(|payload|, wanted) < 0x100_0000
    ensures Reads(Size(0), Stream(payload, wanted), Malformed, [])
  {
    var c := Min(|payload|, wanted);
    var rest := payload[..c] + CRLF + Stream(payload[c..], wanted);
    assert SizeLine(c) + rest == Stream(payload, wanted);
    ReadCutLine(c);
    Split(Size(0), SizeLine(c), rest);
    ReadStopped(Malformed, rest);
  }

  lemma DecodeEmptyStream(payload: bytes, wanted: nat)
    requires Min(|payload|, wanted) == 0
    ensures Reads(Size(0), Stream(payload, wanted), End, [])
  {
    SizeLineComplete(0);
    ReadSizeLine(0);
  }

  /** Exactly when decoding the encoder's stream gives the payload back: a chunk size of at
      least one (zero drops a payload that is not empty) and no chunk of 0x100000 bytes. */
  lemma DecodeStream(payload: bytes, wanted: nat)
    requires Min(|payload|, wanted) < 0x100_0000
    ensures Reads(Size(0), Stream(payload, wanted), End, payload)
            <==> payload == [] || (wanted > 0 && Min(|payload|, wanted) < SIZE_LIMIT)
  {
    var c := Min(|payload|, wanted);
    if c == 0 {
      DecodeEmptyStream(payload, wanted);
    } else if c < SIZE_LIMIT {
      StreamIsChunked(payload, wanted);
      DecodeChunked(payload, wanted);
    } else {
      DecodeCutStream(payload, wanted);
    }
  }
}
