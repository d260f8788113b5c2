/** The base64 codec of src/base64.c, section 4 of RFC 4648. */
module Base64 {
  import opened Bytes

  const PAD: byte := 61

  /** encoding_table: A to Z, a to z, 0 to 9, + and /. */
  function Letter(i: nat): byte
    requires i < 64
  {
    if i < 26 then 65 + i else if i < 52 then 97 + i - 26 else if i < 62 then 48 + i - 52
    else if i == 62 then 43 else 47
  }

  /** decoding_table: 0 for what is no letter. */
  function Sextet(c: byte): (i: nat)
    ensures i < 64
  {
    if 65 <= c <= 90 then c - 65 else if 97 <= c <= 122 then c - 97 + 26 else if 48 <= c <= 57 then c - 48 + 52
    else if c == 43 then 62 else if c == 47 then 63 else 0
  }

  lemma SextetOfLetter(i: nat)
    requires i < 64
    ensures Sextet(Letter(i)) == i && Letter(i) != PAD
  {
  }

  /** Table 1 of RFC 4648. */
  lemma LetterIs(i: nat)
    requires i < 64
    ensures Letter(i) as char == if i <= 25 then 'A' + i as char else if i <= 51 then 'a' + (i - 26) as char
                                 else if i <= 61 then '0' + (i - 52) as char else if i == 62 then '+' else '/'
    ensures PAD as char == '='
  {
  }

  /** And what every byte is decoded to. */
  lemma SextetIs(c: byte)
    ensures var l := c as char;
            Sextet(c) == if 'A' <= l <= 'Z' then c - 65 else if 'a' <= l <= 'z' then c - 71
                         else if '0' <= l <= '9' then c + 4 else if l == '+' then 62 else if l == '/' then 63 else 0
  {
  }

  // ---- The code: three bytes are four letters ----

  function Letters(a: byte, b: byte, c: byte): (g: bytes)
    ensures |g| == 4
  {
    [Letter(a / 4), Letter(a % 4 * 16 + b / 16), Letter(b % 16 * 4 + c / 64), Letter(c % 64)]
  }

  function LastLetters(x: bytes): (g: bytes)
    requires 1 <= |x| <= 3
    ensures |g| == 4
  {
    if |x| == 3 then Letters(x[0], x[1], x[2])
    else if |x| == 2 then Letters(x[0], x[1], 0)[3 := PAD]
    else Letters(x[0], 0, 0)[2 := PAD][3 := PAD]
  }

  function Encode(x: bytes): (g: bytes)
    requires x != []
    decreases |x|
  {
    if |x| <= 3 then LastLetters(x) else Letters(x[0], x[1], x[2]) + Encode(x[3..])
  }

  function Octets(a: nat, b: nat, c: nat, d: nat): (x: bytes)
    requires a < 64 && b < 64 && c < 64 && d < 64
    ensures |x| == 3
  {
    [a * 4 + b / 16, b % 16 * 16 + c / 4, c % 4 * 64 + d]
  }

  /** The bytes of four letters, and of the last four. */
  function FourOctets(g: bytes): (x: bytes)
    ensures |x| == 3
  {
    if |g| == 4 then Octets(Sextet(g[0]), Sextet(g[1]), Sextet(g[2]), Sextet(g[3])) else [0, 0, 0]
  }

  function Trimmed(g: bytes, x: bytes): bytes
    requires |x| == 3
  {
    if |g| != 4 then x else if g[2] == PAD then x[..1] else if g[3] == PAD then x[..2] else x
  }

  /** `n` times four letters, each decoded by `four`. */
  function Blocks(four: bytes -> bytes, g: bytes, n: nat): (x: bytes)
    requires |g| == 4 * n && n > 0 && forall q :: |four(q)| == 3
    decreases n
  {
    if n == 1 then Trimmed(g, four(g)) else four(g[..4]) + Blocks(four, g[4..], n - 1)
  }

  function Decode(g: bytes, n: nat): (x: bytes)
    requires |g| == 4 * n && n > 0
  {
    Blocks(FourOctets, g, n)
  }

  /** How many times four letters `n` bytes take. */
  function Quads(n: nat): nat { (n + 2) / 3 }

  /** requiredSpaceToEncode. */
  function Required(n: nat): nat { 4 * Quads(n) }

  lemma QuadsStep(n: nat)
    ensures Quads(n + 3) == Quads(n) + 1
    ensures 1 <= n <= 3 ==> Quads(n) == 1
    ensures n > 0 ==> Quads(n) > 0
  {
    assert (n + 5) / 3 == (n + 2) / 3 + 1;
  }

  lemma {:induction false} EncodedLength(x: bytes)
    requires x != []
    ensures |Encode(x)| == Required(|x|) && Quads(|x|) > 0
    decreases |x|
  {
    QuadsStep(|x|);
    if |x| > 3 {
      EncodedLength(x[3..]);
      QuadsStep(|x| - 3);
    }
  }

  lemma {:induction false} BlocksLength(four: bytes -> bytes, g: bytes, n: nat)
    requires |g| == 4 * n && n > 0 && forall q :: |four(q)| == 3
    ensures |Blocks(four, g, n)| == 3 * n - (if g[|g| - 2] == PAD then 2 else if g[|g| - 1] == PAD then 1 else 0)
    decreases n
  {
    if n > 1 {
      var rest := g[4..];
      BlocksLength(four, rest, n - 1);
      assert rest[|rest| - 2] == g[|g| - 2] && rest[|rest| - 1] == g[|g| - 1];
    }
  }

  // ---- Round trip ----

  lemma By16(h: nat, l: nat)
    requires l < 16
    ensures (h * 16 + l) / 16 == h && (h * 16 + l) % 16 == l
  {
  }

  lemma By4(h: nat, l: nat)
    requires l < 4
    ensures (h * 4 + l) / 4 == h && (h * 4 + l) % 4 == l
  {
  }

  lemma OctetsOf(a: byte, b: byte, c: byte)
    ensures Octets(a / 4, a % 4 * 16 + b / 16, b % 16 * 4 + c / 64, c % 64) == [a, b, c]
  {
    By16(a % 4, b / 16);
    By4(b % 16, c / 64);
  }

  lemma OctetsOfLetters(a: byte, b: byte, c: byte)
    ensures var g := Letters(a, b, c);
            Octets(Sextet(g[0]), Sextet(g[1]), Sextet(g[2]), Sextet(g[3])) == [a, b, c] && PAD !in g
  {
    SextetOfLetter(a / 4);
    SextetOfLetter(a % 4 * 16 + b / 16);
    SextetOfLetter(b % 16 * 4 + c / 64);
    SextetOfLetter(c % 64);
    OctetsOf(a, b, c);
  }

  lemma LastRoundTrip(x: bytes)
    requires 1 <= |x| <= 3
    ensures var g := LastLetters(x); Trimmed(g, FourOctets(g)) == x
  {
    var b, c := if |x| > 1 then x[1] else 0, if |x| > 2 then x[2] else 0;
    OctetsOfLetters(x[0], b, c);
  }

  /** Decoding what was encoded gives it back. */
  lemma {:induction false} RoundTrip(x: bytes)
    requires x != []
    ensures |Encode(x)| == Required(|x|) && Quads(|x|) > 0 && Decode(Encode(x), Quads(|x|)) == x
    decreases |x|
  {
    EncodedLength(x);
    QuadsStep(|x|);
    if |x| <= 3 {
      LastRoundTrip(x);
    } else {
      QuadsStep(|x| - 3);
      var g, rest := Letters(x[0], x[1], x[2]), Encode(x[3..]);
      OctetsOfLetters(x[0], x[1], x[2]);
      RoundTrip(x[3..]);
      assert (g + rest)[4..] == rest && (g + rest)[..4] == g;
      assert x == [x[0], x[1], x[2]] + x[3..];
    }
  }

  /** Letters as the digits of a number to the base 64. */
  function Digits(g: bytes): nat
    decreases |g|
  {
    if g == [] then 0 else 64 * Digits(g[..|g| - 1]) + Sextet(g[|g| - 1])
  }

  lemma OneMore(g: bytes, c: byte)
    ensures Digits(g + [c]) == 64 * Digits(g) + Sextet(c)
  {
    assert (g + [c])[..|g|] == g;
  }

  lemma FourDigits(a: byte, b: byte, c: byte, d: byte)
    ensures Digits([a, b, c, d]) == 0x40000 * Sextet(a) + 0x1000 * Sextet(b) + 64 * Sextet(c) + Sextet(d)
  {
    OneMore([], a);
    OneMore([a], b);
    OneMore([a, b], c);
    OneMore([a, b, c], d);
    assert [] + [a] == [a] && [a] + [b] == [a, b] && [a, b] + [c] == [a, b, c] && [a, b, c] + [d] == [a, b, c, d];
  }

  /** Three bytes and their letters are the same number. */
  lemma SameNumber(a: byte, b: byte, c: byte)
    ensures Digits(Letters(a, b, c)) == 0x10000 * a + 0x100 * b + c
  {
    var g := Letters(a, b, c);
    SextetOfLetter(a / 4);
    SextetOfLetter(a % 4 * 16 + b / 16);
    SextetOfLetter(b % 16 * 4 + c / 64);
    SextetOfLetter(c % 64);
    FourDigits(g[0], g[1], g[2], g[3]);
    assert g == [g[0], g[1], g[2], g[3]];
  }

  lemma Short(x: bytes)
    requires x == [102, 111, 111]
    ensures Encode(x[..1]) == [90, 103, 61, 61] && Encode(x[..2]) == [90, 109, 56, 61]
    ensures Encode(x) == [90, 109, 57, 118]
  {
  }

  lemma Longer(x: bytes, y: bytes)
    requires |x| == 3 && 1 <= |y| <= 3
    ensures Encode(x + y) == Encode(x) + Encode(y)
  {
    assert (x + y)[3..] == y;
  }

  /** Test vectors of section 10 of RFC 4648: f, fo, foo, foob and foobar, which are Zg==, Zm8=,
      Zm9v, Zm9vYg== and Zm9vYmFy. */
  lemma Vectors(x: bytes, y: bytes)
    requires x == [102, 111, 111] && y == [98, 97, 114]
    ensures Encode(x[..1]) == [90, 103, 61, 61] && Encode(x[..2]) == [90, 109, 56, 61]
    ensures Encode(x) == [90, 109, 57, 118]
    ensures Encode(x + y[..1]) == [90, 109, 57, 118] + [89, 103, 61, 61]
    ensures Encode(x + y) == [90, 109, 57, 118] + [89, 109, 70, 121]
  {
    Short(x);
    Longer(x, y[..1]);
    Longer(x, y);
  }

  // ---- The loops ----

  /** The shifts of privateEncode over three bytes in one word. */
  function Word(a: byte, b: byte, c: byte): nat { 0x10000 * a + 0x100 * b + c }

  method Shifted(t: nat, ghost a: byte, ghost b: byte, ghost c: byte) returns (g: bytes)
    requires t == Word(a, b, c)
    ensures g == Letters(a, b, c)
  {
    ShiftsAre(a, b, c);
    g := [Letter(t / 0x40000), Letter(t / 0x1000 % 64), Letter(t / 64 % 64), Letter(t % 64)];
  }

  lemma ShiftsAre(a: byte, b: byte, c: byte)
    ensures var t := Word(a, b, c);
            && t / 0x40000 == a / 4 && t / 0x1000 % 64 == a % 4 * 16 + b / 16
            && t / 64 % 64 == b % 16 * 4 + c / 64 && t % 64 == c % 64
  {
    var t := Word(a, b, c);
    var s0, s1, s2, s3 := a / 4, a % 4 * 16 + b / 16, b % 16 * 4 + c / 64, c % 64;
    assert t == 0x40000 * s0 + 0x1000 * s1 + 64 * s2 + s3;
    Digits64(s0, s1, s2, s3);
  }

  lemma Digits64(s0: nat, s1: nat, s2: nat, s3: nat)
    requires s1 < 64 && s2 < 64 && s3 < 64
    ensures var t := 0x40000 * s0 + 0x1000 * s1 + 64 * s2 + s3;
            t / 0x40000 == s0 && t / 0x1000 % 64 == s1 && t / 64 % 64 == s2 && t % 64 == s3
  {
    var t := 0x40000 * s0 + 0x1000 * s1 + 64 * s2 + s3;
    assert t / 64 == 0x1000 * s0 + 64 * s1 + s2;
    assert t / 0x1000 == 64 * s0 + s1;
  }

  /** The shifts of privateDecode over four letters in one word. */
  lemma OctetsAre(a: nat, b: nat, c: nat, d: nat)
    requires a < 64 && b < 64 && c < 64 && d < 64
    ensures var t := 0x40000 * a + 0x1000 * b + 64 * c + d;
            [t / 0x10000, t / 0x100 % 0x100, t % 0x100] == Octets(a, b, c, d)
  {
    var t := 0x40000 * a + 0x1000 * b + 64 * c + d;
    var b1, b0, c1, c0 := b / 16, b % 16, c / 4, c % 4;
    var x, y, z := a * 4 + b1, b0 * 16 + c1, c0 * 64 + d;
    assert b == 16 * b1 + b0 && c == 4 * c1 + c0;
    assert t == 0x10000 * x + 0x100 * y + z;
    Digits256(x, y, z);
  }

  lemma Digits256(x: nat, y: nat, z: nat)
    requires y < 256 && z < 256
    ensures var t := 0x10000 * x + 0x100 * y + z; t / 0x10000 == x && t / 0x100 % 0x100 == y && t % 0x100 == z
  {
    var t := 0x10000 * x + 0x100 * y + z;
    assert t / 0x100 == 0x100 * x + y;
  }

  /** The last letters, with their padding. */
  method Finish(input: bytes) returns (g: bytes)
    requires 1 <= |input| <= 3
    ensures g == LastLetters(input)
  {
    var b: byte, c: byte := 0, 0;
    if |input| > 1 { b := input[1]; }
    if |input| > 2 { c := input[2]; }
    g := Shifted(Word(input[0], b, c), input[0], b, c);
    if |input| == 1 { g := g[2 := PAD]; }
    if |input| <= 2 { g := g[3 := PAD]; }
  }

  /** Writes `g` at `o`. */
  method Put(output: array<byte>, o: nat, g: bytes)
    requires o + |g| <= output.Length && 1 <= |g| <= 4
    modifies output
    ensures output[..o + |g|] == old(output[..o]) + g
    ensures forall k :: o + |g| <= k < output.Length ==> output[k] == old(output[k])
  {
    output[o] := g[0];
    if |g| > 1 { output[o + 1] := g[1]; }
    if |g| > 2 { output[o + 2] := g[2]; }
    if |g| > 3 { output[o + 3] := g[3]; }
  }

  /** privateEncode, into a buffer of which `room` bytes may be used. */
  method EncodeInto(input: bytes, output: array<byte>, room: nat) returns (r: int)
    requires input != [] && room <= output.Length
    modifies output
    ensures Required(|input|) > room ==> r == -1 && output[..] == old(output[..])
    ensures Required(|input|) <= room ==> r == Required(|input|) && output[..r] == Encode(input)
  {
    if Required(|input|) > room {
      return -1;
    }
    var rest, o := input, 0;
    ghost var whole := Encode(input);
    EncodedLength(input);
    assert output[..0] + whole == whole;
    while |rest| > 3
      invariant rest != [] && o + |Encode(rest)| == |whole| == Required(|input|) && whole == output[..o] + Encode(rest)
      decreases |rest|
    {
      var g := Shifted(Word(rest[0], rest[1], rest[2]), rest[0], rest[1], rest[2]);
      Assoc(output[..o], g, Encode(rest[3..]));
      Put(output, o, g);
      rest, o := rest[3..], o + 4;
    }
    var g := Finish(rest);
    Put(output, o, g);
    r := o + 4;
  }

  /** Four letters at `i` are read and three bytes written at `o`, also in the same buffer. */
  method DecodeFour(input: array<byte>, length: nat, output: array<byte>, i: nat, o: nat)
    requires o <= i && i + 4 <= length <= input.Length && o + 3 <= output.Length
    modifies output
    ensures output[..o + 3] == old(output[..o]) + FourOctets(old(input[i..i + 4]))
    ensures input[i + 4..length] == old(input[i + 4..length])
  {
    var a, b, c, d := Sextet(input[i]), Sextet(input[i + 1]), Sextet(input[i + 2]), Sextet(input[i + 3]);
    var threeBytes := 0x40000 * a + 0x1000 * b + 64 * c + d;
    OctetsAre(a, b, c, d);
    assert input[i..i + 4] == [input[i], input[i + 1], input[i + 2], input[i + 3]];
    Put(output, o, [threeBytes / 0x10000, threeBytes / 0x100 % 0x100, threeBytes % 0x100]);
  }

  /** The words of privateDecode over its last letters, as they grow. */
  lemma LastWords(g: bytes)
    requires |g| == 4
    ensures var x, t := FourOctets(g), 0x40000 * Sextet(g[0]) + 0x1000 * Sextet(g[1]);
            var u := t + 64 * Sextet(g[2]);
            x == [t / 0x10000, u / 0x100 % 0x100, (u + Sextet(g[3])) % 0x100]
  {
    var a, b, c, d := Sextet(g[0]), Sextet(g[1]), Sextet(g[2]), Sextet(g[3]);
    OctetsAre(a, b, 0, 0);
    OctetsAre(a, b, c, 0);
    OctetsAre(a, b, c, d);
  }

  /** The last four letters, each read when it is needed. */
  method DecodeLast(input: array<byte>, i: nat, output: array<byte>, o: nat, ghost x: bytes) returns (n: nat)
    requires o <= i && i + 4 <= input.Length && x == FourOctets(input[i..i + 4])
    requires o + |Trimmed(input[i..i + 4], x)| <= output.Length
    modifies output
    ensures n == |Trimmed(old(input[i..i + 4]), x)|
    ensures output[..o + n] == old(output[..o]) + Trimmed(old(input[i..i + 4]), x)
  {
    ghost var g, before := input[i..i + 4], output[..o];
    LastWords(g);
    var threeBytes: nat := 0x40000 * Sextet(input[i]) + 0x1000 * Sextet(input[i + 1]);
    output[o] := threeBytes / 0x10000;
    n := 1;
    assert output[..o + 1] == before + [x[0]];
    assert input[i + 2] == g[2] && input[i + 3] == g[3];
    if input[i + 2] != PAD {
      threeBytes := threeBytes + 64 * Sextet(input[i + 2]);
      output[o + 1] := threeBytes / 0x100 % 0x100;
      n := 2;
      assert output[..o + 2] == before + [x[0], x[1]];
      assert input[i + 3] == g[3];
      if input[i + 3] != PAD {
        threeBytes := threeBytes + Sextet(input[i + 3]);
        output[o + 2] := threeBytes % 0x100;
        n := 3;
        assert output[..o + 3] == before + [x[0], x[1], x[2]];
      }
    }
    assert Trimmed(g, x) == [x[0], x[1], x[2]][..n];
  }

  /** How many bytes privateDecode wants to have room for. */
  function Asked(g: bytes, n: nat): int
    requires |g| == 4 * n && n > 0
  {
    3 * n - (if g[|g| - 1] == PAD then 1 else 0) - (if g[|g| - 2] == PAD then 1 else 0)
  }

  /** `four` decodes four letters. */
  ghost predicate Decodes(four: bytes -> bytes)
  {
    && (forall q :: |four(q)| == 3)
    && (forall g: bytes {:trigger FourOctets(g)} :: four(g) == FourOctets(g))
  }

  /** One turn of the loop of privateDecode. */
  method Turn(input: array<byte>, length: nat, output: array<byte>, i: nat, o: nat, ghost n: nat,
              ghost four: bytes -> bytes, ghost whole: bytes)
    requires Decodes(four) && n > 1 && o <= i && i + 4 * n == length <= input.Length && o + 3 <= output.Length
    requires whole == output[..o] + Blocks(four, input[i..length], n)
    modifies output
    ensures whole == output[..o + 3] + Blocks(four, input[i + 4..length], n - 1)
  {
    ghost var rest, after := input[i..length], input[i + 4..length];
    assert rest[..4] == input[i..i + 4] && rest[4..] == after;
    Assoc(output[..o], four(rest[..4]), Blocks(four, after, n - 1));
    DecodeFour(input, length, output, i, o);
  }

  /** The last four letters. */
  method LastTurn(input: array<byte>, length: nat, output: array<byte>, i: nat, o: nat, ghost four: bytes -> bytes,
                  ghost whole: bytes)
      returns (r: nat)
    requires Decodes(four) && o <= i && i + 4 == length <= input.Length && o <= |whole| <= output.Length
    requires whole == output[..o] + Blocks(four, input[i..length], 1)
    modifies output
    ensures r == |whole| && output[..r] == whole
  {
    ghost var g := input[i..length];
    assert g == input[i..i + 4] && Blocks(four, g, 1) == Trimmed(g, four(g)) && four(g) == FourOctets(g);
    var n := DecodeLast(input, i, output, o, four(g));
    r := o + n;
  }

  /** The loop of privateDecode. */
  method DecodeAll(input: array<byte>, length: nat, output: array<byte>, ghost n: nat, ghost four: bytes -> bytes)
      returns (r: nat)
    requires length == 4 * n && 0 < length <= input.Length && Decodes(four)
    requires |Blocks(four, input[..length], n)| <= output.Length
    modifies output
    ensures r == |Blocks(four, old(input[..length]), n)| <= output.Length
    ensures output[..r] == Blocks(four, old(input[..length]), n)
  {
    ghost var whole, m := Blocks(four, input[..length], n), n;
    var i, o := 0, 0;
    assert 3 * n <= |whole| + 2 by { BlocksLength(four, input[..length], n); }
    assert input[i..length] == input[..length];
    assert output[..o] + whole == whole;
    while i < length - 4
      invariant 0 < m <= n && i + 4 * m == length && o <= i && o + 3 * m <= |whole| + 2 && o <= |whole| <= output.Length
      invariant whole == output[..o] + Blocks(four, input[i..length], m)
      decreases length - i
    {
      Turn(input, length, output, i, o, m, four, whole);
      i, o, m := i + 4, o + 3, m - 1;
    }
    r := LastTurn(input, length, output, i, o, four, whole);
  }

  /** privateDecode, into another buffer or over the letters themselves: in place is the same as
      out of place, because the write head never passes the read head. */
  method DecodeInto(input: array<byte>, length: nat, output: array<byte>, room: nat) returns (r: int)
    requires 0 < length <= input.Length && room <= output.Length
    modifies output
    ensures length % 4 != 0 ==> r == -1
    ensures forall n: nat :: length == 4 * n ==>
              if room < Asked(old(input[..length]), n) then r == -1
              else r == |Decode(old(input[..length]), n)| <= room && output[..r] == Decode(old(input[..length]), n)
    ensures r == -1 ==> output[..] == old(output[..])
  {
    var outputLength := length / 4 * 3;
    if length % 4 != 0 {
      return -1;
    }
    ghost var n, g := length / 4, input[..length];
    if input[length - 1] == PAD { outputLength := outputLength - 1; }
    if input[length - 2] == PAD { outputLength := outputLength - 1; }
    assert outputLength == Asked(g, n);
    if room < outputLength {
      return -1;
    }
    BlocksLength(FourOctets, g, n);
    r := DecodeAll(input, length, output, n, FourOctets);
  }
}
