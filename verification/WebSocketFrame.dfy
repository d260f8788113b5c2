/** The frames of src/websocket.c on the wire, sections 5.2 and 5.3 of RFC 6455. */
module WebSocketFrame {
  import opened Bytes
  import opened Wrappers

  // ---- Exclusive or, bit by bit ----

  function XorBits(a: nat, b: nat, n: nat): (r: nat)
    decreases n
  {
    if n == 0 then 0 else 2 * XorBits(a / 2, b / 2, n - 1) + if a % 2 == b % 2 then 0 else 1
  }

  function Power(n: nat): (p: nat)
    ensures p > 0
  {
    if n == 0 then 1 else 2 * Power(n - 1)
  }

  lemma {:induction false} XorBitsBound(a: nat, b: nat, n: nat)
    ensures XorBits(a, b, n) < Power(n)
    decreases n
  {
    if n > 0 {
      XorBitsBound(a / 2, b / 2, n - 1);
    }
  }

  lemma {:induction false} XorBitsTwice(a: nat, b: nat, n: nat)
    requires a < Power(n)
    ensures XorBits(XorBits(a, b, n), b, n) == a
    decreases n
  {
    if n > 0 {
      XorBitsTwice(a / 2, b / 2, n - 1);
      var x := XorBits(a, b, n);
      assert x / 2 == XorBits(a / 2, b / 2, n - 1) && x % 2 == if a % 2 == b % 2 then 0 else 1;
    }
  }

  function Xor(a: byte, b: byte): byte
  {
    XorBitsBound(a, b, 8);
    assert Power(8) == 256 by { assert Power(4) == 16; }
    XorBits(a, b, 8)
  }

  lemma XorTwice(a: byte, b: byte)
    ensures Xor(Xor(a, b), b) == a
  {
    assert Power(8) == 256 by { assert Power(4) == 16; }
    XorBitsTwice(a, b, 8);
  }

  // ---- Masking ----

  const NUM_MASK_BYTES := 4

  type Key = k: bytes | |k| == NUM_MASK_BYTES witness [0, 0, 0, 0]

  /** A sequence changed place by place, from place `i` on. */
  function Changed<T>(f: (nat, T) -> T, s: seq<T>, i: nat): (m: seq<T>)
    ensures |m| == |s|
    decreases |s|
  {
    if s == [] then [] else [f(i, s[0])] + Changed(f, s[1..], i + 1)
  }

  lemma {:induction false} ChangedConcat<T>(f: (nat, T) -> T, a: seq<T>, b: seq<T>, i: nat)
    ensures Changed(f, a + b, i) == Changed(f, a, i) + Changed(f, b, i + |a|)
    decreases |a|
  {
    if a == [] {
      assert a + b == b;
    } else {
      ChangedConcat(f, a[1..], b, i + 1);
      assert (a + b)[1..] == a[1..] + b;
      Assoc([f(i, a[0])], Changed(f, a[1..], i + 1), Changed(f, b, i + |a|));
    }
  }

  function Mask(key: Key): (nat, byte) -> byte { (i: nat, c: byte) => Xor(c, key[i % 4]) }

  /** The payload under its mask, from place `i` on. */
  function Masked(key: Key, payload: bytes, i: nat): (m: bytes)
    ensures |m| == |payload|
  {
    Changed(Mask(key), payload, i)
  }

  /** A change that takes itself back. */
  ghost predicate OwnInverse<T(!new)>(f: (nat, T) -> T)
  {
    forall n: nat, c: T :: f(n, f(n, c)) == c
  }

  lemma {:induction false} ChangedTwice<T(!new)>(f: (nat, T) -> T, s: seq<T>, i: nat)
    requires OwnInverse(f)
    ensures Changed(f, Changed(f, s, i), i) == s
    decreases |s|
  {
    if s != [] {
      var rest := Changed(f, s[1..], i + 1);
      assert ([f(i, s[0])] + rest)[1..] == rest;
      ChangedTwice(f, s[1..], i + 1);
      assert [s[0]] + s[1..] == s;
    }
  }

  lemma MaskIsOwnInverse(key: Key)
    ensures OwnInverse(Mask(key))
  {
    forall n: nat, c: byte ensures Mask(key)(n, Mask(key)(n, c)) == c {
      XorTwice(c, key[n % 4]);
    }
  }

  /** Masking twice gives the payload back. */
  lemma MaskedTwice(key: Key, payload: bytes, i: nat)
    ensures Masked(key, Masked(key, payload, i), i) == payload
  {
    MaskIsOwnInverse(key);
    ChangedTwice(Mask(key), payload, i);
  }

  // ---- Frames ----

  /** The three bits behind the first. */
  datatype Reserved = Reserved(rsv1: bool, rsv2: bool, rsv3: bool)

  const UNSET := Reserved(false, false, false)

  /** struct CS_WebSocketFrame; the key counts only if the frame is masked. */
  datatype Frame = Frame(fin: bool, reserved: Reserved, opcode: nat, mask: bool, key: Key, payload: bytes)

  /** CS_WS_createFrame; `key` is what CS_rand comes up with. An empty frame is never masked. */
  function Create(opcode: nat, masked: bool, key: Key, payload: bytes): Frame
  {
    var mask := masked && payload != [];
    Frame(true, UNSET, opcode, mask, key, if mask then Masked(key, payload, 0) else payload)
  }

  /** The length as the second byte gives it. */
  function ShortLength(n: nat): nat { if n <= 125 then n else if n <= 0xFFFF then 126 else 127 }

  /** The length bytes that follow; for a length of 126 CS_WS_pushFrame writes none. */
  function LongLength(n: nat): bytes
    requires n < 0x1_0000_0000
  {
    (if n > 0xFFFF then [0, 0, 0, 0, n / 0x1000000, n / 0x10000 % 0x100] else [])
    + (if n > 126 then [n / 0x100 % 0x100, n % 0x100] else [])
  }

  function Top(f: Frame): (h: bytes)
    ensures |h| == 2
  {
    [(if f.fin then 0x80 else 0) + f.opcode % 16, (if f.mask then 0x80 else 0) + ShortLength(|f.payload|)]
  }

  function Header(f: Frame): (h: bytes)
    requires |f.payload| < 0x1_0000_0000
  {
    Top(f) + LongLength(|f.payload|) + (if f.mask then f.key else [])
  }

  /** What CS_WS_pushFrame writes: it leaves the reserved bits out. */
  function Wire(f: Frame): bytes
    requires |f.payload| < 0x1_0000_0000
  {
    Header(f) + f.payload
  }

  // ---- Parsing ----

  /** The fixed two bytes and what they announce. */
  datatype Start = Start(fin: bool, reserved: Reserved, opcode: nat, mask: bool, length: nat)

  function StartOf(a: byte, b: byte): Start
  {
    var reserved := Reserved(a / 0x40 % 2 == 1, a / 0x20 % 2 == 1, a / 0x10 % 2 == 1);
    Start(a >= 0x80, reserved, a % 16, b >= 0x80, b % 0x80)
  }

  /** How many bytes of length and of mask follow. */
  function ExtraLength(st: Start): nat { if st.length == 126 then 2 else 0 }

  function KeyLength(st: Start): nat { if st.mask then NUM_MASK_BYTES else 0 }

  function Length(st: Start, extra: bytes): nat
    requires |extra| == ExtraLength(st)
  {
    if st.length == 126 then 0x100 * extra[0] + extra[1] else st.length
  }

  /** What CS_WS_nextIncomingFrame makes of a stream: a frame, its mask taken off. */
  function Parse(s: bytes): Option<Frame>
  {
    if |s| < 2 then None
    else
      var st := StartOf(s[0], s[1]);
      var e := 2 + ExtraLength(st);
      if st.length == 127 || |s| < e + KeyLength(st) then None
      else
        var n, h := Length(st, s[2..e]), e + KeyLength(st);
        var key: Key := if st.mask then s[e..h] else [0, 0, 0, 0];
        if |s| < h + n then None
        else
          var payload := if st.mask then Masked(key, s[h..h + n], 0) else s[h..h + n];
          Some(Frame(st.fin, st.reserved, st.opcode, st.mask, key, payload))
  }

  /** What the parser leaves of a stream it found a frame in. */
  function Rest(s: bytes): bytes
    requires Parse(s).Some?
  {
    var st := StartOf(s[0], s[1]);
    s[2 + ExtraLength(st) + KeyLength(st) + |Parse(s).value.payload|..]
  }

  /** The lengths that survive. */
  predicate Sendable(n: nat) { n <= 125 || 127 <= n <= 0xFFFF }

  lemma StartOfHeader(f: Frame)
    requires |f.payload| < 0x1_0000_0000
    ensures StartOf(Header(f)[0], Header(f)[1]) == Start(f.fin, UNSET, f.opcode % 16, f.mask, ShortLength(|f.payload|))
  {
  }

  lemma LengthOfHeader(f: Frame, st: Start)
    requires Sendable(|f.payload|) && st == Start(f.fin, UNSET, f.opcode % 16, f.mask, ShortLength(|f.payload|))
    ensures var n, e := |f.payload|, 2 + ExtraLength(st);
            && |Header(f)| == e + KeyLength(st)
            && Length(st, Header(f)[2..e]) == n
            && (f.mask ==> Header(f)[e..] == f.key)
  {
    var n := |f.payload|;
    if n > 126 {
      assert n / 0x100 % 0x100 == n / 0x100;
      assert Header(f)[2..4] == LongLength(n);
    }
  }

  /** What is sent is received, with the payload the mask hides. */
  lemma ParseWire(f: Frame, rest: bytes)
    requires Sendable(|f.payload|)
    ensures var s := Wire(f) + rest;
            && Parse(s).Some? && Rest(s) == rest
            && Parse(s).value.fin == f.fin && Parse(s).value.reserved == UNSET
            && Parse(s).value.opcode == f.opcode % 16 && Parse(s).value.mask == f.mask
            && Parse(s).value.payload == if f.mask then Masked(f.key, f.payload, 0) else f.payload
  {
    var s, h, n := Wire(f) + rest, Header(f), |f.payload|;
    assert s == h + (f.payload + rest);
    StartOfHeader(f);
    var st := StartOf(h[0], h[1]);
    assert s[0] == h[0] && s[1] == h[1];
    LengthOfHeader(f, st);
    var e := 2 + ExtraLength(st);
    assert s[2..e] == h[2..e];
    assert f.mask ==> s[e..|h|] == f.key;
    assert s[|h|..|h| + n] == f.payload && s[|h| + n..] == rest;
  }

  /** A frame that was made, pushed and parsed has kept its kind and its payload. */
  lemma RoundTrip(opcode: nat, masked: bool, key: Key, payload: bytes, rest: bytes)
    requires Sendable(|payload|)
    ensures var s := Wire(Create(opcode, masked, key, payload)) + rest;
            && Parse(s).Some? && Rest(s) == rest
            && Parse(s).value.fin && Parse(s).value.opcode == opcode % 16 && Parse(s).value.payload == payload
  {
    var f := Create(opcode, masked, key, payload);
    ParseWire(f, rest);
    if f.mask {
      MaskedTwice(key, payload, 0);
    }
  }

  /** Just the sendable lengths come through, whatever follows in the stream: with 126 bytes the
      parser takes two bytes for a length that was not written, and more than 65535 it refuses. */
  lemma RoundTripExactly(opcode: nat, masked: bool, key: Key, payload: bytes, rest: bytes)
    requires |payload| < 0x8000_0000
    ensures var s := Wire(Create(opcode, masked, key, payload)) + rest;
            Parse(s).Some? && Parse(s).value.payload == payload && Rest(s) == rest <==> Sendable(|payload|)
  {
    var f := Create(opcode, masked, key, payload);
    var s := Wire(f) + rest;
    if Sendable(|payload|) {
      RoundTrip(opcode, masked, key, payload, rest);
    } else {
      StartOfHeader(f);
      assert s[0] == Header(f)[0] && s[1] == Header(f)[1];
    }
  }

  lemma Slices(s: bytes, head: bytes, extra: bytes, key: bytes, m: bytes, rest: bytes)
    requires s == head + (extra + (key + (m + rest)))
    ensures var d := |head|;
            var e := d + |extra|;
            var h := e + |key|;
            var n := h + |m|;
            && n <= |s| && s[..d] == head && s[d..e] == extra && s[e..h] == key && s[h..n] == m && s[n..] == rest
  {
    var u := m + rest;
    Middle(head, extra, key + u);
    Assoc(head, extra, key + u);
    Middle(head + extra, key, u);
    Assoc(head + extra, key, u);
    Middle(head + extra + key, m, rest);
  }

  /** The parts of a stream the parser reads one after the other. */
  lemma ParseParts(s: bytes, a: byte, b: byte, extra: bytes, key: bytes, m: bytes, rest: bytes)
    requires s == [a, b] + (extra + (key + (m + rest)))
    requires var st := StartOf(a, b);
             && st.length != 127 && |extra| == ExtraLength(st) && |key| == KeyLength(st) && |m| == Length(st, extra)
    ensures var st := StartOf(a, b);
            && Parse(s) == Some(Frame(st.fin, st.reserved, st.opcode, st.mask, if st.mask then key else [0, 0, 0, 0],
                                      if st.mask then Masked(key, m, 0) else m))
            && Rest(s) == rest
  {
    Slices(s, [a, b], extra, key, m, rest);
    assert s[0] == s[..2][0] == a && s[1] == s[..2][1] == b;
  }

  lemma Middle(p: bytes, q: bytes, r: bytes)
    ensures var s := p + (q + r); s[|p|..|p| + |q|] == q && s[|p| + |q|..] == r
  {
  }

  /** What a frame in the stream means for what follows its first two bytes. */
  lemma Announced(s: bytes, a: byte, b: byte, rest: bytes)
    requires s == [a, b] + rest
    ensures var st := StartOf(a, b);
            Parse(s).Some? ==> st.length != 127 && |rest| >= ExtraLength(st) + KeyLength(st)
  {
  }

  /** A stream without a whole payload holds no frame. */
  lemma TooShort(s: bytes, a: byte, b: byte, extra: bytes, key: bytes, rest: bytes)
    requires s == [a, b] + (extra + (key + rest))
    requires var st := StartOf(a, b);
             st.length != 127 && |extra| == ExtraLength(st) && |key| == KeyLength(st) && |rest| < Length(st, extra)
    ensures Parse(s).None?
  {
    Middle([a, b], extra, key + rest);
  }
}
