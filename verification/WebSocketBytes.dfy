/** What is sent and received byte by byte, in the numbers of sections 5.2, 5.3 and 5.7 of RFC 6455. */
module WebSocketBytes {
  import opened Bytes
  import opened WebSocketFrame
  import opened Wrappers
  import S = WebSocket

  // ---- Exclusive or, bit by bit ----

  function Unequal(a: nat, b: nat): nat { if a % 2 == b % 2 then 0 else 1 }

  /** The bits in which two bytes differ. */
  function Differing(a: byte, b: byte): nat
  {
    128 * Unequal(a / 128, b / 128) + 64 * Unequal(a / 64, b / 64) + 32 * Unequal(a / 32, b / 32)
    + 16 * Unequal(a / 16, b / 16) + 8 * Unequal(a / 8, b / 8) + 4 * Unequal(a / 4, b / 4)
    + 2 * Unequal(a / 2, b / 2) + Unequal(a, b)
  }

  lemma LastBit(a: nat, b: nat, n: nat)
    requires n > 0
    ensures XorBits(a, b, n) == 2 * XorBits(a / 2, b / 2, n - 1) + Unequal(a, b)
  {
  }

  lemma LastBits(a: nat, b: nat, n: nat)
    requires n >= 4
    ensures XorBits(a, b, n) == 16 * XorBits(a / 16, b / 16, n - 4) + 8 * Unequal(a / 8, b / 8)
                                + 4 * Unequal(a / 4, b / 4) + 2 * Unequal(a / 2, b / 2) + Unequal(a, b)
  {
    LastBit(a, b, n);
    LastBit(a / 2, b / 2, n - 1);
    LastBit(a / 4, b / 4, n - 2);
    LastBit(a / 8, b / 8, n - 3);
    assert a / 2 / 2 == a / 4 && a / 4 / 2 == a / 8 && a / 8 / 2 == a / 16;
    assert b / 2 / 2 == b / 4 && b / 4 / 2 == b / 8 && b / 8 / 2 == b / 16;
  }

  /** The mask leaves just the bits in which the byte and the key differ. */
  lemma XorDiffers(a: byte, b: byte)
    ensures Xor(a, b) == Differing(a, b)
  {
    LastBits(a, b, 8);
    LastBits(a / 16, b / 16, 4);
    assert a / 16 / 2 == a / 32 && a / 16 / 4 == a / 64 && a / 16 / 8 == a / 128;
    assert b / 16 / 2 == b / 32 && b / 16 / 4 == b / 64 && b / 16 / 8 == b / 128;
    assert XorBits(a / 16 / 16, b / 16 / 16, 0) == 0;
  }

  lemma {:induction false} ChangedAt<T>(f: (nat, T) -> T, s: seq<T>, i: nat, k: nat)
    requires k < |s|
    ensures Changed(f, s, i)[k] == f(i + k, s[k])
    decreases |s|
  {
    if k > 0 {
      ChangedAt(f, s[1..], i + 1, k - 1);
    }
  }

  /** Each byte is masked by the byte of the key at its place modulo 4. */
  lemma MaskedAt(key: Key, payload: bytes, k: nat)
    requires k < |payload|
    ensures Masked(key, payload, 0)[k] == Differing(payload[k], key[k % 4])
  {
    ChangedAt(Mask(key), payload, 0, k);
    XorDiffers(payload[k], key[k % 4]);
  }

  // ---- What is sent ----

  /** Bytes as a number, the most significant first. */
  function Number(s: bytes): nat
    decreases |s|
  {
    if s == [] then 0 else 256 * Number(s[..|s| - 1]) + s[|s| - 1]
  }

  lemma {:induction false} OneNumber(s: bytes, t: bytes)
    requires |s| == |t| && Number(s) == Number(t)
    ensures s == t
    decreases |s|
  {
    if s != [] {
      var n := |s| - 1;
      OneNumber(s[..n], t[..n]);
      assert s == s[..n] + [s[n]] && t == t[..n] + [t[n]];
    }
  }

  lemma Behind(s: bytes, c: byte)
    ensures Number(s + [c]) == 256 * Number(s) + c
  {
    assert (s + [c])[..|s|] == s;
  }

  lemma TwoBytes(a: byte, b: byte)
    ensures Number([a, b]) == 256 * a + b
  {
    Behind([], a);
    Behind([a], b);
    assert [] + [a] == [a] && [a] + [b] == [a, b];
  }

  lemma SixBytes(a: byte, b: byte)
    ensures Number([0, 0, 0, 0, a, b]) == 256 * a + b
  {
    TwoBytes(0, 0);
    Behind([0, 0], 0);
    Behind([0, 0, 0], 0);
    Behind([0, 0, 0, 0], a);
    Behind([0, 0, 0, 0, a], b);
    assert [0, 0] + [0] == [0, 0, 0] && [0, 0, 0] + [0] == [0, 0, 0, 0];
    assert [0, 0, 0, 0] + [a] == [0, 0, 0, 0, a] && [0, 0, 0, 0, a] + [b] == [0, 0, 0, 0, a, b];
  }

  lemma EightBytes(a: byte, b: byte, c: byte, d: byte)
    ensures Number([0, 0, 0, 0, a, b, c, d]) == 0x1000000 * a + 0x10000 * b + 0x100 * c + d
  {
    SixBytes(a, b);
    Behind([0, 0, 0, 0, a, b], c);
    Behind([0, 0, 0, 0, a, b, c], d);
    assert [0, 0, 0, 0, a, b] + [c] == [0, 0, 0, 0, a, b, c];
    assert [0, 0, 0, 0, a, b, c] + [d] == [0, 0, 0, 0, a, b, c, d];
  }

  lemma FourDigits(n: nat)
    ensures n == 0x1000000 * (n / 0x1000000) + 0x10000 * (n / 0x10000 % 0x100) + 0x100 * (n / 0x100 % 0x100) + n % 0x100
  {
    assert n / 0x10000 == n / 0x100 / 0x100;
    assert n / 0x1000000 == n / 0x10000 / 0x100;
  }

  lemma LengthIs(n: nat)
    requires 126 < n < 0x1_0000_0000
    ensures |LongLength(n)| == (if n <= 65535 then 2 else 8) && Number(LongLength(n)) == n
  {
    FourDigits(n);
    var c, d := n / 0x100 % 0x100, n % 0x100;
    if n <= 65535 {
      TwoBytes(c, d);
    } else {
      var a, b := n / 0x1000000, n / 0x10000 % 0x100;
      EightBytes(a, b, c, d);
      assert LongLength(n) == [0, 0, 0, 0, a, b, c, d];
    }
  }

  /** The bytes `w` are the frame: the final bit and the kind, the mask bit and the short length,
      the length if it is longer, the key, the payload. A length of 126 has no bytes of its own. */
  ghost predicate Frames(w: bytes, f: Frame)
  {
    var n := |f.payload|;
    var e := if n <= 126 then 2 else if n <= 65535 then 4 else 10;
    var h := if f.mask then e + 4 else e;
    && |w| == h + n
    && w[0] == (if f.fin then 128 else 0) + f.opcode % 16
    && w[1] == (if f.mask then 128 else 0) + (if n <= 125 then n else if n <= 65535 then 126 else 127)
    && (n > 126 ==> Number(w[2..e]) == n)
    && (f.mask ==> w[e..h] == f.key)
    && w[h..] == f.payload
  }

  lemma WireFrames(f: Frame)
    requires |f.payload| < 0x1_0000_0000
    ensures Frames(Wire(f), f)
  {
    var w, n := Wire(f), |f.payload|;
    var extra, key := LongLength(n), if f.mask then f.key else [];
    if n > 126 { LengthIs(n); }
    assert w == Top(f) + (extra + (key + (f.payload + [])));
    Slices(w, Top(f), extra, key, f.payload, []);
    assert w[0] == w[..2][0] && w[1] == w[..2][1];
  }

  lemma Parts(w: bytes, e: nat, h: nat)
    requires 2 <= e <= h <= |w|
    ensures w == [w[0], w[1]] + w[2..e] + w[e..h] + w[h..]
  {
    Cut(w, h);
    Cut(w[..h], e);
    Cut(w[..e], 2);
    assert w[..h][e..] == w[e..h] && w[..h][..e] == w[..e];
    assert w[..e][2..] == w[2..e] && w[..e][..2] == [w[0], w[1]];
  }

  /** What is sent are exactly these bytes. */
  lemma SentExactly(w: bytes, f: Frame)
    requires |f.payload| < 0x1_0000_0000
    ensures w == Wire(f) <==> Frames(w, f)
  {
    var v, n := Wire(f), |f.payload|;
    WireFrames(f);
    if Frames(w, f) {
      var e := if n <= 126 then 2 else if n <= 65535 then 4 else 10;
      var h := if f.mask then e + 4 else e;
      if n > 126 { OneNumber(v[2..e], w[2..e]); }
      Parts(v, e, h);
      Parts(w, e, h);
    }
  }

  // ---- What is received ----

  /** The bits of the first two bytes: final, three reserved ones and four of the kind; masked and
      seven of the length. */
  lemma ReadBits(fin: bool, reserved: Reserved, opcode: nat, mask: bool, length: nat)
    requires opcode < 16 && length < 128
    ensures var r := (if reserved.rsv1 then 64 else 0) + (if reserved.rsv2 then 32 else 0)
                     + (if reserved.rsv3 then 16 else 0);
            StartOf((if fin then 128 else 0) + r + opcode, (if mask then 128 else 0) + length)
            == Start(fin, reserved, opcode, mask, length)
  {
  }

  /** Where the payload starts, and how long it is. */
  function PayloadAt(s: bytes): (h: nat)
    requires |s| >= 2
    ensures h >= 2
  {
    2 + (if s[1] % 128 == 126 then 2 else 0) + (if s[1] >= 128 then 4 else 0)
  }

  function PayloadLength(s: bytes): nat
    requires |s| >= 2 && |s| >= PayloadAt(s)
  {
    var short: nat := s[1] % 128;
    if short == 126 then 256 * s[2] + s[3] else short
  }

  /** The stream holds a whole frame of up to 65535 bytes. */
  ghost predicate Holds(s: bytes)
  {
    |s| >= 2 && s[1] % 128 != 127 && |s| >= PayloadAt(s) && |s| >= PayloadAt(s) + PayloadLength(s)
  }

  /** A byte of the payload, as the mask lets it through. */
  ghost predicate Unmasked(s: bytes, payload: bytes, k: nat)
    requires Holds(s) && k < |payload| == PayloadLength(s)
  {
    var h := PayloadAt(s);
    payload[k] == if s[1] >= 128 then Differing(s[h + k], s[h - 4 + k % 4]) else s[h + k]
  }

  lemma UnmaskedAt(s: bytes, key: Key, raw: bytes, payload: bytes, k: nat)
    requires Holds(s) && raw == s[PayloadAt(s)..PayloadAt(s) + PayloadLength(s)]
    requires payload == (if s[1] >= 128 then Masked(key, raw, 0) else raw) && k < |payload|
    requires s[1] >= 128 ==> key == s[PayloadAt(s) - 4..PayloadAt(s)]
    ensures Unmasked(s, payload, k)
  {
    if s[1] >= 128 { MaskedAt(key, raw, k); }
  }

  lemma ParseHeld(s: bytes)
    ensures Parse(s).Some? <==> Holds(s)
    ensures Holds(s) ==>
              var f, h, n := Parse(s).value, PayloadAt(s), PayloadLength(s);
              && (f.fin <==> s[0] >= 128) && f.opcode == s[0] % 16 && (f.mask <==> s[1] >= 128)
              && f.reserved == Reserved(s[0] / 64 % 2 == 1, s[0] / 32 % 2 == 1, s[0] / 16 % 2 == 1)
              && (f.mask ==> f.key == s[h - 4..h])
              && f.payload == (if f.mask then Masked(f.key, s[h..h + n], 0) else s[h..h + n])
              && Rest(s) == s[h + n..]
  {
  }

  /** A frame is read from just the streams that hold one, and it is what they hold. */
  lemma ReceivedExactly(s: bytes)
    ensures Parse(s).Some? <==> Holds(s)
    ensures Holds(s) ==>
              var f := Parse(s).value;
              && (f.fin <==> s[0] >= 128) && f.opcode == s[0] % 16 && (f.mask <==> s[1] >= 128)
              && f.reserved == Reserved(s[0] / 64 % 2 == 1, s[0] / 32 % 2 == 1, s[0] / 16 % 2 == 1)
              && |f.payload| == PayloadLength(s) && Rest(s) == s[PayloadAt(s) + PayloadLength(s)..]
              && forall k :: 0 <= k < |f.payload| ==> Unmasked(s, f.payload, k)
  {
    ParseHeld(s);
    if Holds(s) {
      var f, h, n := Parse(s).value, PayloadAt(s), PayloadLength(s);
      forall k | 0 <= k < |f.payload| ensures Unmasked(s, f.payload, k) {
        UnmaskedAt(s, f.key, s[h..h + n], f.payload, k);
      }
    }
  }

  // ---- Text frames ----

  lemma TextSent(key: Key, text: bytes, s: bytes)
    requires |text| <= 125 && s == [129, |text|] + text
    ensures Wire(Create(1, false, key, text)) == s
  {
    var f := Create(1, false, key, text);
    assert !f.mask && f.payload == text;
    SentExactly(s, f);
  }

  lemma TextReceived(text: bytes, s: bytes)
    requires |text| <= 125 && s == [129, |text|] + text
    ensures Parse(s) == Some(Frame(true, UNSET, 1, false, [0, 0, 0, 0], text))
  {
    ReadBits(true, UNSET, 1, false, |text|);
    assert s == [129, |text|] + ([] + ([] + (text + [])));
    ParseParts(s, 129, |text|, [], [], text, []);
  }

  /** A short final text frame, sent and received. */
  lemma TextFrame(key: Key, text: bytes)
    requires |text| <= 125
    ensures Wire(Create(1, false, key, text)) == [129, |text|] + text
    ensures Parse([129, |text|] + text) == Some(Frame(true, UNSET, 1, false, [0, 0, 0, 0], text))
  {
    TextSent(key, text, [129, |text|] + text);
    TextReceived(text, [129, |text|] + text);
  }

  lemma MaskedTextSent(key: Key, text: bytes, s: bytes)
    requires 0 < |text| <= 125 && s == [129, 128 + |text|] + key + Masked(key, text, 0)
    ensures Wire(Create(1, true, key, text)) == s
  {
    var f := Create(1, true, key, text);
    assert f.mask && |f.payload| == |text|;
    SentExactly(s, f);
  }

  lemma MaskedTextReceived(key: Key, text: bytes, masked: bytes, st: Start)
    requires |masked| <= 125 && text == Masked(key, masked, 0) && st == StartOf(129, 128 + |masked|)
    ensures Parse([129, 128 + |masked|] + key + masked) == Some(Frame(true, UNSET, 1, true, key, text))
  {
    var s := [129, 128 + |masked|] + key + masked;
    ReadBits(true, UNSET, 1, true, |masked|);
    assert st == Start(true, UNSET, 1, true, |masked|);
    assert s == [129, 128 + |masked|] + ([] + (key + (masked + [])));
    ParseParts(s, 129, 128 + |masked|, [], key, masked, []);
  }

  /** The same under a mask. */
  lemma MaskedTextFrame(key: Key, text: bytes, masked: bytes)
    requires 0 < |text| <= 125 && masked == Masked(key, text, 0)
    ensures Wire(Create(1, true, key, text)) == [129, 128 + |text|] + key + masked
    ensures Parse([129, 128 + |text|] + key + masked) == Some(Frame(true, UNSET, 1, true, key, text))
  {
    var s := [129, 128 + |text|] + key + masked;
    MaskedTextSent(key, text, s);
    MaskedTwice(key, text, 0);
    MaskedTextReceived(key, text, masked, StartOf(129, 128 + |text|));
  }

  lemma MaskedIs(key: Key, s: bytes, t: bytes)
    requires |s| == |t| && forall k :: 0 <= k < |s| ==> Xor(s[k], key[k % 4]) == t[k]
    ensures Masked(key, s, 0) == t
  {
    forall k | 0 <= k < |s| ensures Masked(key, s, 0)[k] == t[k] {
      ChangedAt(Mask(key), s, 0, k);
    }
  }

  lemma XorIs(a: byte, b: byte, x: byte)
    requires x == Differing(a, b)
    ensures Xor(a, b) == x
  {
    XorDiffers(a, b);
  }

  lemma HelloXor(a: byte, b: byte, x: byte)
    requires (a, b, x) in {(0x48, 0x37, 0x7f), (0x65, 0xfa, 0x9f), (0x6c, 0x21, 0x4d), (0x6c, 0x3d, 0x51),
                           (0x6f, 0x37, 0x58)}
    ensures Xor(a, b) == x
  {
    XorIs(a, b, x);
  }

  /** The examples of section 5.7: a text frame, and the same under a mask. */
  lemma HelloFrames(key: Key, hello: bytes, masked: bytes)
    requires key == [0x37, 0xfa, 0x21, 0x3d]
    requires hello == [0x48, 0x65, 0x6c, 0x6c, 0x6f] && masked == [0x7f, 0x9f, 0x4d, 0x51, 0x58]
    ensures Wire(Create(1, false, key, hello)) == [0x81, 0x05] + hello
    ensures Wire(Create(1, true, key, hello)) == [0x81, 0x85] + key + masked
    ensures Parse([0x81, 0x05] + hello) == Some(Frame(true, UNSET, 1, false, [0, 0, 0, 0], hello))
    ensures Parse([0x81, 0x85] + key + masked) == Some(Frame(true, UNSET, 1, true, key, hello))
  {
    forall k | 0 <= k < 5 ensures Xor(hello[k], key[k % 4]) == masked[k] {
      HelloXor(hello[k], key[k % 4], masked[k]);
    }
    MaskedIs(key, hello, masked);
    TextFrame(key, hello);
    MaskedTextFrame(key, hello, masked);
  }
  /** All that a connection has taken of one frame. */
  method Sent(size: nat, most: nat -> nat, f: Frame) returns (out: bytes)
    requires |f.payload| < 0x8000_0000 && size > 0 && size >= S.HeaderRoom(f) && forall i :: most(i) > 0
    ensures out == Wire(f)
  {
    var socket := new S.Outgoing(size, most);
    var failed := socket.PushFrame(f);
    ghost var was := socket.buffer.Contents();
    var rest := socket.buffer.WriteToBuffer(size);
    assert rest == was;
    out := socket.sent + rest;
    assert [] + Wire(f) == Wire(f);
  }

  lemma HeaderHeld(s: bytes, f: S.Flow, gift: nat -> nat)
    requires Holds(s) && (forall i :: gift(i) > 0) && forall i :: i <= 3 ==> gift(i) >= 4
    requires f.have == 0 && f.room == f.size >= 8 && f.pending == |s| && f.turn == 0
    ensures Parse(s).Some? && f.HeaderComes(gift, StartOf(s[0], s[1]))
  {
    ParseHeld(s);
    S.GenerousHeader(f, gift, StartOf(s[0], s[1]));
  }

  /** The first frame of a stream, if the first fills bring a whole field each. */
  method Received(size: nat, gift: nat -> nat, s: bytes) returns (r: S.Parsed)
    requires size >= 8 && Holds(s) && (forall i :: gift(i) > 0) && forall i :: i <= 3 ==> gift(i) >= 4
    ensures r.Got? && Parse(s) == Some(r.frame)
  {
    var socket := new S.Incoming(size, s, gift);
    HeaderHeld(s, socket.Flow(), gift);
    r := S.NextIncomingFrame(socket);
  }

  /** Whatever the socket takes at a time, a masked "Hello" goes out so, */
  method SendHello(size: nat, most: nat -> nat) returns (out: bytes)
    requires size >= 6 && forall i :: most(i) > 0
    ensures out == [0x81, 0x85] + [0x37, 0xfa, 0x21, 0x3d] + [0x7f, 0x9f, 0x4d, 0x51, 0x58]
  {
    var key: Key, hello := [0x37, 0xfa, 0x21, 0x3d], [0x48, 0x65, 0x6c, 0x6c, 0x6f];
    var f := S.CreateFrame(1, true, key, hello);
    HelloFrames(key, hello, [0x7f, 0x9f, 0x4d, 0x51, 0x58]);
    out := Sent(size, most, f);
  }

  lemma HelloComes(key: Key, hello: bytes, masked: bytes, behind: bytes, s: bytes)
    requires key == [0x37, 0xfa, 0x21, 0x3d] && masked == [0x7f, 0x9f, 0x4d, 0x51, 0x58]
    requires hello == [0x48, 0x65, 0x6c, 0x6c, 0x6f] && s == [0x81, 0x85] + key + masked + behind
    ensures Holds(s)
    ensures Parse(s).Some? && Parse(s).value.fin && Parse(s).value.opcode == 1 && Parse(s).value.payload == hello
  {
    HelloFrames(key, hello, masked);
    RoundTrip(1, true, key, hello, behind);
    ParseHeld(s);
  }

  /** and comes in again, whatever comes behind it. */
  method ReceiveHello(size: nat, gift: nat -> nat, behind: bytes) returns (r: S.Parsed)
    requires size >= 8 && (forall i :: gift(i) > 0) && forall i :: i <= 3 ==> gift(i) >= 4
    ensures r.Got? && r.frame.fin && r.frame.opcode == 1 && r.frame.payload == [0x48, 0x65, 0x6c, 0x6c, 0x6f]
  {
    var key: Key, masked := [0x37, 0xfa, 0x21, 0x3d], [0x7f, 0x9f, 0x4d, 0x51, 0x58];
    var s := [0x81, 0x85] + key + masked + behind;
    HelloComes(key, [0x48, 0x65, 0x6c, 0x6c, 0x6f], masked, behind, s);
    r := Received(size, gift, s);
  }
}
