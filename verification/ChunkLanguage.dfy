/** The streams the chunk decoder of src/http.c reaches its end in, exactly, byte by byte. */
module ChunkLanguage {
  import opened Bytes
  import opened ChunkFormat
  import opened PushPull
  import E = ChunkEncoder
  import D = ChunkDecoder

  /** A chunk as a peer may write it: its size in digits of either case, with any leading zeros. */
  datatype Piece = Piece(digits: bytes, data: bytes)

  predicate ProperPiece(c: Piece)
  {
    HexDigits(c.digits) && 0 < HexNumber(c.digits) == |c.data| < 0x8000_0000
  }

  predicate ProperPieces(cs: seq<Piece>) { forall k :: 0 <= k < |cs| ==> ProperPiece(cs[k]) }

  /** A last size line; it may have no digit at all. */
  predicate ZeroDigits(z: bytes) { HexDigits(z) && HexNumber(z) == 0 }

  function MessageText(cs: seq<Piece>, z: bytes): bytes
    decreases |cs|
  {
    if cs == [] then z + [13, 10]
    else cs[0].digits + [13, 10] + (cs[0].data + ([13, 10] + MessageText(cs[1..], z)))
  }

  function AllData(cs: seq<Piece>): bytes { if cs == [] then [] else cs[0].data + AllData(cs[1..]) }

  lemma ReadDigit(acc: nat, u: byte)
    requires HexDigitToInt(u) == DigitValue(u) && 16 * acc + DigitValue(u) <= INT_MAX && u != 13
    ensures Reads(Size(acc), [u], Size(16 * acc + DigitValue(u)), [])
  {
    ReadOne(Size(acc), u);
  }

  lemma {:induction false} ReadDigits(s: bytes)
    requires HexDigits(s) && HexNumber(s) <= INT_MAX
    ensures Reads(Size(0), s, Size(HexNumber(s)), [])
    decreases |s|
  {
    if s != [] {
      var front, last := s[..|s| - 1], s[|s| - 1];
      assert HexNumber(s) == 16 * HexNumber(front) + DigitValue(last);
      ReadDigits(front);
      HexDigitIs(last);
      ReadDigit(HexNumber(front), last);
      Split(Size(0), front, [last]);
      assert s == front + [last];
    }
  }

  /** A size line with digits of either case. */
  lemma ReadAnyLine(digits: bytes)
    requires HexDigits(digits) && HexNumber(digits) <= INT_MAX
    ensures var n := HexNumber(digits); Reads(Size(0), digits + [13, 10], if n == 0 then End else Body(n), [])
  {
    ReadDigits(digits);
    ReadTwo(Size(HexNumber(digits)), 13, 10);
    Split(Size(0), digits, [13, 10]);
  }

  lemma ReadPiece(c: Piece, rest: bytes)
    requires ProperPiece(c)
    ensures var s := c.digits + [13, 10] + (c.data + ([13, 10] + rest));
            After(Size(0), s) == After(Size(0), rest) && Decoded(Size(0), s) == c.data + Decoded(Size(0), rest)
  {
    var line, tail := c.digits + [13, 10], [13, 10] + rest;
    ReadAnyLine(c.digits);
    Split(Size(0), line, c.data + tail);
    ReadBody(|c.data|, c.data);
    Split(Body(|c.data|), c.data, tail);
    ReadTwo(Body(0), 13, 10);
    Split(Body(0), [13, 10], rest);
  }

  lemma FirstPiece(cs: seq<Piece>, z: bytes, rest: bytes)
    requires cs != []
    ensures MessageText(cs, z) + rest
         == cs[0].digits + [13, 10] + (cs[0].data + ([13, 10] + (MessageText(cs[1..], z) + rest)))
  {
    var c, more := cs[0], MessageText(cs[1..], z);
    Assoc([13, 10], more, rest);
    Assoc(c.data, [13, 10] + more, rest);
    Assoc(c.digits + [13, 10], c.data + ([13, 10] + more), rest);
  }

  /** Every message of that form is decoded to its data, whatever follows. */
  lemma {:induction false} ReadMessage(cs: seq<Piece>, z: bytes, rest: bytes)
    requires ProperPieces(cs) && ZeroDigits(z)
    ensures Reads(Size(0), MessageText(cs, z) + rest, End, AllData(cs))
    decreases |cs|
  {
    if cs == [] {
      ReadAnyLine(z);
      Split(Size(0), z + [13, 10], rest);
      ReadStopped(End, rest);
    } else {
      ReadMessage(cs[1..], z, rest);
      ReadPiece(cs[0], MessageText(cs[1..], z) + rest);
      FirstPiece(cs, z, rest);
    }
  }

  /** Where the size line ends that the first `n` bytes of a message start. */
  lemma {:induction false} LineEnd(s: bytes, n: nat) returns (e: nat)
    requires n <= |s| && HexDigits(s[..n]) && HexNumber(s[..n]) <= INT_MAX
    requires After(Size(HexNumber(s[..n])), s[n..]).End?
    ensures n <= e && e + 2 <= |s| && HexDigits(s[..e]) && HexNumber(s[..e]) <= INT_MAX
    ensures s[e] == 13 && s[e + 1] == 10
    decreases |s| - n
  {
    var acc, u := HexNumber(s[..n]), s[n..];
    if s[n] == 13 {
      e := n;
      if n + 1 < |s| && s[n + 1] != 10 { ReadStopped(Malformed, u[2..]); }
      assert After(SizeCr(acc), u[1..]).End?;
    } else {
      var more := s[..n + 1];
      assert u[1..] == s[n + 1..] && more[..n] == s[..n];
      if Stopped(Next(Size(acc), s[n])) { ReadStopped(Next(Size(acc), s[n]), u[1..]); }
      e := LineEnd(s, n + 1);
    }
  }

  /** Behind the data of a chunk there is a CRLF, and a message. */
  lemma BehindData(n: nat, u: bytes)
    requires After(Body(n), u).End?
    ensures n + 2 <= |u| && u[n] == 13 && u[n + 1] == 10 && After(Size(0), u[n + 2..]).End?
  {
    var m := Min(n, |u|);
    var data, tail := u[..m], u[m..];
    ReadBody(n, data);
    Split(Body(n), data, tail);
    assert u == data + tail;
    if tail[0] != 13 { ReadStopped(Malformed, tail[1..]); }
    assert After(BodyCr, tail[1..]).End?;
    if tail[1..][0] != 10 { ReadStopped(Malformed, tail[1..][1..]); }
    assert tail[1..][1..] == u[n + 2..];
  }

  /** The size line a message starts with. */
  lemma FirstLine(s: bytes) returns (digits: bytes, u: bytes)
    requires After(Size(0), s).End?
    ensures HexDigits(digits) && HexNumber(digits) <= INT_MAX && s == digits + [13, 10] + u
    ensures HexNumber(digits) > 0 ==> After(Body(HexNumber(digits)), u).End?
  {
    assert s[..0] == [] && s[0..] == s;
    var e := LineEnd(s, 0);
    digits, u := s[..e], s[e + 2..];
    assert s == digits + [13, 10] + u;
    BehindLine(digits, u);
  }

  /** The data of its first chunk. */
  lemma FirstData(n: nat, u: bytes) returns (data: bytes, tail: bytes)
    requires After(Body(n), u).End?
    ensures |data| == n && u == data + ([13, 10] + tail) && After(Size(0), tail).End?
  {
    BehindData(n, u);
    data, tail := u[..n], u[n + 2..];
  }

  /** And nothing else is: a stream in which the decoder reaches its end starts with a message of
      that form, and what it decoded is the data of its chunks. */
  lemma OnlyMessages(s: bytes) returns (cs: seq<Piece>, z: bytes, rest: bytes)
    requires After(Size(0), s).End?
    ensures ProperPieces(cs) && ZeroDigits(z) && s == MessageText(cs, z) + rest
    ensures Decoded(Size(0), s) == AllData(cs)
  {
    cs, z, rest := Pieces(s);
    ReadMessage(cs, z, rest);
  }

  lemma {:induction false} Pieces(s: bytes) returns (cs: seq<Piece>, z: bytes, rest: bytes)
    requires After(Size(0), s).End?
    ensures ProperPieces(cs) && ZeroDigits(z) && s == MessageText(cs, z) + rest
    decreases |s|
  {
    var digits, u := FirstLine(s);
    if HexNumber(digits) == 0 {
      cs, z, rest := [], digits, u;
    } else {
      var data, tail := FirstData(HexNumber(digits), u);
      var more;
      more, z, rest := Pieces(tail);
      cs := [Piece(digits, data)] + more;
      Prefixed(Piece(digits, data), more, z, rest, s);
    }
  }

  lemma BehindLine(digits: bytes, u: bytes)
    requires HexDigits(digits) && HexNumber(digits) <= INT_MAX && After(Size(0), digits + [13, 10] + u).End?
    ensures HexNumber(digits) > 0 ==> After(Body(HexNumber(digits)), u).End?
  {
    ReadAnyLine(digits);
    Split(Size(0), digits + [13, 10], u);
  }

  lemma Prefixed(c: Piece, cs: seq<Piece>, z: bytes, rest: bytes, s: bytes)
    requires s == c.digits + [13, 10] + (c.data + ([13, 10] + (MessageText(cs, z) + rest)))
    ensures s == MessageText([c] + cs, z) + rest
  {
    assert ([c] + cs)[1..] == cs;
    FirstPiece([c] + cs, z, rest);
  }

  ghost predicate StartsWith(s: bytes, cs: seq<Piece>, z: bytes, rest: bytes)
  {
    ProperPieces(cs) && ZeroDigits(z) && s == MessageText(cs, z) + rest
  }

  /** The language of the decoder: it reaches its end in just the streams that start with a message. */
  lemma DecoderLanguage(s: bytes)
    ensures After(Size(0), s).End? <==> exists cs, z, rest :: StartsWith(s, cs, z, rest)
  {
    if After(Size(0), s).End? {
      var cs, z, rest := OnlyMessages(s);
      assert StartsWith(s, cs, z, rest);
    }
    if cs, z, rest :| StartsWith(s, cs, z, rest) {
      ReadMessage(cs, z, rest);
    }
  }

  /** Ten bytes on the wire. */
  lemma TenBytes(data: bytes)
    requires |data| == 10
    ensures Stream(data, 16) == [97, 13, 10] + data + [13, 10] + [48, 13, 10]
    ensures Reads(Size(0), [97, 13, 10] + data + [13, 10] + [48, 13, 10], End, data)
  {
    assert data[..10] == data && data[10..] == [];
    assert Hex(10) == [97] && Hex(0) == [48];
    assert SizeLine(10) == [97, 13, 10] && SizeLine(0) == [48, 13, 10];
    StreamIsChunked(data, 16);
    DecodeChunked(data, 16);
  }

  method Filled(s: bytes) returns (b: PushPullBuffer)
    ensures b.Valid() && b.Settled() && b.Contents() == s && b.buff.Length == |s| && fresh(b) && fresh(b.buff)
  {
    b := new PushPullBuffer(|s|);
    ghost var taken, rest;
    var n;
    n, taken, rest := b.ReadFromBuffer(s);
    assert taken == s && [] + taken == s;
  }

  lemma AllWritten(payload: bytes, wanted: nat, sent: bytes, used: bytes, t: E.Turn, input: bytes, room: nat)
    requires 0 < wanted && room >= |Stream(payload, wanted)|
    requires E.Emits(true, wanted, E.Boundary, payload, sent, used, t, input)
    requires t.Finished? || (|sent| == room && !t.Boundary?)
    requires t.Line? || t.Crlf? ==> t.due != []
    ensures sent == Stream(payload, wanted)
  {
    E.PendingLength(t, input, wanted);
    assert sent + E.Pending(t, input, wanted) == Stream(payload, wanted);
  }

  /** One call of an encoder that has the whole payload and room for the whole stream writes it. */
  method Send(payload: bytes, wanted: nat, room: nat) returns (out: bytes)
    requires 0 < wanted && Min(|payload|, wanted) < SIZE_LIMIT && room >= |Stream(payload, wanted)|
    ensures out == Stream(payload, wanted)
  {
    var inBuff := Filled(payload);
    var outBuff := new PushPullBuffer(room);
    var encoder := new E.Encoder(wanted, room);
    E.FailsNever(false, wanted, E.Boundary, payload, room);
    ghost var sent, used;
    var n;
    n, sent, used := encoder.Process(inBuff, outBuff, false);
    AllWritten(payload, wanted, sent, used, encoder.Turn(), inBuff.Contents(), room);
    assert [] + sent == sent;
    out := outBuff.WriteToBuffer(room);
  }

  lemma AllRead(s: bytes, payload: bytes, read: bytes, left: bytes, q: Phase, passed: bytes)
    requires Reads(Size(0), s, End, payload) && s == read + left && Passes(false, Size(0), read, q, passed)
    requires q.End? || left == []
    ensures passed == payload
  {
    Split(Size(0), read, left);
    if q.End? { ReadStopped(End, left); }
  }

  /** One call of a decoder that has a whole message before it gives its data. */
  method Receive(s: bytes, room: nat, ghost payload: bytes) returns (out: bytes)
    requires Reads(Size(0), s, End, payload) && room >= |payload|
    ensures out == payload
  {
    var inBuff := Filled(s);
    var outBuff := new PushPullBuffer(room);
    var decoder := new D.Decoder(false);
    ghost var read, passed;
    var n, spins;
    n, spins, read, passed := decoder.Process(inBuff, outBuff);
    AllRead(s, payload, read, inBuff.Contents(), decoder.Phase(), passed);
    assert [] + passed == passed;
    out := outBuff.WriteToBuffer(room);
  }

  /** The encoder writes the ten bytes so, */
  method SendTen(data: bytes) returns (out: bytes)
    requires |data| == 10
    ensures out == [97, 13, 10] + data + [13, 10] + [48, 13, 10]
  {
    TenBytes(data);
    out := Send(data, 16, 18);
  }

  /** and the decoder reads them. */
  method ReceiveTen(data: bytes) returns (out: bytes)
    requires |data| == 10
    ensures out == data
  {
    TenBytes(data);
    out := Receive([97, 13, 10] + data + [13, 10] + [48, 13, 10], 10, data);
  }
}
