/** The encode stage of src/http.c: a resumable state machine that cuts what it finds in its
    input buffer into chunks of at most `wanted` bytes. */
module ChunkEncoder {
  import opened Bytes
  import opened ChunkFormat
  import opened PushPull

  datatype ChunkState = DetermineSize | SizeHex | ChunkData | PostDataCr | Done

  /** Where the encoder is in the current chunk: what it has sent and has yet to send of the
      size line or of the CRLF, or how much of the data it has yet to send (the bytes
      themselves are still in the input). */
  datatype Turn =
    | Boundary
    | Line(sent: bytes, due: bytes, size: nat)
    | Data(rest: nat)
    | Crlf(sent: bytes, due: bytes)
    | Finished

  predicate WellFormed(t: Turn)
  {
    && (t.Line? ==> t.sent + t.due == SizeLine(t.size))
    && (t.Crlf? ==> t.sent + t.due == CRLF)
  }

  /** The rest of an announced chunk is always in the input. */
  predicate Backed(t: Turn, input: bytes)
  {
    && (t.Line? ==> t.size <= |input|)
    && (t.Data? ==> t.rest <= |input|)
  }

  /** Everything the encoder will write if its input gets no more data. */
  function Pending(t: Turn, input: bytes, wanted: nat): bytes
    requires Backed(t, input)
  {
    match t
    case Boundary => Stream(input, wanted)
    case Line(_, due, size) => due + if size == 0 then [] else PendingData(size, input, wanted)
    case Data(rest) => PendingData(rest, input, wanted)
    case Crlf(_, due) => due + Stream(input, wanted)
    case Finished => []
  }

  function PendingData(rest: nat, input: bytes, wanted: nat): bytes
    requires rest <= |input|
  {
    input[..rest] + CRLF + Stream(input[rest..], wanted)
  }

  /** Where a decoder is that has read everything this encoder has written. */
  function Image(t: Turn): Phase
  {
    match t
    case Boundary => Size(0)
    case Line(sent, _, _) => After(Size(0), sent)
    case Data(rest) => Body(rest)
    case Crlf(sent, _) => After(Body(0), sent)
    case Finished => End
  }

  /** The zero line that ends the message has been cut. */
  predicate Ended(t: Turn) { t.Finished? || (t.Line? && t.size == 0) }

  /** From turn `t` to turn `t'` the encoder has written `out` and consumed `used`: what it will
      write later is what is missing from the whole stream, and, as long as every size fits its
      line, a decoder reading `out` goes from the one image to the other and finds exactly the
      bytes consumed. The message is ended only where the input is empty, and for good. */
  ghost predicate Emits(fits: bool, wanted: nat, t: Turn, input: bytes, out: bytes, used: bytes, t': Turn,
                        input': bytes)
  {
    && input == used + input'
    && WellFormed(t) && WellFormed(t') && Backed(t, input) && Backed(t', input')
    && Pending(t, input, wanted) == out + Pending(t', input', wanted)
    && (fits ==> Reads(Image(t), out, Image(t'), used))
    && (Ended(t) ==> Ended(t') && used == [])
    && (!Ended(t) && Ended(t') && wanted > 0 ==> input' == [])
  }

  lemma EmitsNothing(fits: bool, wanted: nat, t: Turn, input: bytes)
    requires WellFormed(t) && Backed(t, input)
    ensures Emits(fits, wanted, t, input, [], [], t, input)
  {
  }

  lemma EmitsOn(fits: bool, wanted: nat, t: Turn, input: bytes, out: bytes, used: bytes, t': Turn, input': bytes,
                out': bytes, used': bytes, t'': Turn, input'': bytes)
    requires Emits(fits, wanted, t, input, out, used, t', input')
    requires Emits(fits, wanted, t', input', out', used', t'', input'')
    ensures Emits(fits, wanted, t, input, out + out', used + used', t'', input'')
  {
    Assoc(used, used', input'');
    Assoc(out, out', Pending(t'', input'', wanted));
    Split(Image(t), out, out');
  }

  /** Starting a chunk: its size line is due. */
  lemma EmitsBoundary(fits: bool, wanted: nat, input: bytes)
    ensures var size := Min(|input|, wanted);
            Emits(fits, wanted, Boundary, input, [], [], Line([], SizeLine(size), size), input)
  {
    var size := Min(|input|, wanted);
    var line := SizeLine(size);
    if size > 0 {
      Assoc(line, input[..size], CRLF);
      Assoc(line, input[..size] + CRLF, Stream(input[size..], wanted));
    }
  }

  /** Part of the text of a line or a CRLF, read from where the part before it led. */
  lemma ReadsPart(p: Phase, sent: bytes, due: bytes, due': bytes)
    requires Decoded(p, sent + due + due') == []
    ensures Reads(After(p, sent), due, After(p, sent + due), [])
  {
    Split(p, sent, due);
    Split(p, sent + due, due');
  }

  lemma EmitsLine(fits: bool, wanted: nat, sent: bytes, due: bytes, due': bytes, size: nat, input: bytes)
    requires sent + (due + due') == SizeLine(size) && size <= |input|
    requires size < 0x100_0000 && (fits ==> size < SIZE_LIMIT)
    ensures Emits(fits, wanted, Line(sent, due + due', size), input, due, [], Line(sent + due, due', size), input)
  {
    Assoc(sent, due, due');
    Assoc(due, due', if size == 0 then [] else PendingData(size, input, wanted));
    if fits {
      SizeLineComplete(size);
      ReadSizeLine(size);
      ReadsPart(Size(0), sent, due, due');
    }
  }

  /** The size line is out: the zero line ends the message, any other leads to its data. */
  lemma EmitsLineDone(fits: bool, wanted: nat, size: nat, input: bytes)
    requires size <= |input| && size < 0x100_0000 && (fits ==> size < SIZE_LIMIT)
    ensures Emits(fits, wanted, Line(SizeLine(size), [], size), input, [], [],
                  if size == 0 then Finished else Data(size), input)
  {
    if size < SIZE_LIMIT {
      SizeLineComplete(size);
      ReadSizeLine(size);
    }
  }

  /** The turn after some of a size line was sent. */
  function AfterLine(sent: bytes, due: bytes, size: nat): Turn
  {
    if due != [] then Line(sent, due, size) else if size == 0 then Finished else Data(size)
  }

  function AfterData(rest: nat): Turn { if rest > 0 then Data(rest) else Crlf([], CRLF) }

  function AfterCrlf(sent: bytes, due: bytes): Turn { if due != [] then Crlf(sent, due) else Boundary }

  lemma EmitsSomeLine(fits: bool, wanted: nat, t: Turn, out: bytes, due: bytes, input: bytes)
    requires t.Line? && t.due == out + due && t.size < 0x100_0000 && (fits ==> t.size < SIZE_LIMIT)
    requires WellFormed(t) && Backed(t, input)
    ensures Emits(fits, wanted, t, input, out, [], AfterLine(t.sent + out, due, t.size), input)
  {
    if due != [] {
      EmitsLine(fits, wanted, t.sent, out, due, t.size, input);
    } else {
      assert out + due == out;
      EmitsWholeLine(fits, wanted, t.sent, out, t.size, input);
    }
  }

  lemma EmitsSomeData(fits: bool, wanted: nat, t: Turn, data: bytes, input: bytes)
    requires t.Data? && |data| <= t.rest <= |data + input|
    ensures Emits(fits, wanted, t, data + input, data, data, AfterData(t.rest - |data|), input)
  {
    if |data| < t.rest {
      EmitsData(fits, wanted, t.rest, data, input);
    } else {
      EmitsAllData(fits, wanted, data, input);
    }
  }

  lemma EmitsSomeCrlf(fits: bool, wanted: nat, t: Turn, out: bytes, due: bytes, input: bytes)
    requires t.Crlf? && t.due == out + due && WellFormed(t)
    ensures Emits(fits, wanted, t, input, out, [], AfterCrlf(t.sent + out, due), input)
  {
    if due != [] {
      EmitsCrlf(fits, wanted, t.sent, out, due, input);
    } else {
      assert out + due == out;
      EmitsWholeCrlf(fits, wanted, t.sent, out, input);
    }
  }

  lemma EmitsWholeLine(fits: bool, wanted: nat, sent: bytes, due: bytes, size: nat, input: bytes)
    requires sent + due == SizeLine(size) && size <= |input| && size < 0x100_0000 && (fits ==> size < SIZE_LIMIT)
    ensures Emits(fits, wanted, Line(sent, due, size), input, due, [],
                  if size == 0 then Finished else Data(size), input)
  {
    assert due + [] == due;
    EmitsLine(fits, wanted, sent, due, [], size, input);
    EmitsLineDone(fits, wanted, size, input);
    EmitsOn(fits, wanted, Line(sent, due, size), input, due, [], Line(SizeLine(size), [], size), input,
            [], [], if size == 0 then Finished else Data(size), input);
  }

  lemma PendingDataOn(rest: nat, data: bytes, input: bytes, wanted: nat)
    requires |data| <= rest <= |data + input|
    ensures PendingData(rest, data + input, wanted) == data + PendingData(rest - |data|, input, wanted)
  {
    assert (data + input)[rest..] == input[rest - |data|..];
    assert (data + input)[..rest] == data + input[..rest - |data|];
    Assoc(data, input[..rest - |data|], CRLF);
    Assoc(data, input[..rest - |data|] + CRLF, Stream(input[rest - |data|..], wanted));
  }

  lemma EmitsData(fits: bool, wanted: nat, rest: nat, data: bytes, input: bytes)
    requires |data| <= rest <= |data + input|
    ensures Emits(fits, wanted, Data(rest), data + input, data, data, Data(rest - |data|), input)
  {
    assert Reads(Body(rest), data, Body(rest - |data|), data) by { ReadBody(rest, data); }
    assert Pending(Data(rest), data + input, wanted) == data + Pending(Data(rest - |data|), input, wanted) by {
      PendingDataOn(rest, data, input, wanted);
    }
  }

  lemma EmitsDataDone(fits: bool, wanted: nat, input: bytes)
    ensures Emits(fits, wanted, Data(0), input, [], [], Crlf([], CRLF), input)
  {
    assert input[..0] == [] && input[0..] == input;
  }

  lemma EmitsAllData(fits: bool, wanted: nat, data: bytes, input: bytes)
    ensures Emits(fits, wanted, Data(|data|), data + input, data, data, Crlf([], CRLF), input)
  {
    assert data + [] == data;
    EmitsData(fits, wanted, |data|, data, input);
    EmitsDataDone(fits, wanted, input);
    EmitsOn(fits, wanted, Data(|data|), data + input, data, data, Data(0), input, [], [], Crlf([], CRLF), input);
  }

  lemma EmitsCrlf(fits: bool, wanted: nat, sent: bytes, due: bytes, due': bytes, input: bytes)
    requires sent + (due + due') == CRLF
    ensures Emits(fits, wanted, Crlf(sent, due + due'), input, due, [], Crlf(sent + due, due'), input)
  {
    Assoc(sent, due, due');
    Assoc(due, due', Stream(input, wanted));
    ReadTwo(Body(0), CR, LF);
    ReadsPart(Body(0), sent, due, due');
  }

  lemma EmitsCrlfDone(fits: bool, wanted: nat, input: bytes)
    ensures Emits(fits, wanted, Crlf(CRLF, []), input, [], [], Boundary, input)
  {
    ReadTwo(Body(0), CR, LF);
  }

  lemma EmitsWholeCrlf(fits: bool, wanted: nat, sent: bytes, due: bytes, input: bytes)
    requires sent + due == CRLF
    ensures Emits(fits, wanted, Crlf(sent, due), input, due, [], Boundary, input)
  {
    assert due + [] == due;
    EmitsCrlf(fits, wanted, sent, due, [], input);
    EmitsCrlfDone(fits, wanted, input);
    EmitsOn(fits, wanted, Crlf(sent, due), input, due, [], Crlf(CRLF, []), input, [], [], Boundary, input);
  }

  /** The encoder refines the pure format: what it has written since it started on `payload` is
      a prefix of the whole chunked stream, and all of it, with the payload consumed, when it
      is done. */
  lemma RefinesChunked(wanted: nat, payload: bytes, out: bytes, used: bytes, t: Turn, input: bytes)
    requires 0 < wanted && Min(|payload|, wanted) < SIZE_LIMIT
    requires Emits(true, wanted, Boundary, payload, out, used, t, input)
    ensures Chunked(payload, wanted) == out + Pending(t, input, wanted)
    ensures t.Finished? ==> out == Chunked(payload, wanted) && used == payload
  {
    StreamIsChunked(payload, wanted);
    if t.Finished? {
      assert out + [] == out;
      DecodeChunked(payload, wanted);
    }
  }

  /** Where a call of the encoder may stop: something it has begun is still due, or all is done. */
  predicate Resting(t: Turn) { !t.Boundary? && (t.Line? || t.Crlf? ==> t.due != []) }

  /** The whole rest of the message is on its way when no more than the zero line is missing. */
  lemma PendingLength(t: Turn, input: bytes, wanted: nat)
    requires Backed(t, input) && WellFormed(t)
    ensures |Stream(input, wanted)| >= 3
    ensures Ended(t) ==> |Pending(t, input, wanted)| <= 3
    ensures !Ended(t) && Resting(t) ==> |Pending(t, input, wanted)| > 3
    ensures Pending(t, input, wanted) == [] && Resting(t) ==> t.Finished?
  {
    StreamLength(input, wanted);
    if t.Data? || (t.Line? && t.size > 0) {
      var rest := if t.Data? then t.rest else t.size;
      StreamLength(input[rest..], wanted);
    }
  }

  lemma StreamLength(payload: bytes, wanted: nat)
    ensures |Stream(payload, wanted)| >= 3
  {
    SizeLineComplete(0);
  }

  /** Exactly when a call of the encoder that has written what there was room for ends the
      message: when what was pending went into the room, but for the zero line. */
  lemma EndsWhen(fits: bool, wanted: nat, room: nat, t: Turn, input: bytes, out: bytes, used: bytes, t': Turn,
                 input': bytes)
    requires Emits(fits, wanted, t, input, out, used, t', input') && Resting(t')
    requires |out| == Min(|Pending(t, input, wanted)|, room)
    ensures Ended(t') <==> |Pending(t, input, wanted)| <= room + 3
  {
    PendingLength(t', input', wanted);
  }

  // ---- When the encoder fails ----

  /** A size whose line is longer than eight characters, or negative. */
  predicate Unprintable(size: int) { !(0 <= size < 0x100_0000) }

  /** At a boundary, where the next chunk has `size` bytes: the size cannot be printed, or its line
      goes out, and the stage before is flagged empty though the data is there. */
  predicate FailsAt(inEmpty: bool, size: int, room: nat)
  {
    Unprintable(size) || (inEmpty && size > 0 && |SizeLine(size)| <= room)
  }

  /** Exactly when a call of the encoder fails, from turn `t` on, where the stage before says
      `inEmpty`: it comes, within the room of its output, to chunk data although that stage is
      flagged empty, or to a boundary whose chunk is too big. */
  predicate Fails(inEmpty: bool, wanted: int, t: Turn, input: bytes, room: nat)
    requires Backed(t, input)
  {
    match t
    case Boundary => FailsAt(inEmpty, Min(|input|, wanted), room)
    case Line(_, due, size) =>
      size > 0
      && if inEmpty then |due| <= room else |due| + size + 2 <= room && Unprintable(Min(|input| - size, wanted))
    case Data(rest) => inEmpty || (rest + 2 <= room && Unprintable(Min(|input| - rest, wanted)))
    case Crlf(_, due) => |due| <= room && FailsAt(inEmpty, Min(|input|, wanted), room - |due|)
    case Finished => false
  }

  lemma FailsBoundary(inEmpty: bool, wanted: int, input: bytes, room: nat)
    requires !Unprintable(Min(|input|, wanted))
    ensures var n := Min(|input|, wanted);
            Fails(inEmpty, wanted, Boundary, input, room)
            == Fails(inEmpty, wanted, Line([], SizeLine(n), n), input, room)
  {
  }

  /** Sending some of a line decides nothing, unless the room runs out. */
  lemma FailsSomeLine(inEmpty: bool, wanted: int, t: Turn, out: bytes, due: bytes, input: bytes, room: nat)
    requires t.Line? && t.due == out + due && Backed(t, input) && |out| <= room && (due == [] || |out| == room)
    ensures var t' := AfterLine(t.sent + out, due, t.size);
            Fails(inEmpty, wanted, t, input, room)
            == (!t'.Line? && Fails(inEmpty, wanted, t', input, room - |out|))
  {
  }

  lemma FailsSomeData(wanted: int, t: Turn, data: bytes, input: bytes, room: nat)
    requires t.Data? && |data| <= t.rest <= |data + input| && |data| <= room && (|data| == t.rest || |data| == room)
    ensures var t' := AfterData(t.rest - |data|);
            Fails(false, wanted, t, data + input, room)
            == (!t'.Data? && Fails(false, wanted, t', input, room - |data|))
  {
  }

  lemma FailsSomeCrlf(inEmpty: bool, wanted: int, t: Turn, out: bytes, due: bytes, input: bytes, room: nat)
    requires t.Crlf? && t.due == out + due && |out| <= room && (due == [] || |out| == room)
    ensures var t' := AfterCrlf(t.sent + out, due);
            Fails(inEmpty, wanted, t, input, room)
            == (!t'.Crlf? && Fails(inEmpty, wanted, t', input, room - |out|))
  {
  }

  /** Where the stage before is flagged empty only when it is, and the sizes fit, nothing fails. */
  lemma FailsNever(inEmpty: bool, wanted: int, t: Turn, input: bytes, room: nat)
    requires Backed(t, input) && (t.Data? ==> t.rest > 0) && (inEmpty ==> input == [])
    requires 0 <= wanted && Min(|input|, wanted) < 0x100_0000
    ensures !Fails(inEmpty, wanted, t, input, room)
  {
  }

  /** For one: a stage that is flagged empty over bytes it still holds, as a chunk decoder is at the
      end of its message, makes an encoder behind it fail, once the size line is out. */
  lemma FailsBehindFlag(wanted: int, input: bytes, room: nat)
    requires input != [] && 0 < wanted && Min(|input|, wanted) < 0x100_0000 && room >= MAX_CHUNK_SIZE_LENGTH
    ensures Fails(true, wanted, Boundary, input, room)
  {
    HexLength(Min(|input|, wanted));
  }

  lemma SliceOn(chars: bytes, from: nat, to: nat, out: bytes, rest: bytes)
    requires from <= to <= |chars| && chars[from..to] == out + rest
    ensures chars[..from + |out|] == chars[..from] + out
    ensures chars[from + |out|..to] == rest
  {
    assert out == chars[from..to][..|out|] == chars[from..from + |out|];
    assert rest == chars[from..to][|out|..];
  }

  class Encoder {
    const wanted: int
    var chunkState: ChunkState
    var chunkSize: int
    var currentLength: int
    var currentChunkOffset: int
    const currentChunkChars: array<byte>
    /** The characters at hand: those sent and those still due. */
    ghost var sent: bytes
    ghost var due: bytes

    ghost predicate CharsValid()
      reads this, currentChunkChars
    {
      && currentChunkChars.Length == MAX_CHUNK_SIZE_LENGTH
      && 0 <= currentChunkOffset <= currentLength <= MAX_CHUNK_SIZE_LENGTH
      && sent == currentChunkChars[..currentChunkOffset]
      && due == currentChunkChars[currentChunkOffset..currentLength]
    }

    ghost predicate Valid()
      reads this, currentChunkChars
    {
      && currentChunkChars.Length == MAX_CHUNK_SIZE_LENGTH
      && (chunkState.SizeHex? ==>
            CharsValid() && due != [] && 0 <= chunkSize < 0x100_0000 && sent + due == SizeLine(chunkSize))
      && (chunkState.ChunkData? ==> 0 <= currentChunkOffset < currentLength == chunkSize)
      && (chunkState.PostDataCr? ==> CharsValid() && due != [] && sent + due == CRLF)
    }

    ghost function Turn(): Turn
      requires Valid()
      reads this, currentChunkChars
    {
      match chunkState
      case DetermineSize => Boundary
      case SizeHex => Line(sent, due, chunkSize)
      case ChunkData => Data(currentLength - currentChunkOffset)
      case PostDataCr => Crlf(sent, due)
      case Done => Finished
    }

    /** A negative wanted size never gets past the first boundary. */
    function Wanted(): nat { if wanted < 0 then 0 else wanted }

    /** Every chunk this encoder may yet cut from `inBuff` fits its size line. */
    ghost predicate Fits(inBuff: PushPullBuffer)
      requires Valid()
      reads this, currentChunkChars
    {
      && Min(inBuff.buff.Length, wanted) < SIZE_LIMIT
      && (Turn().Line? ==> chunkSize < SIZE_LIMIT)
    }

    /** _create_encode_chunk: without a wanted size, what fits the stage's buffer with its frame. */
    constructor (initialSize: int, outSize: nat)
      ensures Valid() && Turn() == Boundary
      ensures wanted == if initialSize == 0 then outSize - 16 else initialSize
      ensures fresh(currentChunkChars)
    {
      wanted := if initialSize == 0 then outSize - 16 else initialSize;
      chunkState := DetermineSize;
      chunkSize, currentLength, currentChunkOffset := 0, 0, 0;
      currentChunkChars := new byte[MAX_CHUNK_SIZE_LENGTH];
    }

    ghost predicate Ready(inBuff: PushPullBuffer, outBuff: PushPullBuffer)
      reads this, currentChunkChars, inBuff, inBuff.buff, outBuff
    {
      && Valid() && inBuff.Valid() && outBuff.Valid()
      && inBuff != outBuff && inBuff.buff != outBuff.buff
      && currentChunkChars != inBuff.buff && currentChunkChars != outBuff.buff
      && Backed(Turn(), inBuff.Contents())
    }

    /** A call fails. */
    ghost predicate WouldFail(inEmpty: bool, inBuff: PushPullBuffer, outBuff: PushPullBuffer)
      requires Ready(inBuff, outBuff)
      reads this, currentChunkChars, inBuff, inBuff.buff, outBuff
    {
      Fails(inEmpty, wanted, Turn(), inBuff.Contents(), outBuff.Room())
    }

    twostate predicate Appended(outBuff: PushPullBuffer, out: bytes)
      reads outBuff, outBuff.buff
    {
      && old(outBuff.Valid()) && outBuff.Valid()
      && outBuff.Contents() == old(outBuff.Contents()) + out
      && outBuff.Room() == old(outBuff.Room()) - |out|
      && (old(outBuff.Settled()) ==> outBuff.Settled())
    }

    twostate predicate Consumed(inBuff: PushPullBuffer, used: bytes)
      reads inBuff, inBuff.buff
    {
      && old(inBuff.Valid()) && inBuff.Valid()
      && old(inBuff.Contents()) == used + inBuff.Contents()
      && inBuff.Room() >= old(inBuff.Room())
      && (old(inBuff.Settled()) ==> inBuff.Settled())
    }

    /** CHUNK_DETERMINE_SIZE: prints the next size line, unless its size cannot be printed. */
    method PrintSize(inBuff: PushPullBuffer) returns (ok: bool)
      requires Valid() && inBuff.Valid() && chunkState.DetermineSize? && currentChunkChars != inBuff.buff
      modifies this, currentChunkChars
      ensures Valid()
      ensures ok == (0 <= Min(inBuff.DataSize(), wanted) < 0x100_0000)
      ensures !ok ==> chunkState.DetermineSize?
      ensures ok ==> var n := Min(inBuff.DataSize(), wanted); Turn() == Line([], SizeLine(n), n)
    {
      var nextChunkSize := if inBuff.DataSize() < wanted then inBuff.DataSize() else wanted;
      // "%x" of a negative int32_t has eight digits
      if nextChunkSize < 0 { return false; }
      HexLength(nextChunkSize);
      var printed := Hex(nextChunkSize) + CRLF;
      if |printed| > MAX_CHUNK_SIZE_LENGTH { return false; }
      var line := SizeLine(nextChunkSize);
      forall i | 0 <= i < |line| {
        currentChunkChars[i] := line[i];
      }
      chunkSize := nextChunkSize;
      currentLength := |printed|;
      currentChunkOffset := 0;
      chunkState := SizeHex;
      sent, due := [], line;
      assert currentChunkChars[0..|line|] == line;
      return true;
    }

    /** Appends what is due of the characters at hand to the output. */
    method Push(outBuff: PushPullBuffer) returns (ghost out: bytes)
      requires CharsValid() && outBuff.Valid() && currentChunkChars != outBuff.buff
      modifies this`currentChunkOffset, this`sent, this`due, outBuff`readOffset, outBuff.buff
      ensures CharsValid() && Appended(outBuff, out)
      ensures sent == old(sent) + out && old(due) == out + due
      ensures due == [] || outBuff.Room() == 0
    {
      var chars := currentChunkChars[..];
      var n;
      ghost var rest;
      n, out, rest := outBuff.ReadFromBuffer(chars[currentChunkOffset..currentLength]);
      ghost var from := currentChunkOffset;
      currentChunkOffset := currentChunkOffset + n;
      sent, due := sent + out, rest;
      assert currentChunkChars[..] == chars;
      SliceOn(chars, from, currentLength, out, rest);
    }

    /** CHUNK_SIZE_HEX. */
    method SendLine(outBuff: PushPullBuffer) returns (ghost out: bytes)
      requires Valid() && outBuff.Valid() && currentChunkChars != outBuff.buff && chunkState.SizeHex?
      modifies this, outBuff`readOffset, outBuff.buff
      ensures Valid() && Appended(outBuff, out)
      ensures old(due) == out + due
      ensures Turn() == AfterLine(old(sent) + out, due, old(chunkSize))
      ensures if chunkState.SizeHex? then outBuff.Room() == 0 else out != []
    {
      out := Push(outBuff);
      Assoc(old(sent), out, due);
      if currentLength - currentChunkOffset > 0 { return; }
      if chunkSize == 0 {
        chunkState := Done;
      } else {
        currentChunkOffset := 0;
        currentLength := chunkSize;
        chunkState := ChunkData;
      }
    }

    /** CHUNK_DATA, once the stage before is known not to be empty. */
    method SendData(inBuff: PushPullBuffer, outBuff: PushPullBuffer) returns (ghost out: bytes)
      requires Ready(inBuff, outBuff) && chunkState.ChunkData?
      modifies this, currentChunkChars, inBuff`readOffset, inBuff`writeOffset, outBuff`readOffset, outBuff.buff
      ensures Valid() && Appended(outBuff, out) && Consumed(inBuff, out) && |out| <= old(Turn()).rest
      ensures Turn() == AfterData(old(Turn()).rest - |out|)
      ensures chunkState.ChunkData? ==> outBuff.Room() == 0
      ensures !chunkState.ChunkData? ==> out != []
    {
      var n;
      n, out := MoveBufferExplicit(inBuff, outBuff, currentLength - currentChunkOffset);
      currentChunkOffset := currentChunkOffset + n;
      if currentLength - currentChunkOffset > 0 { return; }
      StartCrlf();
    }

    method StartCrlf()
      requires currentChunkChars.Length == MAX_CHUNK_SIZE_LENGTH
      modifies this, currentChunkChars
      ensures Valid() && chunkState.PostDataCr? && Turn() == Crlf([], CRLF)
    {
      currentLength := 2;
      currentChunkOffset := 0;
      currentChunkChars[0] := CR;
      currentChunkChars[1] := LF;
      chunkState := PostDataCr;
      sent, due := [], CRLF;
      assert currentChunkChars[0..2] == CRLF;
    }

    /** CHUNK_POST_DATA_CR. */
    method SendCrlf(outBuff: PushPullBuffer) returns (ghost out: bytes)
      requires Valid() && outBuff.Valid() && currentChunkChars != outBuff.buff && chunkState.PostDataCr?
      modifies this, outBuff`readOffset, outBuff.buff
      ensures Valid() && Appended(outBuff, out)
      ensures old(due) == out + due
      ensures Turn() == AfterCrlf(old(sent) + out, due)
      ensures if chunkState.PostDataCr? then outBuff.Room() == 0 else out != []
    {
      out := Push(outBuff);
      Assoc(old(sent), out, due);
      if currentLength - currentChunkOffset > 0 { return; }
      currentChunkOffset := 0;
      currentLength := chunkSize;
      chunkState := DetermineSize;
    }

    method AdvanceBoundary(inBuff: PushPullBuffer, outBuff: PushPullBuffer, ghost inEmpty: bool, ghost fits: bool)
        returns (ok: bool)
      requires Ready(inBuff, outBuff) && chunkState.DetermineSize? && (fits ==> Fits(inBuff))
      modifies this, currentChunkChars
      ensures Ready(inBuff, outBuff) && (fits ==> Fits(inBuff))
      ensures Emits(fits, Wanted(), Boundary, inBuff.Contents(), [], [], Turn(), inBuff.Contents())
      ensures if ok then chunkState.SizeHex? else chunkState.DetermineSize?
      ensures old(WouldFail(inEmpty, inBuff, outBuff)) == (!ok || WouldFail(inEmpty, inBuff, outBuff))
    {
      EmitsNothing(fits, Wanted(), Boundary, inBuff.Contents());
      EmitsBoundary(fits, Wanted(), inBuff.Contents());
      ok := PrintSize(inBuff);
      if ok { FailsBoundary(inEmpty, wanted, inBuff.Contents(), outBuff.Room()); }
    }

    method AdvanceLine(inBuff: PushPullBuffer, outBuff: PushPullBuffer, ghost inEmpty: bool, ghost fits: bool)
        returns (ghost out: bytes, ghost used: bytes)
      requires Ready(inBuff, outBuff) && chunkState.SizeHex? && (fits ==> Fits(inBuff))
      modifies this, currentChunkChars, inBuff`readOffset, inBuff`writeOffset, outBuff`readOffset, outBuff.buff
      ensures Ready(inBuff, outBuff) && Appended(outBuff, out) && Consumed(inBuff, used) && (fits ==> Fits(inBuff))
      ensures Emits(fits, Wanted(), old(Turn()), old(inBuff.Contents()), out, used, Turn(), inBuff.Contents())
      ensures if chunkState.SizeHex? then outBuff.Room() == 0 else out != []
      ensures old(WouldFail(inEmpty, inBuff, outBuff))
              == (!chunkState.SizeHex? && WouldFail(inEmpty, inBuff, outBuff))
    {
      ghost var turn, input, room := Turn(), inBuff.Contents(), outBuff.Room();
      used := [];
      out := SendLine(outBuff);
      EmitsSomeLine(fits, Wanted(), turn, out, due, input);
      FailsSomeLine(inEmpty, wanted, turn, out, due, input, room);
    }

    method AdvanceData(inBuff: PushPullBuffer, outBuff: PushPullBuffer, ghost fits: bool)
        returns (ghost out: bytes, ghost used: bytes)
      requires Ready(inBuff, outBuff) && chunkState.ChunkData? && (fits ==> Fits(inBuff))
      modifies this, currentChunkChars, inBuff`readOffset, inBuff`writeOffset, outBuff`readOffset, outBuff.buff
      ensures Ready(inBuff, outBuff) && Appended(outBuff, out) && Consumed(inBuff, used) && (fits ==> Fits(inBuff))
      ensures Emits(fits, Wanted(), old(Turn()), old(inBuff.Contents()), out, used, Turn(), inBuff.Contents())
      ensures if chunkState.ChunkData? then outBuff.Room() == 0 else out != []
      ensures old(WouldFail(false, inBuff, outBuff))
              == (!chunkState.ChunkData? && WouldFail(false, inBuff, outBuff))
    {
      ghost var turn, room := Turn(), outBuff.Room();
      out := SendData(inBuff, outBuff);
      used := out;
      EmitsSomeData(fits, Wanted(), turn, out, inBuff.Contents());
      FailsSomeData(wanted, turn, out, inBuff.Contents(), room);
    }

    method AdvanceCrlf(inBuff: PushPullBuffer, outBuff: PushPullBuffer, ghost inEmpty: bool, ghost fits: bool)
        returns (ghost out: bytes, ghost used: bytes)
      requires Ready(inBuff, outBuff) && chunkState.PostDataCr? && (fits ==> Fits(inBuff))
      modifies this, currentChunkChars, inBuff`readOffset, inBuff`writeOffset, outBuff`readOffset, outBuff.buff
      ensures Ready(inBuff, outBuff) && Appended(outBuff, out) && Consumed(inBuff, used) && (fits ==> Fits(inBuff))
      ensures Emits(fits, Wanted(), old(Turn()), old(inBuff.Contents()), out, used, Turn(), inBuff.Contents())
      ensures if chunkState.PostDataCr? then outBuff.Room() == 0 else out != []
      ensures old(WouldFail(inEmpty, inBuff, outBuff))
              == (!chunkState.PostDataCr? && WouldFail(inEmpty, inBuff, outBuff))
    {
      ghost var turn, input, room := Turn(), inBuff.Contents(), outBuff.Room();
      used := [];
      out := SendCrlf(outBuff);
      EmitsSomeCrlf(fits, Wanted(), turn, out, due, input);
      FailsSomeCrlf(inEmpty, wanted, turn, out, due, input, room);
    }

    /** One state of the machine. `stuck` says the call is over: the output is full, or the
        message is finished; `moved` is negative when the stage fails. */
    method Advance(inBuff: PushPullBuffer, outBuff: PushPullBuffer, inEmpty: bool, ghost fits: bool)
      returns (moved: int, stuck: bool, ghost out: bytes, ghost used: bytes)
      requires Ready(inBuff, outBuff) && (fits ==> Fits(inBuff))
      modifies this, currentChunkChars, inBuff`readOffset, inBuff`writeOffset, outBuff`readOffset, outBuff.buff
      ensures Ready(inBuff, outBuff) && Appended(outBuff, out) && Consumed(inBuff, used) && (fits ==> Fits(inBuff))
      ensures Emits(fits, Wanted(), old(Turn()), old(inBuff.Contents()), out, used, Turn(), inBuff.Contents())
      ensures moved >= 0 ==> moved == |out|
      ensures moved < 0 ==> chunkState.ChunkData? || chunkState.DetermineSize?
      ensures moved < 0 ==> stuck
      ensures old(WouldFail(inEmpty, inBuff, outBuff))
              == (moved < 0 || (!stuck && WouldFail(inEmpty, inBuff, outBuff)))
      ensures stuck && moved >= 0 ==> !chunkState.DetermineSize? && (chunkState.Done? || outBuff.Room() == 0)
      ensures moved >= 0 && !stuck ==> out != [] || (old(chunkState.DetermineSize?) && !chunkState.DetermineSize?)
    {
      out, used, moved := [], [], 0;
      ghost var turn := Turn();
      EmitsNothing(fits, Wanted(), turn, inBuff.Contents());
      var before, state := outBuff.readOffset, chunkState;
      if state == ChunkState.DetermineSize {
        var ok := AdvanceBoundary(inBuff, outBuff, inEmpty, fits);
        moved := if ok then 0 else -1;
      } else if state == SizeHex {
        out, used := AdvanceLine(inBuff, outBuff, inEmpty, fits);
      } else if state == ChunkData && inEmpty {
        moved := -1;
      } else if state == ChunkData {
        out, used := AdvanceData(inBuff, outBuff, fits);
      } else if state == PostDataCr {
        out, used := AdvanceCrlf(inBuff, outBuff, inEmpty, fits);
      }
      stuck := moved < 0 || state == chunkState;
      if moved == 0 {
        moved := outBuff.readOffset - before;
      }
    }

    /** A state, added to those before it: `sent` is what the output held before all of them. */
    method Again(inBuff: PushPullBuffer, outBuff: PushPullBuffer, inEmpty: bool, ghost fits: bool, ghost fails: bool,
                 ghost start: Turn, ghost input: bytes, ghost sent: bytes, ghost out: bytes, ghost used: bytes)
        returns (moved: int, stuck: bool, ghost out': bytes, ghost used': bytes)
      requires Ready(inBuff, outBuff) && (fits ==> Fits(inBuff)) && outBuff.Contents() == sent + out
      requires fails == WouldFail(inEmpty, inBuff, outBuff)
      requires Emits(fits, Wanted(), start, input, out, used, Turn(), inBuff.Contents())
      modifies this, currentChunkChars, inBuff`readOffset, inBuff`writeOffset, outBuff`readOffset, outBuff.buff
      ensures Ready(inBuff, outBuff) && (fits ==> Fits(inBuff)) && outBuff.Contents() == sent + out'
      ensures Emits(fits, Wanted(), start, input, out', used', Turn(), inBuff.Contents())
      ensures outBuff.Room() + |out'| == old(outBuff.Room()) + |out| && inBuff.Room() >= old(inBuff.Room())
      ensures (old(inBuff.Settled()) ==> inBuff.Settled()) && (old(outBuff.Settled()) ==> outBuff.Settled())
      ensures moved >= 0 ==> moved + |out| == |out'|
      ensures moved < 0 ==> chunkState.ChunkData? || chunkState.DetermineSize?
      ensures moved < 0 ==> stuck
      ensures fails == (moved < 0 || (!stuck && WouldFail(inEmpty, inBuff, outBuff)))
      ensures stuck && moved >= 0 ==> !chunkState.DetermineSize? && (chunkState.Done? || outBuff.Room() == 0)
      ensures moved >= 0 && !stuck ==>
                outBuff.Room() < old(outBuff.Room())
                || (outBuff.Room() == old(outBuff.Room()) && old(chunkState.DetermineSize?) &&
                  !chunkState.DetermineSize?)
    {
      ghost var here, data := Turn(), inBuff.Contents();
      ghost var more, took;
      moved, stuck, more, took := Advance(inBuff, outBuff, inEmpty, fits);
      EmitsOn(fits, Wanted(), start, input, out, used, here, data, more, took, Turn(), inBuff.Contents());
      Assoc(sent, out, more);
      out', used' := out + more, used + took;
    }

    /** The loop; `fits` says that the sizes to come fit their lines. */
    method Loop(inBuff: PushPullBuffer, outBuff: PushPullBuffer, inEmpty: bool, ghost fits: bool, ghost fails: bool,
                ghost start: Turn, ghost input: bytes, ghost sent: bytes)
        returns (moved: int, ghost out: bytes, ghost used: bytes)
      requires Ready(inBuff, outBuff) && (fits ==> Fits(inBuff))
      requires start == Turn() && input == inBuff.Contents() && sent == outBuff.Contents()
      requires fails == WouldFail(inEmpty, inBuff, outBuff)
      modifies this, currentChunkChars, inBuff`readOffset, inBuff`writeOffset, outBuff`readOffset, outBuff.buff
      ensures Ready(inBuff, outBuff) && (fits ==> Fits(inBuff)) && outBuff.Contents() == sent + out
      ensures Emits(fits, Wanted(), start, input, out, used, Turn(), inBuff.Contents())
      ensures outBuff.Room() + |out| == old(outBuff.Room()) && inBuff.Room() >= old(inBuff.Room())
      ensures (old(inBuff.Settled()) ==> inBuff.Settled()) && (old(outBuff.Settled()) ==> outBuff.Settled())
      ensures moved >= 0 ==> moved == |out| && !chunkState.DetermineSize? && (chunkState.Done? || outBuff.Room() == 0)
      ensures moved < 0 ==> chunkState.ChunkData? || chunkState.DetermineSize?
      ensures moved < 0 <==> fails
    {
      moved, out, used := 0, [], [];
      EmitsNothing(fits, Wanted(), start, input);
      while true
        invariant Ready(inBuff, outBuff) && (fits ==> Fits(inBuff)) && outBuff.Contents() == sent + out
        invariant Emits(fits, Wanted(), start, input, out, used, Turn(), inBuff.Contents())
        invariant outBuff.Room() + |out| == old(outBuff.Room()) && inBuff.Room() >= old(inBuff.Room())
        invariant (old(inBuff.Settled()) ==> inBuff.Settled()) && (old(outBuff.Settled()) ==> outBuff.Settled())
        invariant moved == |out| && fails == WouldFail(inEmpty, inBuff, outBuff)
        decreases outBuff.Room(), if chunkState.DetermineSize? then 1 else 0
      {
        var m, stuck;
        m, stuck, out, used := Again(inBuff, outBuff, inEmpty, fits, fails, start, input, sent, out, used);
        moved := if m < 0 then -1 else moved + m;
        if stuck { return; }
      }
    }

    /** _encode_chunk. At every suspension the bytes written so far and those still pending make
        up the same stream; a decoder that reads what was written finds exactly the bytes
        consumed; and a call stops only when the message is finished or the output is full.

        It fails exactly when, within the room of its output, it comes to a size that cannot be
        printed, or to chunk data although the stage before is flagged empty. */
    method Process(inBuff: PushPullBuffer, outBuff: PushPullBuffer, inEmpty: bool)
        returns (moved: int, ghost out: bytes, ghost used: bytes)
      requires Ready(inBuff, outBuff)
      modifies this, currentChunkChars, inBuff`readOffset, inBuff`writeOffset, outBuff`readOffset, outBuff.buff
      ensures Ready(inBuff, outBuff) && Appended(outBuff, out) && Consumed(inBuff, used)
      ensures Emits(old(Fits(inBuff)), Wanted(), old(Turn()), old(inBuff.Contents()), out, used, Turn(),
                    inBuff.Contents())
      ensures old(Fits(inBuff)) ==> Fits(inBuff)
      ensures moved >= 0 ==> moved == |out|
      ensures moved >= 0 ==> !chunkState.DetermineSize? && (chunkState.Done? || outBuff.Room() == 0)
      ensures moved < 0 ==> chunkState.ChunkData? || chunkState.DetermineSize?
      ensures moved < 0 <==> Fails(inEmpty, wanted, old(Turn()), old(inBuff.Contents()), old(outBuff.Room()))
    {
      moved, out, used :=
        Loop(inBuff, outBuff, inEmpty, Fits(inBuff), WouldFail(inEmpty, inBuff, outBuff), Turn(), inBuff.Contents(),
             outBuff.Contents());
    }
  }
}
