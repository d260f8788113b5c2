/** The decode and copy stages of src/http.c: one resumable state machine that either strips
    the chunk format (decode) or passes the message through and stops at its end (copy). */
module ChunkDecoder {
  import opened Bytes
  import opened ChunkFormat
  import opened PushPull

  datatype ChunkState = SizeHex | PostSizeCr | ChunkData | PostDataCr

  /** A wrong byte at a fixed place of the format spoils the stream. */
  lemma Rejected(p: Phase, data: bytes)
    requires |data| > 0 && Next(p, data[0]).Malformed?
    ensures Reads(p, data, Malformed, [])
  {
    assert data == [data[0]] + data[1..];
    ReadOne(p, data[0]);
    RejectedOn(p, [data[0]], data[1..]);
  }

  lemma RejectedOn(p: Phase, s: bytes, rest: bytes)
    requires Reads(p, s, Malformed, [])
    ensures Reads(p, s + rest, Malformed, [])
  {
    Split(p, s, rest);
    ReadStopped(Malformed, rest);
  }

  /** Where a decoding stage with less room than payload comes to: inside the input, its output
      full and more chunk data next. */
  lemma {:induction false} SpinPoint(p: Phase, data: bytes, room: nat) returns (i: nat)
    requires |Decoded(p, data)| > room
    ensures i < |data| && |Decoded(p, data[..i])| == room
    ensures After(p, data[..i]).Body? && After(p, data[..i]).rest > 0
    decreases |data|
  {
    if p.Body? && p.rest > 0 && room == 0 {
      i := 0;
    } else {
      var passes := p.Body? && p.rest > 0;
      i := SpinPoint(Next(p, data[0]), data[1..], if passes then room - 1 else room);
      assert data[..i + 1][0] == data[0] && data[..i + 1][1..] == data[1..][..i];
      i := i + 1;
    }
  }

  /** Of the input `before` a stage has read `s` and passed `passed`; in phase `q` it still has
      `left` before it. */
  ghost predicate SoFar(copyAll: bool, start: Phase, before: bytes, s: bytes, q: Phase, passed: bytes, left: bytes)
  {
    && Passes(copyAll, start, s, q, passed)
    && before == s + left && After(start, before) == After(q, left)
    && (!copyAll ==> Decoded(start, before) == passed + Decoded(q, left))
  }

  /** What a turn of the loop adds to that. */
  lemma TurnAdds(copyAll: bool, start: Phase, before: bytes, s: bytes, here: Phase, passed: bytes, left: bytes,
                 s': bytes, q: Phase, passed': bytes, left': bytes)
    requires SoFar(copyAll, start, before, s, here, passed, left)
    requires Passes(copyAll, here, s', q, passed') && left == s' + left'
    ensures SoFar(copyAll, start, before, s + s', q, passed + passed', left')
  {
    PassesOn(copyAll, start, s, here, passed, s', q, passed');
    Split(here, s', left');
    Assoc(s, s', left');
    if !copyAll { Assoc(passed, passed', Decoded(q, left')); }
  }

  /** Where the loop of a decoding stage stops there was room for all payload, where it spins there
      was not: `room` is what is left of it. */
  lemma StopsOrSpins(copyAll: bool, start: Phase, before: bytes, s: bytes, q: Phase, passed: bytes, left: bytes,
                     room: nat)
    requires SoFar(copyAll, start, before, s, q, passed, left) && !copyAll
    ensures left == [] || q.End? || Reads(q, left, Malformed, []) ==> |Decoded(start, before)| <= |passed| + room
    ensures left != [] && q.Body? && q.rest > 0 && room == 0 ==> |Decoded(start, before)| > |passed| + room
  {
    if q.End? { ReadStopped(q, left); }
  }

  class Decoder {
    const copyAll: bool
    var chunkState: ChunkState
    var accumulator: int
    var currentChunkOffset: int
    var empty: bool // CS_PIPE_STATUS_EMPTY of the stage

    ghost predicate Valid()
      reads this
    {
      && 0 <= currentChunkOffset <= accumulator <= INT_MAX
      && (chunkState.SizeHex? || chunkState.PostSizeCr? ==> currentChunkOffset == 0 && !empty)
      && (chunkState.ChunkData? ==> (empty <==> accumulator == 0))
      && (chunkState.PostDataCr? ==> !empty)
    }

    ghost function Phase(): Phase
      requires Valid()
      reads this
    {
      match chunkState
      case SizeHex => Size(accumulator)
      case PostSizeCr => SizeCr(accumulator)
      case ChunkData => if empty then End else Body(accumulator - currentChunkOffset)
      case PostDataCr => BodyCr
    }

    constructor (copyAll: bool)
      ensures Valid() && !empty && Phase() == Size(0) && this.copyAll == copyAll
    {
      this.copyAll := copyAll;
      chunkState := SizeHex;
      accumulator, currentChunkOffset := 0, 0;
      empty := false;
    }

    /** The stage may run: its loop cannot meet a size too big for an int32_t. */
    ghost predicate Ready(inBuff: PushPullBuffer, outBuff: PushPullBuffer)
      reads this, inBuff, inBuff.buff, outBuff
    {
      && Valid() && !empty
      && inBuff.Valid() && outBuff.Valid() && inBuff != outBuff && inBuff.buff != outBuff.buff
      && After(Phase(), inBuff.Contents()) != Overflow
    }

    /** Chunk data is next and the output is full. The loop of a decoding stage goes on as long
        as there is input; here its turns change nothing. */
    ghost predicate Spinning(outBuff: PushPullBuffer)
      reads this, outBuff
    {
      Valid() && !copyAll && Phase().Body? && Phase().rest > 0 && outBuff.Room() == 0
    }

    /** The stage has taken `s` from its input and appended `passed` to its output. */
    twostate predicate Moved(inBuff: PushPullBuffer, outBuff: PushPullBuffer, s: bytes, passed: bytes)
      reads inBuff, inBuff.buff, outBuff, outBuff.buff
    {
      && old(inBuff.Valid() && outBuff.Valid())
      && inBuff.Valid() && outBuff.Valid()
      && old(inBuff.Contents()) == s + inBuff.Contents()
      && outBuff.Contents() == old(outBuff.Contents()) + passed
      && outBuff.Room() == old(outBuff.Room()) - |passed|
      && inBuff.Room() >= old(inBuff.Room())
      && (old(inBuff.Settled()) ==> inBuff.Settled())
      && (old(outBuff.Settled()) ==> outBuff.Settled())
    }

    /** The size digits at the head of the data, up to and including the CR, as far as the
        room in a copying stage allows: how many there are, -1 for a bad digit. */
    method ScanSize(data: bytes, left: int) returns (n: int, acc: int, sawCr: bool)
      requires Valid() && chunkState.SizeHex?
      requires |data| > 0 && left > 0
      requires After(Phase(), data) != Overflow
      ensures n == -1 ==> Reads(Phase(), data, Malformed, [])
      ensures n != -1 ==> 0 < n <= |data| && (copyAll ==> n <= left) && 0 <= acc <= INT_MAX
      ensures n != -1 ==> Reads(Phase(), data[..n], if sawCr then SizeCr(acc) else Size(acc), [])
    {
      var leftInDestination := left;
      n, acc, sawCr := 0, accumulator, false;
      while n < |data| && leftInDestination > 0
        invariant 0 <= n <= |data| && 0 <= leftInDestination <= left
        invariant copyAll ==> n + leftInDestination == left
        invariant !copyAll ==> leftInDestination == left
        invariant 0 <= acc <= INT_MAX
        invariant Reads(Phase(), data[..n], Size(acc), [])
      {
        ReadSnoc(Phase(), data, n);
        ReadOne(Size(acc), data[n]);
        if data[n] == CR {
          n, sawCr := n + 1, true;
          return;
        }
        var currentNibble := HexDigitToInt(data[n]);
        if currentNibble < 0 {
          RejectedOn(Phase(), data[..n + 1], data[n + 1..]);
          assert data == data[..n + 1] + data[n + 1..];
          return -1, acc, false;
        }
        if acc * 16 + currentNibble > INT_MAX {
          StoppedByPrefix(Phase(), data, n + 1);
          assert false;
        }
        acc := acc * 16 + currentNibble;
        n := n + 1;
        if copyAll { leftInDestination := leftInDestination - 1; }
      }
    }

    /** Moves `n` bytes of format (not chunk data) on: a copying stage passes them, a decoding
        stage swallows them. */
    method Take(inBuff: PushPullBuffer, outBuff: PushPullBuffer, n: nat)
        returns (moved: nat, ghost s: bytes, ghost passed: bytes)
      requires inBuff.Valid() && outBuff.Valid() && inBuff != outBuff && inBuff.buff != outBuff.buff
      requires n <= |inBuff.Contents()| && (copyAll ==> n <= outBuff.Room())
      modifies inBuff`readOffset, inBuff`writeOffset, outBuff`readOffset, outBuff.buff
      ensures Moved(inBuff, outBuff, s, passed)
      ensures |s| == n && passed == if copyAll then s else []
      ensures moved == |passed|
    {
      if copyAll {
        moved, s := MoveBufferExplicit(inBuff, outBuff, n);
        passed := s;
      } else {
        s := inBuff.WriteToBuffer(n);
        moved, passed := 0, [];
      }
    }

    /** Moves chunk data on: as much of the rest of the chunk as both buffers allow. */
    method MoveData(inBuff: PushPullBuffer, outBuff: PushPullBuffer) returns (moved: nat, ghost s: bytes)
      requires Valid() && chunkState.ChunkData? && currentChunkOffset < accumulator
      requires inBuff.Valid() && outBuff.Valid() && inBuff != outBuff && inBuff.buff != outBuff.buff
      modifies this`currentChunkOffset, inBuff`readOffset, inBuff`writeOffset, outBuff`readOffset, outBuff.buff
      ensures Valid() && Moved(inBuff, outBuff, s, s)
      ensures |s| <= old(Phase()).rest && Phase() == Body(old(Phase()).rest - |s|)
      ensures moved == |s|
      ensures s == [] ==> old(inBuff.DataSize()) == 0 || old(outBuff.Room()) == 0
    {
      moved, s := MoveBufferExplicit(inBuff, outBuff, accumulator - currentChunkOffset);
      currentChunkOffset := currentChunkOffset + moved;
    }

    /** CHUNK_SIZE_HEX. */
    method ReadSize(inBuff: PushPullBuffer, outBuff: PushPullBuffer)
        returns (moved: int, ghost s: bytes, ghost passed: bytes)
      requires Ready(inBuff, outBuff) && chunkState.SizeHex?
      requires inBuff.DataSize() > 0 && (copyAll ==> outBuff.Room() > 0)
      modifies this, inBuff`readOffset, inBuff`writeOffset, outBuff`readOffset, outBuff.buff
      ensures Valid() && Moved(inBuff, outBuff, s, passed)
      ensures Passes(copyAll, old(Phase()), s, Phase(), passed)
      ensures moved >= 0 ==> moved == |passed|
      ensures moved < 0 ==> Reads(old(Phase()), old(inBuff.Contents()), Malformed, []) && !empty
      ensures moved >= 0 ==> s != []
    {
      var data := inBuff.buff[inBuff.writeOffset..inBuff.readOffset];
      ghost var start := Phase();
      var size, acc, sawCr := ScanSize(data, if copyAll then outBuff.Room() else 1);
      if size < 0 { return -1, [], []; }
      if sawCr { chunkState := PostSizeCr; }
      accumulator := acc;
      moved, s, passed := Take(inBuff, outBuff, size);
      assert s == data[..size];
      PassesDigits(copyAll, start, s, if sawCr then SizeCr(acc) else Size(acc));
    }

    /** CHUNK_POST_SIZE_CR. The source falls through to the chunk data; that is the next turn of
        the loop, or nothing when the input or the room is used up. */
    method ReadSizeLf(inBuff: PushPullBuffer, outBuff: PushPullBuffer)
        returns (moved: int, ghost s: bytes, ghost passed: bytes)
      requires Ready(inBuff, outBuff) && chunkState.PostSizeCr?
      requires inBuff.DataSize() > 0 && (copyAll ==> outBuff.Room() > 0)
      modifies this, inBuff`readOffset, inBuff`writeOffset, outBuff`readOffset, outBuff.buff
      ensures Valid() && Moved(inBuff, outBuff, s, passed)
      ensures Passes(copyAll, old(Phase()), s, Phase(), passed)
      ensures moved >= 0 ==> moved == |passed|
      ensures moved < 0 ==> Reads(old(Phase()), old(inBuff.Contents()), Malformed, []) && !empty
      ensures moved >= 0 ==> s != []
    {
      var data := inBuff.buff[inBuff.writeOffset..inBuff.readOffset];
      ghost var start := Phase();
      PassesOne(copyAll, start, data[0]);
      if data[0] != LF {
        Rejected(start, data);
        return -1, [], [];
      }
      chunkState := ChunkData;
      moved, s, passed := Take(inBuff, outBuff, 1);
      assert s == [data[0]];
      empty := accumulator == 0;
    }

    /** CHUNK_DATA. */
    method ReadData(inBuff: PushPullBuffer, outBuff: PushPullBuffer)
        returns (moved: int, ghost s: bytes, ghost passed: bytes)
      requires Ready(inBuff, outBuff) && chunkState.ChunkData?
      requires inBuff.DataSize() > 0 && (copyAll ==> outBuff.Room() > 0)
      modifies this, inBuff`readOffset, inBuff`writeOffset, outBuff`readOffset, outBuff.buff
      ensures Valid() && Moved(inBuff, outBuff, s, passed)
      ensures Passes(copyAll, old(Phase()), s, Phase(), passed)
      ensures moved >= 0 ==> moved == |passed|
      ensures moved < 0 ==> Reads(old(Phase()), old(inBuff.Contents()), Malformed, []) && !empty
      ensures moved >= 0 ==> (s == [] <==> old(Spinning(outBuff)))
    {
      var data := inBuff.buff[inBuff.writeOffset..inBuff.readOffset];
      ghost var start := Phase();
      if accumulator - currentChunkOffset == 0 {
        PassesOne(copyAll, start, data[0]);
        if data[0] != CR {
          Rejected(start, data);
          return -1, [], [];
        }
        chunkState := PostDataCr;
        moved, s, passed := Take(inBuff, outBuff, 1);
        assert s == [data[0]];
      } else {
        moved, s := MoveData(inBuff, outBuff);
        passed := s;
        PassesBody(copyAll, start.rest, s);
      }
    }

    /** CHUNK_POST_DATA_CR. */
    method ReadDataLf(inBuff: PushPullBuffer, outBuff: PushPullBuffer)
        returns (moved: int, ghost s: bytes, ghost passed: bytes)
      requires Ready(inBuff, outBuff) && chunkState.PostDataCr?
      requires inBuff.DataSize() > 0 && (copyAll ==> outBuff.Room() > 0)
      modifies this, inBuff`readOffset, inBuff`writeOffset, outBuff`readOffset, outBuff.buff
      ensures Valid() && Moved(inBuff, outBuff, s, passed)
      ensures Passes(copyAll, old(Phase()), s, Phase(), passed)
      ensures moved >= 0 ==> moved == |passed|
      ensures moved < 0 ==> Reads(old(Phase()), old(inBuff.Contents()), Malformed, []) && !empty
      ensures moved >= 0 ==> s != []
    {
      var data := inBuff.buff[inBuff.writeOffset..inBuff.readOffset];
      ghost var start := Phase();
      PassesOne(copyAll, start, data[0]);
      if data[0] != LF {
        Rejected(start, data);
        return -1, [], [];
      }
      moved, s, passed := Take(inBuff, outBuff, 1);
      assert s == [data[0]];
      accumulator, currentChunkOffset := 0, 0;
      chunkState := SizeHex;
    }

    /** One turn of the loop: it consumes something, or fails, or, where the stage spins, leaves
        the stage and both buffers as they are. */
    method Advance(inBuff: PushPullBuffer, outBuff: PushPullBuffer)
        returns (moved: int, ghost s: bytes, ghost passed: bytes)
      requires Ready(inBuff, outBuff)
      requires inBuff.DataSize() > 0 && (copyAll ==> outBuff.Room() > 0)
      modifies this, inBuff`readOffset, inBuff`writeOffset, outBuff`readOffset, outBuff.buff
      ensures Valid() && Moved(inBuff, outBuff, s, passed)
      ensures Passes(copyAll, old(Phase()), s, Phase(), passed)
      ensures moved >= 0 ==> moved == |passed|
      ensures moved < 0 ==> Reads(old(Phase()), old(inBuff.Contents()), Malformed, []) && !empty
      ensures moved >= 0 ==> (s == [] <==> old(Spinning(outBuff)))
    {
      match chunkState {
        case SizeHex => moved, s, passed := ReadSize(inBuff, outBuff);
        case PostSizeCr => moved, s, passed := ReadSizeLf(inBuff, outBuff);
        case ChunkData => moved, s, passed := ReadData(inBuff, outBuff);
        case PostDataCr => moved, s, passed := ReadDataLf(inBuff, outBuff);
      }
    }

    /** A turn, added to those before it: `out` is what the output held before all of them. */
    method Turn(inBuff: PushPullBuffer, outBuff: PushPullBuffer, ghost start: Phase, ghost before: bytes,
                ghost out: bytes, ghost s: bytes, ghost passed: bytes)
        returns (moved: int, ghost s': bytes, ghost passed': bytes)
      requires Ready(inBuff, outBuff) && !Spinning(outBuff)
      requires inBuff.DataSize() > 0 && (copyAll ==> outBuff.Room() > 0)
      requires outBuff.Contents() == out + passed && SoFar(copyAll, start, before, s, Phase(), passed,
                 inBuff.Contents())
      modifies this, inBuff`readOffset, inBuff`writeOffset, outBuff`readOffset, outBuff.buff
      ensures Valid() && inBuff.Valid() && outBuff.Valid() && inBuff.Room() >= old(inBuff.Room())
      ensures (old(inBuff.Settled()) ==> inBuff.Settled()) && (old(outBuff.Settled()) ==> outBuff.Settled())
      ensures outBuff.Contents() == out + passed' && SoFar(copyAll, start, before, s', Phase(), passed',
                inBuff.Contents())
      ensures outBuff.Room() + |passed'| == old(outBuff.Room()) + |passed|
      ensures moved >= 0 ==> moved + |passed| == |passed'| && |inBuff.Contents()| < |old(inBuff.Contents())|
      ensures moved < 0 ==> Reads(old(Phase()), old(inBuff.Contents()), Malformed, []) && !empty
    {
      ghost var here, left := Phase(), inBuff.Contents();
      ghost var t, more;
      moved, t, more := Advance(inBuff, outBuff);
      TurnAdds(copyAll, start, before, s, here, passed, left, t, Phase(), more, inBuff.Contents());
      Assoc(out, passed, more);
      s', passed' := s + t, passed + more;
    }

    /** All turns of the loop. */
    method Loop(inBuff: PushPullBuffer, outBuff: PushPullBuffer, ghost start: Phase, ghost before: bytes,
                ghost out: bytes)
        returns (moved: int, spins: bool, ghost s: bytes, ghost passed: bytes)
      requires Ready(inBuff, outBuff) && start == Phase() && before == inBuff.Contents() && out == outBuff.Contents()
      modifies this, inBuff`readOffset, inBuff`writeOffset, outBuff`readOffset, outBuff.buff
      ensures Valid() && inBuff.Valid() && outBuff.Valid() && inBuff.Room() >= old(inBuff.Room())
      ensures (old(inBuff.Settled()) ==> inBuff.Settled()) && (old(outBuff.Settled()) ==> outBuff.Settled())
      ensures outBuff.Contents() == out + passed && outBuff.Room() + |passed| == old(outBuff.Room())
      ensures SoFar(copyAll, start, before, s, Phase(), passed, inBuff.Contents())
      ensures moved >= 0 ==> moved == |passed|
      ensures moved < 0 ==> After(start, before).Malformed? && !empty && !spins
      ensures moved < 0 && !copyAll ==> |Decoded(start, before)| <= |passed| + outBuff.Room()
      ensures spins ==> moved >= 0 && Spinning(outBuff) && inBuff.Contents() != []
      ensures moved >= 0 && !spins && !empty ==> inBuff.Contents() == [] || (copyAll && outBuff.Room() == 0)
    {
      moved, spins, s, passed := 0, false, [], [];
      while inBuff.DataSize() > 0 && (if copyAll then outBuff.Room() else 1) > 0
        invariant Ready(inBuff, outBuff) && SoFar(copyAll, start, before, s, Phase(), passed, inBuff.Contents())
        invariant moved == |passed| && outBuff.Contents() == out + passed
        invariant outBuff.Room() + |passed| == old(outBuff.Room()) && inBuff.Room() >= old(inBuff.Room())
        invariant (old(inBuff.Settled()) ==> inBuff.Settled()) && (old(outBuff.Settled()) ==> outBuff.Settled())
        decreases |inBuff.Contents()|
      {
        if !copyAll && chunkState.ChunkData? && currentChunkOffset < accumulator && outBuff.Room() == 0 {
          spins := true;
          return;
        }
        ghost var s0, here, passed0, left, room := s, Phase(), passed, inBuff.Contents(), outBuff.Room();
        var m;
        m, s, passed := Turn(inBuff, outBuff, start, before, out, s, passed);
        if m < 0 {
          if !copyAll { StopsOrSpins(copyAll, start, before, s0, here, passed0, left, room); }
          return -1, false, s, passed;
        }
        moved := moved + m;
        if empty { return; }
      }
    }

    /** _decode_chunk_copyall. The bytes `s` it consumes take the stage from its old phase to
        its new one, and exactly what they pass on is appended to the output; a stage that has
        not reached the end of the message stops only for want of input or, when copying, of
        room; it fails only on input that breaks the format.

        The source spins, which `spins` stands for, exactly when it decodes and its input holds
        more payload than its output has room for: its loop does not watch the room. */
    method Process(inBuff: PushPullBuffer, outBuff: PushPullBuffer)
        returns (moved: int, spins: bool, ghost s: bytes, ghost passed: bytes)
      requires Ready(inBuff, outBuff)
      modifies this, inBuff`readOffset, inBuff`writeOffset, outBuff`readOffset, outBuff.buff
      ensures Valid() && Moved(inBuff, outBuff, s, passed)
      ensures Passes(copyAll, old(Phase()), s, Phase(), passed)
      ensures moved >= 0 ==> moved == |passed|
      ensures moved < 0 ==> After(old(Phase()), old(inBuff.Contents())).Malformed? && !empty
      ensures moved >= 0 && !spins && !empty ==> inBuff.Contents() == [] || (copyAll && outBuff.Room() == 0)
      ensures spins ==> moved >= 0 && Spinning(outBuff) && inBuff.Contents() != []
      ensures spins <==> !copyAll && |Decoded(old(Phase()), old(inBuff.Contents()))| > old(outBuff.Room())
    {
      ghost var start, before := Phase(), inBuff.Contents();
      moved, spins, s, passed := Loop(inBuff, outBuff, start, before, outBuff.Contents());
      if !copyAll { StopsOrSpins(copyAll, start, before, s, Phase(), passed, inBuff.Contents(), outBuff.Room()); }
    }
  }

  /** The size line of some data, and the data. */
  lemma AnnouncedData(data: bytes)
    requires 0 < |data| <= INT_MAX
    ensures Reads(Size(0), Hex(|data|) + CRLF + data, Body(0), data)
  {
    ReadSizeLine(|data|);
    ReadBody(|data|, data);
    Split(Size(0), Hex(|data|) + CRLF, data);
    assert [] + data == data;
  }

  /** For one: a decoding stage that finds a chunk of more bytes than its output can hold. */
  method SpinsOver(data: bytes, room: nat) returns (spins: bool)
    requires room < |data| <= INT_MAX
    ensures spins
  {
    var s := Hex(|data|) + CRLF + data;
    AnnouncedData(data);
    var inBuff := new PushPullBuffer(|s|);
    var outBuff := new PushPullBuffer(room);
    var decoder := new Decoder(false);
    ghost var taken, rest, t, passed;
    var n, moved;
    n, taken, rest := inBuff.ReadFromBuffer(s);
    assert taken == s && [] + taken == s;
    moved, spins, t, passed := decoder.Process(inBuff, outBuff);
  }

  /** Two bytes, and room for one. */
  method SpinsAtOnce() returns (spins: bool)
    ensures spins
  {
    spins := SpinsOver(['a' as int, 'b' as int], 1);
  }
}
