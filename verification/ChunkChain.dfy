/** The chain of five stages that the chunk stages are made for, in, encode, copy, decode and out,
    run by CS_pipeProcess and CS_pipeDoneOrError of src/pipe.c. */
module ChunkChain {
  import opened Bytes
  import opened ChunkFormat
  import opened PushPull
  import opened ChunkEncoder
  import opened ChunkDecoder
  import opened ChunkPipeline

  // ---- As values ----

  /** CS_PIPE_STATUS_EMPTY of in, encode and out. Copy and decode set it themselves, at the end of
      the message. */
  datatype Flags = Said(source: bool, encode: bool, sink: bool)

  /** The source held all of the payload, what was delivered is in the sink, which has room for the
      rest, and a stage that says it is empty has nothing left, and nothing left to do. */
  predicate Ok(v: View, f: Flags, sink: bytes, room: nat, payload: bytes)
  {
    && v.upstream == [] && v.delivered == sink && |sink| + room >= |payload|
    && (Ended(v.turn) ==> v.input == [])
    && (f.source ==> v.input == [])
    && (f.encode ==> v.turn.Finished? && v.mid1 == [])
    && (f.sink ==> v.decodeAt.End?)
  }

  /** A weight of everything still to be moved. */
  function Left(v: View, wanted: nat): nat
    requires Backed(v.turn, v.input)
  {
    3 * |Pending(v.turn, v.input, wanted)| + 2 * |v.mid1| + |v.mid2|
  }

  /** Where the encoder is done and all it wrote is copied, the copier is at the end. */
  lemma CopierEnds(v: View, f: Flags, sink: bytes, room: nat, payload: bytes)
    requires v.Inv(payload) && Ok(v, f, sink, room, payload) && f.encode
    ensures v.copyAt.End?
  {
  }

  lemma DecoderEnds(v: View, payload: bytes)
    requires v.Inv(payload) && v.copyAt.End? && v.mid2 == []
    ensures v.decodeAt.End?
  {
  }

  /** The encoder has written what there was room for, and the copier has copied what there was room
      for: something has moved, or something waits for the decoder. */
  lemma Moves(v: View, w: View, x: View, wanted: nat, payload: bytes)
    requires v.Inv(payload) && w.Inv(payload) && x.Inv(payload) && !x.decodeAt.End?
    requires w == v.(turn := w.turn, input := w.input, mid1 := w.mid1)
    requires x == w.(mid1 := x.mid1, copyAt := x.copyAt, mid2 := x.mid2)
    requires |Pending(w.turn, w.input, wanted)| + |w.mid1| == |Pending(v.turn, v.input, wanted)| + |v.mid1|
    requires |w.mid1| >= |v.mid1| && |x.mid1| <= |w.mid1| && |x.mid1| + |x.mid2| == |w.mid1| + |w.mid2|
    requires w.turn.Finished? || w.mid1 != []
    requires x.copyAt.End? || x.mid1 == [] || x.mid2 != []
    ensures Left(x, wanted) <= Left(v, wanted) && (Left(x, wanted) == Left(v, wanted) ==> x.mid2 != [])
  {
    if x.mid2 == [] && x.copyAt.End? {
      DecoderEnds(x, payload);
    }
  }

  /** The decoder alone: something waits for it. */
  lemma Waits(v: View, payload: bytes)
    requires v.Inv(payload) && v.copyAt.End? && !v.decodeAt.End?
    ensures v.mid2 != []
  {
  }

  lemma DecodeLess(x: View, y: View, z: View, wanted: nat)
    requires Backed(x.turn, x.input)
    requires y == x.(mid2 := y.mid2, decodeAt := y.decodeAt, output := y.output)
    requires z == y.(output := z.output, delivered := z.delivered)
    requires |y.mid2| <= |x.mid2|
    ensures Left(z, wanted) <= Left(x, wanted)
    ensures y.mid2 == [] && x.mid2 != [] ==> Left(z, wanted) < Left(x, wanted)
  {
  }

  lemma EncodeOk(wanted: nat, v: View, w: View, f: Flags, sink: bytes, room: nat, payload: bytes)
    requires v.Inv(payload) && w.Inv(payload) && Ok(v, f, sink, room, payload)
    requires Written(wanted, v, w)
    ensures Ok(w, f, sink, room, payload)
  {
  }

  /** All that the decoder has found goes into the sink. */
  lemma SinkTakes(v: View, w: View, f: Flags, sink: bytes, room: nat, payload: bytes)
    requires v.Inv(payload) && Ok(v, f, sink, room, payload)
    requires w == v.(delivered := v.delivered + v.output, output := [])
    ensures |v.output| <= room
    ensures w.Inv(payload) && Ok(w, f, sink + v.output, room - |v.output|, payload)
  {
    DeliveredPrefix(v, payload);
    assert v.output + [] == v.output;
    DrainKeepsInv(v, v.output, [], payload);
  }

  lemma AllDelivered(v: View, f: Flags, sink: bytes, room: nat, payload: bytes)
    requires v.Inv(payload) && Ok(v, f, sink, room, payload) && v.decodeAt.End? && v.output == []
    ensures sink == payload
  {
    DeliveredPrefix(v, payload);
  }

  class Chain {
    const line: Pipeline
    const sink: PushPullBuffer
    var sourceEmpty: bool
    var encodeEmpty: bool
    var sinkEmpty: bool

    ghost function Repr(): set<object> { line.Repr() + {this, sink, sink.buff} }

    /** The buffers: the decoder has at least as much room as the stage before it, because its loop
        does not watch the room. */
    ghost predicate Hooked()
    {
      && this !in line.Repr() && sink !in line.Repr() && sink.buff !in line.Repr()
      && 0 < line.mid1.buff.Length && 0 < line.mid2.buff.Length <= line.outBuff.buff.Length
    }

    ghost function Flags(): Flags
      reads this
    {
      Said(sourceEmpty, encodeEmpty, sinkEmpty)
    }

    ghost predicate Inv(payload: bytes)
      reads Repr()
    {
      && Hooked() && line.Inv(payload) && sink.Valid()
      && Ok(line.View(), Flags(), sink.Contents(), sink.Room(), payload)
    }

    /** What holds between two passes of the driver. */
    ghost predicate Between(payload: bytes)
      reads Repr()
    {
      Inv(payload) && line.View().output == [] && sinkEmpty == line.decoder.empty
    }

    /** CS_pipeHook four times, with the whole payload in the source. */
    constructor (line: Pipeline, sink: PushPullBuffer, ghost payload: bytes)
      requires line.Inv(payload) && line.View() == Start.(input := payload)
      requires sink !in line.Repr() && sink.buff !in line.Repr() && sink.Valid() && sink.Contents() == []
      requires 0 < line.mid1.buff.Length && 0 < line.mid2.buff.Length <= line.outBuff.buff.Length
      requires sink.Room() >= |payload|
      ensures this.line == line && this.sink == sink && Between(payload)
    {
      this.line, this.sink := line, sink;
      sourceEmpty, encodeEmpty, sinkEmpty := false, false, false;
    }

    function Empty(k: nat): bool
      reads this, line.copier, line.decoder
    {
      if k == 0 then sourceEmpty else if k == 1 then encodeEmpty else if k == 2 then line.copier.empty
      else if k == 3 then line.decoder.empty else sinkEmpty
    }

    /** Where a pass from the decoder starts. */
    ghost predicate IsFront(front: nat)
      reads this, line.copier, line.decoder
    {
      front <= 3 && (forall k :: front <= k <= 3 ==> !Empty(k)) && (front > 0 ==> Empty(front - 1))
    }

    /** privateFront, from the decoder. */
    method Front() returns (front: nat)
      requires !Empty(3)
      ensures IsFront(front)
    {
      var q := 3;
      while q > 0 && !Empty(q)
        invariant q <= 3 && forall k :: q < k <= 3 ==> !Empty(k)
      {
        q := q - 1;
      }
      front := q;
      while front < 5 && Empty(front)
        invariant q <= front <= q + 1 && (front == q + 1 ==> Empty(q)) && (front == q ==> q == 0 || Empty(q))
        invariant forall k :: q < k <= 3 ==> !Empty(k)
        decreases 5 - front
      {
        front := front + 1;
      }
    }

    /** The source: nothing comes before it. */
    method RunSource(ghost payload: bytes)
      requires Inv(payload)
      modifies this`sourceEmpty
      ensures Inv(payload) && line.View() == old(line.View())
    {
      if line.inBuff.DataSize() == 0 { sourceEmpty := true; }
    }

    method EncodeLine(ghost payload: bytes)
      requires Hooked() && line.Inv(payload) && sink.Valid() && (sourceEmpty ==> line.inBuff.Contents() == [])
      modifies line.encoder, line.encoder.currentChunkChars, line.inBuff`readOffset, line.inBuff`writeOffset,
               line.mid1`readOffset, line.mid1.buff
      ensures line.Inv(payload) && Flags() == old(Flags()) && sink.Valid()
      ensures sink.Contents() == old(sink.Contents()) && sink.Room() == old(sink.Room())
      ensures Written(line.encoder.wanted, old(line.View()), line.View())
      ensures line.encoder.chunkState.Done? || line.mid1.Contents() != []
    {
      var moved := line.EncodeOn(sourceEmpty, payload);
    }

    method EncodeSome(ghost payload: bytes)
      requires Inv(payload)
      modifies line.encoder, line.encoder.currentChunkChars, line.inBuff`readOffset, line.inBuff`writeOffset,
               line.mid1`readOffset, line.mid1.buff
      ensures Inv(payload) && Written(line.encoder.wanted, old(line.View()), line.View())
      ensures line.encoder.chunkState.Done? || line.mid1.Contents() != []
    {
      ghost var v, f, s, room := line.View(), Flags(), sink.Contents(), sink.Room();
      EncodeLine(payload);
      EncodeOk(line.encoder.wanted, v, line.View(), f, s, room, payload);
    }

    method RunEncode(ghost payload: bytes)
      requires Inv(payload)
      modifies this`encodeEmpty, line.encoder, line.encoder.currentChunkChars, line.inBuff`readOffset,
               line.inBuff`writeOffset, line.mid1`readOffset, line.mid1.buff
      ensures Inv(payload) && Written(line.encoder.wanted, old(line.View()), line.View())
      ensures line.View().turn.Finished? || line.View().mid1 != []
    {
      EncodeSome(payload);
      if line.mid1.DataSize() == 0 && sourceEmpty { FlagEncode(payload); }
    }

    /** The encoder leaves its buffer empty only when it is done. */
    method FlagEncode(ghost payload: bytes)
      requires Inv(payload) && line.encoder.chunkState.Done? && line.mid1.Contents() == []
      modifies this`encodeEmpty
      ensures Inv(payload) && line.View() == old(line.View())
    {
      encodeEmpty := true;
    }

    method RunCopy(ghost payload: bytes)
      requires Inv(payload) && !line.copier.empty
      modifies line.copier, line.mid1`readOffset, line.mid1`writeOffset, line.mid2`readOffset, line.mid2.buff
      ensures Inv(payload)
      ensures var w, x := old(line.View()), line.View();
              && x == w.(mid1 := x.mid1, copyAt := x.copyAt, mid2 := x.mid2)
              && (x.copyAt.End? || x.mid1 == [] || x.mid2 != [])
              && |x.mid1| <= |w.mid1| && |x.mid1| + |x.mid2| == |w.mid1| + |w.mid2|
    {
      assert !encodeEmpty by {
        if encodeEmpty { CopierEnds(line.View(), Flags(), sink.Contents(), sink.Room(), payload); }
      }
      var moved := line.Copy(payload);
      if line.mid2.DataSize() == 0 && encodeEmpty {
        // The driver would flag the copier, too; but the encoder never says it is empty before it.
        assert false;
      }
    }

    method RunDecode(ghost payload: bytes)
      requires Inv(payload) && !line.decoder.empty && line.View().output == []
      modifies line.decoder, line.mid2`readOffset, line.mid2`writeOffset, line.outBuff`readOffset, line.outBuff.buff
      ensures Inv(payload)
      ensures var x, y := old(line.View()), line.View();
              && y == x.(mid2 := y.mid2, decodeAt := y.decodeAt, output := y.output)
              && (y.decodeAt.End? || y.mid2 == []) && |y.mid2| <= |x.mid2|
    {
      DecodedLength(line.View().decodeAt, line.View().mid2);
      var moved, spins := line.Decode(payload);
      if line.outBuff.DataSize() == 0 && line.copier.empty {
        line.decoder.empty := true;
      }
    }

    method FlagSink(ghost payload: bytes)
      requires Inv(payload) && line.decoder.empty
      modifies this`sinkEmpty
      ensures Inv(payload) && sinkEmpty && line.View() == old(line.View())
    {
      sinkEmpty := true;
    }

    /** The sink takes what the decoder has found. */
    method TakeOut(ghost payload: bytes)
      requires Inv(payload)
      modifies line`delivered, line.outBuff`readOffset, line.outBuff`writeOffset, sink`readOffset, sink.buff
      ensures Inv(payload) && line.View().output == []
      ensures line.View() == old(line.View()).(output := [], delivered := line.View().delivered)
    {
      ghost var v := line.View();
      ghost var w := v.(delivered := v.delivered + v.output, output := []);
      SinkTakes(v, w, Flags(), sink.Contents(), sink.Room(), payload);
      line.DrainInto(sink, payload);
    }

    method RunSink(ghost payload: bytes)
      requires Inv(payload)
      modifies this`sinkEmpty, line`delivered, line.outBuff`readOffset, line.outBuff`writeOffset, sink`readOffset,
               sink.buff
      ensures Inv(payload) && line.View().output == [] && sinkEmpty == (old(sinkEmpty) || line.decoder.empty)
      ensures line.View() == old(line.View()).(output := [], delivered := line.View().delivered)
    {
      TakeOut(payload);
      if line.decoder.empty { FlagSink(payload); }
    }

    /** The driver up to the copier. Something moves, or something waits for the decoder. */
    method RunToCopy(front: nat, ghost payload: bytes)
      requires Inv(payload) && IsFront(front)
      modifies this`sourceEmpty, this`encodeEmpty, line.encoder, line.encoder.currentChunkChars, line.inBuff`readOffset,
               line.inBuff`writeOffset, line.mid1`readOffset, line.mid1`writeOffset, line.mid1.buff,
               line.copier, line.mid2`readOffset, line.mid2.buff
      ensures Inv(payload) && line.View().decodeAt == old(line.View().decodeAt)
                && line.View().output == old(line.View().output)
      ensures var v, x := old(line.View()), line.View();
              && Left(x, line.encoder.wanted) <= Left(v, line.encoder.wanted)
              && (Left(x, line.encoder.wanted) == Left(v, line.encoder.wanted) ==> x.mid2 != [])
    {
      ghost var v := line.View();
      assert !Empty(3) && (front <= 2 ==> !Empty(2));
      if front == 0 { RunSource(payload); }
      if front <= 1 {
        RunEncode(payload);
        ghost var w := line.View();
        RunCopy(payload);
        Moves(v, w, line.View(), line.encoder.wanted, payload);
      } else {
        if front == 2 {
          assert Empty(1);
          CopierEnds(v, Flags(), sink.Contents(), sink.Room(), payload);
          assert false;
        }
        assert Empty(2);
        Waits(v, payload);
      }
    }

    /** CS_pipeProcess, from the decoder: its loop over the stages from the front on. */
    method Process(ghost left: nat, ghost payload: bytes) returns (ghost left': nat)
      requires Between(payload) && !sinkEmpty && left == Left(line.View(), line.encoder.wanted)
      modifies Repr()
      ensures Between(payload) && left' == Left(line.View(), line.encoder.wanted)
      ensures sinkEmpty || left' < left
    {
      var front := Front();
      RunToCopy(front, payload);
      ghost var x := line.View();
      RunDecode(payload);
      ghost var y := line.View();
      RunSink(payload);
      DecodeLess(x, y, line.View(), line.encoder.wanted);
      left' := Left(line.View(), line.encoder.wanted);
    }

    /** CS_pipeDoneOrError, asked of stage `k`: on to the sink, and back to the first that is empty. */
    method DoneOrError(k: nat, ghost payload: bytes) returns (done: bool)
      requires k < 5 && Between(payload)
      ensures done == sinkEmpty && Between(payload) && line.View() == old(line.View())
    {
      var q := k;
      while q < 4
        invariant q <= 4
      {
        q := q + 1;
      }
      if Empty(q) { return true; }
      while q > 0 {
        q := q - 1;
        if Empty(q) { return false; }
      }
      return false;
    }

    /** One turn of the loop of a user. */
    method Turn(ghost left: nat, ghost payload: bytes) returns (done: bool, ghost left': nat)
      requires Between(payload) && !sinkEmpty && left == Left(line.View(), line.encoder.wanted)
      modifies Repr()
      ensures Between(payload) && left' == Left(line.View(), line.encoder.wanted)
      ensures done == sinkEmpty && (done || left' < left)
    {
      left' := Process(left, payload);
      done := DoneOrError(3, payload);
    }

    /** The loop, with the source holding the whole payload: for any payload, any legal chunk size,
        and buffers of any sizes that leave the decoder and the sink room, it ends, and the sink
        then holds the payload. */
    method Pump(ghost payload: bytes)
      requires Between(payload)
      modifies Repr()
      ensures Between(payload) && sink.Contents() == payload
    {
      ghost var left := Left(line.View(), line.encoder.wanted);
      var done := DoneOrError(3, payload);
      while !done
        invariant Between(payload) && left == Left(line.View(), line.encoder.wanted) && done == sinkEmpty
        decreases if done then 0 else 1, left
      {
        done, left := Turn(left, payload);
      }
      AllDelivered(line.View(), Flags(), sink.Contents(), sink.Room(), payload);
    }
  }
}
