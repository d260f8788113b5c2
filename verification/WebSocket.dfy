/** Frames in and out of the buffers of a connection, src/websocket.c. */
module WebSocket {
  import opened Bytes
  import opened PushPull
  import opened WebSocketFrame
  import opened Wrappers

  // ---- How much has arrived ----

  /** The incoming side by sizes: what is in the buffer, what room it has left of its size, what
      is still to come, and how many fills there have been. */
  datatype Flow = Sizes(have: nat, room: nat, size: nat, pending: nat, turn: nat)
  {
    /** What the next fill brings. */
    function Arriving(gift: nat -> nat): nat { Min(gift(turn), Min(pending, room)) }

    function Filled(gift: nat -> nat): Flow
    {
      var n := Arriving(gift);
      Sizes(have + n, room - n, size, pending - n, turn + 1)
    }

    /** A buffer that is emptied starts over with all its room. */
    function Taken(n: nat): Flow
      requires n <= have
    {
      this.(have := have - n, room := if n > 0 && n == have then size else room)
    }

    /** One fill for a field that is not there yet, and no more than one. */
    function Awaited(gift: nat -> nat, n: nat): Flow { if have >= n then this else Filled(gift) }

    predicate Comes(gift: nat -> nat, n: nat) { Awaited(gift, n).have >= n }

    /** Fills until the first two bytes are there or nothing comes. */
    function Started(gift: nat -> nat): Flow
      decreases pending
    {
      if have >= 2 then this
      else if Arriving(gift) == 0 then Filled(gift)
      else Filled(gift).Started(gift)
    }

    /** The field of `n` bytes comes within one fill, and so does the one of `m` bytes behind it. */
    predicate BothCome(gift: nat -> nat, n: nat, m: nat)
    {
      Comes(gift, n) && Awaited(gift, n).Taken(n).Comes(gift, m)
    }

    /** The source waits for ever, or reads length bytes that have not come. */
    predicate Sticks(gift: nat -> nat, st: Start)
    {
      var first := Started(gift);
      if first.have < 2 then have + pending > 0 else first.Taken(2).LengthSticks(gift, st)
    }

    predicate LengthSticks(gift: nat -> nat, st: Start)
    {
      st.length == 126 && !Comes(gift, 2) && Arriving(gift) > 0
    }

    /** Every field of the header comes within one fill; the first two bytes may come one by one. */
    predicate HeaderComes(gift: nat -> nat, st: Start)
    {
      var first := Started(gift);
      first.have >= 2 && first.Taken(2).BothCome(gift, ExtraLength(st), KeyLength(st))
    }
  }

  /** Whether the first two bytes come: always, if they have been sent and there is room. */
  lemma {:induction false} StartComes(f: Flow, gift: nat -> nat)
    requires forall i :: gift(i) > 0
    ensures f.Started(gift).have >= 2 <==> f.have + f.pending >= 2 && f.have + f.room >= 2
    ensures f.have + f.pending >= 2 && f.have + f.room >= 2 ==> f.Started(gift).turn <= f.turn + 2
    ensures var g := f.Started(gift); g.have + g.room == f.have + f.room && g.have + g.pending == f.have + f.pending
    ensures f.Started(gift).turn >= f.turn
    decreases f.pending
  {
    if f.have < 2 && f.Arriving(gift) > 0 {
      StartComes(f.Filled(gift), gift);
    }
  }

  /** Only the first few fills matter: where each of them could bring a whole field, the header
      comes, and the payload behind it may come in any fragments. */
  lemma GenerousHeader(f: Flow, gift: nat -> nat, st: Start)
    requires forall i :: gift(i) > 0
    requires forall i :: f.turn <= i <= f.turn + 3 ==> gift(i) >= NUM_MASK_BYTES
    requires var n := 2 + ExtraLength(st) + KeyLength(st);
             f.have + f.pending >= n && f.have + f.room >= n && f.size >= n
    ensures f.HeaderComes(gift, st)
  {
    StartComes(f, gift);
  }

  /** A field is there, or the peer has gone, or the source would read on in what is not there or
      wait for ever: then the field did not come within one fill, or the buffer has no room. */
  datatype Wait = There | Gone | Spins

  lemma MaskedStep(key: Key, s: bytes, c: byte, from: nat)
    ensures Masked(key, s + [c], from) == Masked(key, s, from) + [Xor(c, key[(from + |s|) % 4])]
  {
    ChangedConcat(Mask(key), s, [c], from);
  }

  /** The loop that masks a payload or takes its mask off. */
  method Unmask(key: Key, chunk: bytes, from: nat) returns (out: bytes)
    ensures out == Masked(key, chunk, from)
  {
    out := [];
    var i := 0;
    assert chunk[..0] == [];
    while i < |chunk|
      invariant 0 <= i <= |chunk| && out == Masked(key, chunk[..i], from)
    {
      MaskedStep(key, chunk[..i], chunk[i], from);
      assert chunk[..i + 1] == chunk[..i] + [chunk[i]];
      out := out + [Xor(chunk[i], key[(from + i) % 4])];
      i := i + 1;
    }
    assert chunk[..i] == chunk;
  }

  /** The next bytes of a payload behind the first ones, their mask taken off at its offset. */
  method Append(first: bytes, chunk: bytes, mask: bool, key: Key, ghost before: bytes) returns (payload: bytes)
    requires first == if mask then Masked(key, before, 0) else before
    ensures payload == if mask then Masked(key, before + chunk, 0) else before + chunk
  {
    var more := chunk;
    if mask {
      ChangedConcat(Mask(key), before, chunk, 0);
      more := Unmask(key, chunk, |first|);
    }
    payload := first + more;
  }

  /** The incoming side: what has arrived, and what the peer has sent but has not arrived yet.
      `gift` says how much each fill brings at most. */
  class Incoming {
    const buffer: PushPullBuffer
    const gift: nat -> nat
    var pending: bytes
    var turn: nat

    constructor (size: nat, sent: bytes, gift: nat -> nat)
      requires size > 0 && forall i :: gift(i) > 0
      ensures Valid() && Stream() == sent && fresh(buffer) && fresh(buffer.buff)
                && Flow() == Sizes(0, size, size, |sent|, 0) && this.gift == gift
    {
      buffer := new PushPullBuffer(size);
      this.gift, pending, turn := gift, sent, 0;
      new;
      assert [] + sent == sent;
    }

    ghost predicate Valid()
      reads this, buffer
    {
      buffer.Valid() && buffer.Settled() && buffer.buff.Length > 0 && forall i :: gift(i) > 0
    }

    /** All that is still to be read. */
    ghost function Stream(): bytes
      requires buffer.Valid()
      reads this, buffer, buffer.buff
    {
      buffer.Contents() + pending
    }

    ghost function Flow(): Flow
      requires buffer.Valid()
      reads this, buffer
    {
      Sizes(buffer.DataSize(), buffer.Room(), buffer.buff.Length, |pending|, turn)
    }

    /** CS_serverFillIncomingBuffer. */
    method Fill() returns (n: nat)
      requires Valid()
      modifies this`pending, this`turn, buffer`readOffset, buffer.buff
      ensures Valid() && Stream() == old(Stream())
      ensures n == old(Flow().Arriving(gift)) && Flow() == old(Flow()).Filled(gift)
    {
      var most := if gift(turn) < |pending| then gift(turn) else |pending|;
      ghost var was := buffer.Contents();
      ghost var taken, rest;
      Cut(pending, most);
      n, taken, rest := buffer.ReadFromBuffer(pending[..most]);
      assert pending[..n] == taken;
      Cut(pending, n);
      Assoc(was, taken, pending[n..]);
      pending := pending[n..];
      turn := turn + 1;
    }

    /** A field of `n` bytes: one fill at most if it is not there yet. */
    method Need(n: nat) returns (failed: bool)
      requires Valid()
      modifies this`pending, this`turn, buffer`readOffset, buffer.buff
      ensures Valid() && Stream() == old(Stream()) && Flow() == old(Flow()).Awaited(gift, n)
      ensures failed <==> old(!Flow().Comes(gift, n) && Flow().Arriving(gift) == 0)
    {
      failed := false;
      if buffer.DataSize() < n {
        var bytesRead := Fill();
        failed := bytesRead == 0 && buffer.DataSize() < n;
      }
    }

    /** Takes `n` bytes that are there. */
    method Take(n: nat) returns (out: bytes)
      requires Valid() && buffer.DataSize() >= n
      modifies buffer`readOffset, buffer`writeOffset
      ensures Valid() && |out| == n && old(Stream()) == out + Stream() && Flow() == old(Flow()).Taken(n)
    {
      out := buffer.WriteToBuffer(n);
      Assoc(out, buffer.Contents(), pending);
    }

    /** The first two bytes, by as many fills as it takes. */
    method AwaitStart() returns (r: Wait)
      requires Valid()
      modifies this`pending, this`turn, buffer`readOffset, buffer.buff
      ensures Valid() && Stream() == old(Stream()) && Flow() == old(Flow()).Started(gift)
      ensures r == if buffer.DataSize() >= 2 then There else if Stream() == [] then Gone else Spins
    {
      r := There;
      while buffer.DataSize() < 2 && r.There?
        invariant Valid() && Stream() == old(Stream())
        invariant if r.There? then Flow().Started(gift) == old(Flow()).Started(gift)
                  else
                    && Flow() == old(Flow()).Started(gift) && buffer.DataSize() < 2
                    && r == if Stream() == [] then Gone else Spins
        decreases r.There?, |pending|
      {
        var bytesRead := Fill();
        if bytesRead == 0 {
          r := if buffer.DataSize() == 0 then Gone else Spins;
        }
      }
    }

    /** The length bytes, if there are any: one fill, and what has not come then is read all the same. */
    method AwaitLength(n: nat) returns (r: Wait, extra: bytes)
      requires Valid()
      modifies this`pending, this`turn, buffer`readOffset, buffer`writeOffset, buffer.buff
      ensures Valid()
      ensures r == old(if Flow().Comes(gift, n) then There else if Flow().Arriving(gift) == 0 then Gone else Spins)
      ensures r.There? ==>
                |extra| == n && old(Stream()) == extra + Stream()
                && Flow() == old(Flow()).Awaited(gift, n).Taken(n)
    {
      r, extra := There, [];
      if n > 0 {
        var failed := Need(n);
        if failed {
          r := Gone;
        } else if buffer.DataSize() < n {
          r := Spins;
        } else {
          extra := Take(n);
        }
      } else {
        assert [] + Stream() == Stream();
      }
    }

    /** The key, if there is one; if it does not come at once it is lost. */
    method AwaitKey(n: nat) returns (r: Wait, key: bytes)
      requires Valid()
      modifies this`pending, this`turn, buffer`readOffset, buffer`writeOffset, buffer.buff
      ensures Valid()
      ensures r == old(if Flow().Comes(gift, n) then There else Gone)
      ensures r.There? ==>
                |key| == n && old(Stream()) == key + Stream()
                && Flow() == old(Flow()).Awaited(gift, n).Taken(n)
    {
      r, key := There, [];
      if n > 0 {
        var failed := Need(n);
        if failed || buffer.DataSize() < n {
          r := Gone;
        } else {
          key := Take(n);
        }
      } else {
        assert [] + Stream() == Stream();
      }
    }

    /** What has arrived of the payload. */
    method TakeChunk(first: bytes, length: nat, mask: bool, key: Key, ghost before: bytes)
        returns (payload: bytes, ghost raw: bytes)
      requires Valid() && |before| < length && first == if mask then Masked(key, before, 0) else before
      modifies buffer`readOffset, buffer`writeOffset
      ensures Valid() && |raw| <= length && |raw| >= |before| && (|raw| < length ==> buffer.Contents() == [])
      ensures before + old(Stream()) == raw + Stream()
      ensures payload == if mask then Masked(key, raw, 0) else raw
    {
      var chunk := Take(Min(buffer.DataSize(), length - |first|));
      Assoc(before, chunk, Stream());
      raw := before + chunk;
      payload := Append(first, chunk, mask, key, before);
    }

    /** The payload, its mask taken off as it comes. */
    method AwaitPayload(length: nat, mask: bool, key: Key) returns (r: Wait, payload: bytes, ghost raw: bytes)
      requires Valid()
      modifies this`pending, this`turn, buffer`readOffset, buffer`writeOffset, buffer.buff
      ensures Valid() && old(Stream()) == raw + Stream()
      ensures payload == if mask then Masked(key, raw, 0) else raw
      ensures r.There? <==> |raw| == length
      ensures !r.There? ==> |old(Stream())| < length
    {
      r, payload, raw := There, [], [];
      assert [] + Stream() == Stream();
      while |payload| < length && r.There?
        invariant Valid() && old(Stream()) == raw + Stream() && |raw| <= length
        invariant payload == if mask then Masked(key, raw, 0) else raw
        invariant r.There? || (Stream() == [] && |raw| < length)
        decreases r.There?, length - |payload| + |pending|
      {
        payload, raw := TakeChunk(payload, length, mask, key, raw);
        if |payload| < length {
          var bytesRead := Fill();
          if bytesRead == 0 && buffer.DataSize() == 0 {
            r := Gone;
          }
        }
      }
    }
  }

  /** What CS_WS_nextIncomingFrame returns: NULL, a frame, or nothing at all. */
  datatype Parsed = Nothing | Got(frame: Frame) | Stuck

  function Ended(w: Wait): Parsed { if w.Spins? then Stuck else Nothing }

  /** The part of CS_WS_nextIncomingFrame behind the first two bytes. */
  method FrameAfter(socket: Incoming, a: byte, b: byte, ghost s: bytes) returns (r: Parsed)
    requires socket.Valid() && s == [a, b] + socket.Stream()
    modifies socket`pending, socket`turn, socket.buffer`readOffset, socket.buffer`writeOffset, socket.buffer.buff
    ensures socket.Valid()
    ensures r.Got? ==> Parse(s) == Some(r.frame) && socket.Stream() == Rest(s)
    ensures var st := StartOf(a, b);
            && (r.Got? <==> Parse(s).Some? && old(socket.Flow()).BothCome(socket.gift, ExtraLength(st), KeyLength(st)))
            && (r.Stuck? <==> old(socket.Flow()).LengthSticks(socket.gift, st))
  {
    var st := StartOf(a, b);
    Announced(s, a, b, socket.Stream());
    if st.length == 127 { return Nothing; }
    var wait, extra := socket.AwaitLength(ExtraLength(st));
    if !wait.There? { return Ended(wait); }
    var key;
    wait, key := socket.AwaitKey(KeyLength(st));
    if !wait.There? { return Ended(wait); }
    var mask: Key := if st.mask then key else [0, 0, 0, 0];
    var payload;
    ghost var raw;
    wait, payload, raw := socket.AwaitPayload(Length(st, extra), st.mask, mask);
    if !wait.There? {
      TooShort(s, a, b, extra, key, raw + socket.Stream());
      return Nothing;
    }
    ParseParts(s, a, b, extra, key, raw, socket.Stream());
    r := Got(Frame(st.fin, st.reserved, st.opcode, st.mask, mask, payload));
  }

  /** CS_WS_nextIncomingFrame: a frame it returns is the first of the stream, and it leaves just
      the rest. It finds the frame exactly when each field of the header comes within one fill;
      how the payload comes does not matter. */
  method NextIncomingFrame(socket: Incoming) returns (r: Parsed)
    requires socket.Valid()
    modifies socket`pending, socket`turn, socket.buffer`readOffset, socket.buffer`writeOffset, socket.buffer.buff
    ensures socket.Valid()
    ensures r.Got? ==> Parse(old(socket.Stream())) == Some(r.frame) && socket.Stream() == Rest(old(socket.Stream()))
    ensures var s := old(socket.Stream());
            && (r.Got? <==> Parse(s).Some? && old(socket.Flow()).HeaderComes(socket.gift, StartOf(s[0], s[1])))
            && (r.Stuck? <==>
                  old(socket.Flow()).Sticks(socket.gift, if |s| < 2 then StartOf(0, 0) else StartOf(s[0], s[1])))
  {
    ghost var s, flow := socket.Stream(), socket.Flow();
    var wait := socket.AwaitStart();
    if wait.There? {
      var top := socket.Take(2);
      assert top == [top[0], top[1]] && s[0] == top[0] && s[1] == top[1];
      r := FrameAfter(socket, top[0], top[1], s);
    } else {
      r := Ended(wait);
    }
  }

  /** The outgoing side: the buffer, and what the socket has taken out of it; `most` says how much
      it takes at a time. */
  class Outgoing {
    const buffer: PushPullBuffer
    const most: nat -> nat
    var sent: bytes
    var turn: nat

    constructor (size: nat, most: nat -> nat)
      requires size > 0 && forall i :: most(i) > 0
      ensures Valid() && All() == [] && fresh(buffer) && fresh(buffer.buff) && buffer.buff.Length == size
      ensures this.most == most
    {
      buffer := new PushPullBuffer(size);
      this.most, sent, turn := most, [], 0;
    }

    ghost predicate Valid()
      reads this, buffer
    {
      buffer.Valid() && buffer.Settled() && buffer.buff.Length > 0 && forall i :: most(i) > 0
    }

    /** Everything that was written. */
    ghost function All(): bytes
      requires buffer.Valid()
      reads this, buffer, buffer.buff
    {
      sent + buffer.Contents()
    }

    /** CS_serverWriteOutputBuffer. */
    method Flush() returns (n: nat)
      requires Valid()
      modifies this`sent, this`turn, buffer`readOffset, buffer`writeOffset
      ensures Valid() && All() == old(All())
      ensures n == Min(most(old(turn)), |old(buffer.Contents())|) && |buffer.Contents()| == |old(buffer.Contents())| - n
    {
      var out := buffer.WriteToBuffer(most(turn));
      Assoc(sent, out, buffer.Contents());
      sent := sent + out;
      n := |out|;
      turn := turn + 1;
    }

    /** CS_PP_readFromBuffer, of what there is room for. */
    method Append(data: bytes)
      requires Valid() && |data| <= buffer.Room()
      modifies buffer`readOffset, buffer.buff
      ensures Valid() && All() == old(All()) + data && buffer.Room() == old(buffer.Room()) - |data|
    {
      ghost var was := buffer.Contents();
      var n;
      ghost var taken, rest;
      n, taken, rest := buffer.ReadFromBuffer(data);
      assert rest == [] && taken + [] == taken;
      Assoc(sent, was, data);
    }

    /** The six high bytes of the length, four of them zero: a payload is never bigger than 2 GB. */
    method PushHigh(n: nat, ghost high: bytes)
      requires Valid() && buffer.Room() >= 6 && n < 0x8000_0000
      requires high == [0, 0, 0, 0, n / 0x1000000, n / 0x10000 % 0x100]
      modifies buffer`readOffset, buffer.buff
      ensures Valid() && All() == old(All()) + high && buffer.Room() == old(buffer.Room()) - 6
    {
      ghost var was := All();
      Append([0, 0, 0, 0]);
      Append([n / 0x1000000]);
      Append([n / 0x10000 % 0x100]);
      assert high == [0, 0, 0, 0] + [n / 0x1000000] + [n / 0x10000 % 0x100];
      Assoc(was, [0, 0, 0, 0], [n / 0x1000000]);
      Assoc(was, [0, 0, 0, 0] + [n / 0x1000000], [n / 0x10000 % 0x100]);
    }

    method PushLow(n: nat, ghost low: bytes)
      requires Valid() && buffer.Room() >= 2 && low == [n / 0x100 % 0x100, n % 0x100]
      modifies buffer`readOffset, buffer.buff
      ensures Valid() && All() == old(All()) + low && buffer.Room() == old(buffer.Room()) - 2
    {
      ghost var was := All();
      Append([n / 0x100 % 0x100]);
      Append([n % 0x100]);
      assert low == [n / 0x100 % 0x100] + [n % 0x100];
      Assoc(was, [n / 0x100 % 0x100], [n % 0x100]);
    }

    /** The length bytes, one after the other. */
    method PushLength(n: nat)
      requires Valid() && n < 0x8000_0000 && buffer.Room() >= if n <= 125 then 0 else if n <= 0xFFFF then 2 else 8
      modifies buffer`readOffset, buffer.buff
      ensures Valid() && All() == old(All()) + LongLength(n)
      ensures buffer.Room() == old(buffer.Room()) - if n > 0xFFFF then 8 else if n > 126 then 2 else 0
    {
      ghost var was := All();
      ghost var high: bytes, low: bytes := [], [];
      if n > 0xFFFF {
        high := [0, 0, 0, 0, n / 0x1000000, n / 0x10000 % 0x100];
        PushHigh(n, high);
      }
      assert All() == was + high;
      if n > 126 {
        low := [n / 0x100 % 0x100, n % 0x100];
        PushLow(n, low);
      }
      Assoc(was, high, low);
      assert LongLength(n) == high + low;
    }

    /** The header, field by field. */
    method PushHeader(f: Frame)
      requires Valid() && |f.payload| < 0x8000_0000 && buffer.Room() >= HeaderRoom(f)
      modifies buffer`readOffset, buffer.buff
      ensures Valid() && All() == old(All()) + Header(f)
    {
      ghost var was := All();
      var top := Top(f);
      Append(top[..1]);
      Append(top[1..]);
      assert was + top[..1] + top[1..] == was + top;
      PushLength(|f.payload|);
      ghost var length, key := LongLength(|f.payload|), if f.mask then f.key else [];
      if f.mask {
        Append(f.key);
      }
      assert All() == was + top + length + key;
      Assoc(was, top, length);
      Assoc(was, top + length, key);
    }

    /** The payload, as fast as the socket takes it. */
    method PushPayload(payload: bytes) returns (failed: bool)
      requires Valid()
      modifies this`sent, this`turn, buffer`readOffset, buffer`writeOffset, buffer.buff
      ensures Valid() && !failed && All() == old(All()) + payload
    {
      var rest := payload;
      var more := true;
      ghost var done: bytes := [];
      assert All() + [] == All();
      while rest != [] && more
        invariant Valid() && more && payload == done + rest && All() == old(All()) + done
        decreases |rest| + |rest| + |buffer.Contents()|
      {
        ghost var was := buffer.Contents();
        ghost var taken, left;
        var lastTransfer;
        lastTransfer, taken, left := buffer.ReadFromBuffer(rest);
        Assoc(sent, was, taken);
        Assoc(old(All()), done, taken);
        Assoc(done, taken, left);
        assert rest[lastTransfer..] == left;
        rest, done := rest[lastTransfer..], done + taken;
        var lastWrite := Flush();
        if lastTransfer == 0 && lastWrite == 0 {
          more := false;
        }
      }
      failed := rest != [];
      assert done + [] == done;
    }

    /** CS_WS_pushFrame: whatever the socket takes at a time, what is written is the frame. */
    method PushFrame(f: Frame) returns (failed: bool)
      requires Valid() && |f.payload| < 0x8000_0000 && buffer.buff.Length >= HeaderRoom(f)
      modifies this`sent, this`turn, buffer`readOffset, buffer`writeOffset, buffer.buff
      ensures Valid() && !failed && All() == old(All()) + Wire(f)
    {
      ghost var was := All();
      while buffer.Room() < HeaderRoom(f)
        invariant Valid() && All() == was
        decreases |buffer.Contents()|
      {
        var _ := Flush();
      }
      PushHeader(f);
      failed := PushPayload(f.payload);
      Assoc(was, Header(f), f.payload);
    }
  }

  /** maxHeaderSize. */
  function HeaderRoom(f: Frame): nat
  {
    2 + (if |f.payload| <= 125 then 0 else if |f.payload| <= 0xFFFF then 2 else 8)
    + (if f.mask then NUM_MASK_BYTES else 0)
  }

  /** CS_WS_createFrame. */
  method CreateFrame(opcode: nat, masked: bool, key: Key, payload: bytes) returns (f: Frame)
    ensures f == Create(opcode, masked, key, payload)
  {
    f := Frame(true, UNSET, opcode, false, key, payload);
    if payload != [] && masked {
      var m := Unmask(key, payload, 0);
      f := f.(mask := true, payload := m);
    }
  }
}
