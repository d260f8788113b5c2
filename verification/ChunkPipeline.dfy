/** The encode, copy and decode stages joined end to end, run in any order by any driver. */
module ChunkPipeline {
  import opened Bytes
  import opened ChunkFormat
  import opened PushPull
  import opened ChunkEncoder
  import opened ChunkDecoder

  /** An encoder suspended in legal sizes never leads a decoder astray. */
  lemma ImageSound(t: Turn)
    requires WellFormed(t) && (t.Line? ==> t.size < SIZE_LIMIT)
    ensures !Image(t).Malformed? && !Image(t).Overflow?
  {
    match t
    case Line(sent, due, size) =>
      SizeLineComplete(size);
      ReadSizeLine(size);
      Split(Size(0), sent, due);
      if Stopped(Image(t)) {
        ReadStopped(Image(t), due);
      }
    case Crlf(sent, due) =>
      ReadTwo(Body(0), CR, LF);
      Split(Body(0), sent, due);
      if Stopped(Image(t)) {
        ReadStopped(Image(t), due);
      }
    case _ =>
  }

  /** A decoder at the end means an encoder that has cut its last line. */
  lemma ImageEnd(t: Turn)
    requires WellFormed(t) && (t.Line? ==> t.size < SIZE_LIMIT) && Image(t).End?
    ensures Ended(t)
  {
    match t
    case Line(sent, due, size) =>
      SizeLineComplete(size);
      ReadSizeLine(size);
      Split(Size(0), sent, due);
      ReadStopped(Image(t), due);
    case Crlf(sent, due) =>
      ReadTwo(Body(0), CR, LF);
      Split(Body(0), sent, due);
      ReadStopped(Image(t), due);
    case _ =>
  }

  lemma {:induction false} DecodedLength(p: Phase, s: bytes)
    ensures |Decoded(p, s)| <= |s|
    decreases |s|
  {
    if s != [] {
      DecodedLength(Next(p, s[0]), s[1..]);
    }
  }

  /** One state of the whole line, from its source to its sink. */
  datatype View = At(
    upstream: bytes, input: bytes, turn: Turn, mid1: bytes, copyAt: Phase, mid2: bytes, decodeAt: Phase,
    output: bytes, delivered: bytes)
  {
    /** Delivered, waiting, in flight and yet to come, in the order of the payload. What is
        between two stages counts by the payload a decoder will find in it. */
    function Total(): bytes
    {
      delivered + (output + (Decoded(decodeAt, mid2) + (Decoded(copyAt, mid1) + (input + upstream))))
    }

    /** The invariant of every run: reading what is between two stages takes the later one
        exactly where the earlier one is, and nothing of the payload is lost, doubled or
        reordered. */
    ghost predicate Inv(payload: bytes)
    {
      && WellFormed(turn) && Backed(turn, input) && (turn.Line? ==> turn.size < SIZE_LIMIT)
      && After(copyAt, mid1) == Image(turn)
      && After(decodeAt, mid2) == copyAt
      && Total() == payload
    }

    /** The message is over although data was still to come: the encoder takes an input that
        runs dry between two chunks for the end. */
    predicate CutShort() { Ended(turn) && input + upstream != [] }
  }

  const Start: View := At([], [], Boundary, [], Size(0), [], Size(0), [], [])

  lemma InitialInv(payload: bytes)
    ensures Start.(upstream := payload).Inv(payload)
  {
  }

  lemma ArriveKeepsInv(v: View, some: bytes, upstream: bytes, payload: bytes)
    requires v.Inv(payload) && v.upstream == some + upstream
    ensures v.(input := v.input + some, upstream := upstream).Inv(payload)
  {
    Assoc(v.input, some, upstream);
  }

  lemma EncodeKeepsInv(v: View, wanted: nat, out: bytes, used: bytes, turn: Turn, input: bytes, payload: bytes)
    requires v.Inv(payload) && Emits(true, wanted, v.turn, v.input, out, used, turn, input)
    requires turn.Line? ==> turn.size < SIZE_LIMIT
    ensures v.(turn := turn, input := input, mid1 := v.mid1 + out).Inv(payload)
  {
    Split(v.copyAt, v.mid1, out);
    Assoc(used, input, v.upstream);
    Assoc(Decoded(v.copyAt, v.mid1), used, input + v.upstream);
  }

  lemma CopyKeepsInv(v: View, s: bytes, q: Phase, mid1: bytes, payload: bytes)
    requires v.Inv(payload) && v.mid1 == s + mid1 && Passes(true, v.copyAt, s, q, s)
    ensures v.(mid1 := mid1, copyAt := q, mid2 := v.mid2 + s).Inv(payload)
  {
    Split(v.copyAt, s, mid1);
    Split(v.decodeAt, v.mid2, s);
    Assoc(Decoded(v.decodeAt, v.mid2), Decoded(v.copyAt, s), Decoded(q, mid1) + (v.input + v.upstream));
    Assoc(Decoded(v.copyAt, s), Decoded(q, mid1), v.input + v.upstream);
  }

  lemma DecodeKeepsInv(v: View, s: bytes, q: Phase, passed: bytes, mid2: bytes, payload: bytes)
    requires v.Inv(payload) && v.mid2 == s + mid2 && Passes(false, v.decodeAt, s, q, passed)
    ensures v.(mid2 := mid2, decodeAt := q, output := v.output + passed).Inv(payload)
  {
    Split(v.decodeAt, s, mid2);
    var rest := Decoded(v.copyAt, v.mid1) + (v.input + v.upstream);
    Assoc(passed, Decoded(q, mid2), rest);
    Assoc(v.output, passed, Decoded(q, mid2) + rest);
  }

  lemma DrainKeepsInv(v: View, some: bytes, output: bytes, payload: bytes)
    requires v.Inv(payload) && v.output == some + output
    ensures v.(delivered := v.delivered + some, output := output).Inv(payload)
  {
    var rest := Decoded(v.decodeAt, v.mid2) + (Decoded(v.copyAt, v.mid1) + (v.input + v.upstream));
    Assoc(some, output, rest);
    Assoc(v.delivered, some, output + rest);
  }

  /** No stage of a run in its invariant meets a malformed message. */
  lemma NeverMalformed(v: View, payload: bytes)
    requires v.Inv(payload)
    ensures !After(v.copyAt, v.mid1).Malformed? && After(v.copyAt, v.mid1) != Overflow
    ensures !After(v.decodeAt, v.mid2).Malformed? && After(v.decodeAt, v.mid2) != Overflow
  {
    ImageSound(v.turn);
    if Stopped(v.copyAt) {
      ReadStopped(v.copyAt, v.mid1);
    }
  }

  /** End to end safety: what has been delivered is always a prefix of the payload. Once the
      decoder reports the end of the message, the whole payload has come out of it exactly
      when the message was not cut short. */
  lemma DeliveredPrefix(v: View, payload: bytes)
    requires v.Inv(payload)
    ensures v.delivered + v.output <= payload
    ensures v.decodeAt.End? ==> Ended(v.turn)
    ensures v.decodeAt.End? ==> (v.delivered + v.output == payload <==> !v.CutShort())
  {
    var rest := Decoded(v.decodeAt, v.mid2) + (Decoded(v.copyAt, v.mid1) + (v.input + v.upstream));
    Assoc(v.delivered, v.output, rest);
    if v.decodeAt.End? {
      ReadStopped(End, v.mid2);
      ReadStopped(End, v.mid1);
      ImageEnd(v.turn);
      assert rest == v.input + v.upstream;
    }
  }

  /** What a driver may do next: let data arrive in the encoder's input, run a stage, or take
      delivered bytes out of the last buffer. */
  datatype Action = Arrive(n: nat) | Encode(inEmpty: bool) | Copy | Decode | Drain(n: nat)

  // ---- Runs ----

  /** A state of a run, with the room the outputs of the encoder and of the decoder have left. */
  datatype Shot = Snap(view: View, room: nat, outRoom: nat)
  {
    ghost predicate Inv(payload: bytes) { view.Inv(payload) }

    function Pending(wanted: nat): bytes
      requires Backed(view.turn, view.input)
    {
      ChunkEncoder.Pending(view.turn, view.input, wanted)
    }

    /** How much the encoder writes when it is run here and does not fail. */
    function Writes(wanted: nat): nat
      requires Backed(view.turn, view.input)
    {
      Min(|Pending(wanted)|, room)
    }

    /** The encoder fails when it is run here, behind a stage that is flagged `inEmpty`. */
    predicate Fails(wanted: nat, inEmpty: bool)
      requires Backed(view.turn, view.input)
    {
      ChunkEncoder.Fails(inEmpty, wanted, view.turn, view.input, room)
    }

    /** The decoder spins when it is run here. */
    predicate Spins() { |Decoded(view.decodeAt, view.mid2)| > outRoom }
  }

  /** The encoder has written some of what was pending, unless it failed as much as there was room
      for. */
  ghost predicate EncodeStep(wanted: nat, inEmpty: bool, x: Shot, y: Shot)
  {
    && Backed(x.view.turn, x.view.input) && |y.view.input| <= |x.view.input|
    && y.room <= x.room && x.room - y.room <= |x.Pending(wanted)|
    && (if x.Fails(wanted, inEmpty) then !Ended(y.view.turn)
        else Resting(y.view.turn) && x.room - y.room == x.Writes(wanted))
    && var out, used := x.Pending(wanted)[..x.room - y.room], x.view.input[..|x.view.input| - |y.view.input|];
       && Emits(true, wanted, x.view.turn, x.view.input, out, used, y.view.turn, y.view.input)
       && y == Encoded(x, y.view.turn, y.view.input, out)
  }

  function Encoded(x: Shot, turn: Turn, input: bytes, out: bytes): Shot
    requires |out| <= x.room
  {
    x.(view := x.view.(turn := turn, input := input, mid1 := x.view.mid1 + out), room := x.room - |out|)
  }

  /** What an action does to what it does not touch: nothing. A passed over action changes nothing
      at all. */
  ghost predicate Stepped(wanted: nat, x: Shot, a: Action, y: Shot)
  {
    var v, w := x.view, y.view;
    match a
    case Encode(inEmpty) => EncodeStep(wanted, inEmpty, x, y)
    case Arrive(_) => w == v.(input := w.input, upstream := w.upstream) && w.input + w.upstream == v.input + v.upstream
    case Copy => w == v.(mid1 := w.mid1, copyAt := w.copyAt, mid2 := w.mid2)
    case Decode => w == v.(mid2 := w.mid2, decodeAt := w.decodeAt, output := w.output)
    case Drain(_) => w == v.(output := w.output, delivered := w.delivered)
  }

  /** The guard of the branch that loses data: the encoder is run with room for all that is
      pending, but for the zero line, and does not fail, while more is to come. */
  predicate Cuts(wanted: nat, inEmpty: bool, x: Shot)
  {
    var v := x.view;
    && Backed(v.turn, v.input) && !Ended(v.turn) && !x.Fails(wanted, inEmpty)
    && |x.Pending(wanted)| <= x.room + 3 && v.upstream != []
  }

  ghost predicate IsRun(wanted: nat, schedule: seq<Action>, run: seq<Shot>, payload: bytes)
  {
    && |run| == |schedule| + 1
    && (forall i :: 0 <= i < |run| ==> run[i].Inv(payload))
    && (forall i :: 0 <= i < |schedule| ==> Stepped(wanted, run[i], schedule[i], run[i + 1]))
  }

  ghost predicate CutAt(wanted: nat, schedule: seq<Action>, run: seq<Shot>, i: nat)
    requires i < |schedule| && i < |run|
  {
    schedule[i].Encode? && Cuts(wanted, schedule[i].inEmpty, run[i])
  }

  ghost predicate SomeCut(wanted: nat, schedule: seq<Action>, run: seq<Shot>, n: nat)
    requires n <= |schedule| && n <= |run|
  {
    exists i :: 0 <= i < n && CutAt(wanted, schedule, run, i)
  }

  /** In this step of a run the decoder spins. */
  ghost predicate SpinsAt(schedule: seq<Action>, run: seq<Shot>, i: nat)
    requires i < |schedule| && i < |run|
  {
    schedule[i].Decode? && run[i].Spins()
  }

  ghost predicate NoneSpins(schedule: seq<Action>, run: seq<Shot>, n: nat)
    requires n <= |schedule| && n <= |run|
  {
    forall i :: 0 <= i < n ==> !SpinsAt(schedule, run, i)
  }

  lemma WritesWhat(wanted: nat, inEmpty: bool, x: Shot, y: Shot, out: bytes, used: bytes)
    requires Emits(true, wanted, x.view.turn, x.view.input, out, used, y.view.turn, y.view.input)
    requires |out| <= x.room && y == Encoded(x, y.view.turn, y.view.input, out)
    requires if x.Fails(wanted, inEmpty) then y.view.turn.Boundary? || y.view.turn.Data?
             else (y.view.turn.Finished? || y.room == 0) && Resting(y.view.turn)
    ensures EncodeStep(wanted, inEmpty, x, y) && (!x.Fails(wanted, inEmpty) ==> |out| == x.Writes(wanted))
  {
    var p := x.Pending(wanted);
    assert p == out + y.Pending(wanted) && p[..|out|] == out;
    assert x.view.input == used + y.view.input && x.view.input[..|used|] == used;
  }

  lemma EncodeDoes(wanted: nat, inEmpty: bool, x: Shot, y: Shot, out: bytes, used: bytes, payload: bytes)
    requires wanted > 0 && x.Inv(payload) && (y.view.turn.Line? ==> y.view.turn.size < SIZE_LIMIT)
    requires Emits(true, wanted, x.view.turn, x.view.input, out, used, y.view.turn, y.view.input)
    requires |out| <= x.room && y == Encoded(x, y.view.turn, y.view.input, out)
    requires if x.Fails(wanted, inEmpty) then y.view.turn.Boundary? || y.view.turn.Data?
             else (y.view.turn.Finished? || y.room == 0) && Resting(y.view.turn)
    ensures y.Inv(payload) && EncodeStep(wanted, inEmpty, x, y)
    ensures !x.Fails(wanted, inEmpty) ==> |out| == x.Writes(wanted)
    ensures !Ended(x.view.turn) ==>
              (Ended(y.view.turn) <==> !x.Fails(wanted, inEmpty) && |x.Pending(wanted)| <= x.room + 3)
  {
    EncodeKeepsInv(x.view, wanted, out, used, y.view.turn, y.view.input, payload);
    WritesWhat(wanted, inEmpty, x, y, out, used);
    if !x.Fails(wanted, inEmpty) {
      EndsWhen(true, wanted, x.room, x.view.turn, x.view.input, out, used, y.view.turn, y.view.input);
    }
  }

  /** What a call of the encoder that does not fail has done to the line: what is pending no more is
      in its output. */
  ghost predicate Written(wanted: nat, v: View, w: View)
  {
    && w == v.(turn := w.turn, input := w.input, mid1 := w.mid1) && |w.mid1| >= |v.mid1| && |w.input| <= |v.input|
    && Backed(v.turn, v.input) && Backed(w.turn, w.input)
    && |Pending(w.turn, w.input, wanted)| + |w.mid1| == |Pending(v.turn, v.input, wanted)| + |v.mid1|
    && (Ended(v.turn) ==> Ended(w.turn) && w.input == v.input)
    && (!Ended(v.turn) && Ended(w.turn) ==> w.input == [])
    && (v.turn.Finished? ==> w.turn.Finished? && w.mid1 == v.mid1)
  }

  lemma StepTells(wanted: nat, inEmpty: bool, x: Shot, y: Shot)
    requires wanted > 0 && EncodeStep(wanted, inEmpty, x, y) && !x.Fails(wanted, inEmpty)
    ensures Written(wanted, x.view, y.view)
  {
    var out, used := x.Pending(wanted)[..x.Writes(wanted)], x.view.input[..|x.view.input| - |y.view.input|];
    assert x.Pending(wanted) == out + y.Pending(wanted) && x.view.input == used + y.view.input;
    PendingLength(y.view.turn, y.view.input, wanted);
  }

  /** A call of the encoder ends the message exactly when it does not fail and all but the zero line
      of what is pending goes into the room. */
  lemma StepEnds(wanted: nat, inEmpty: bool, x: Shot, y: Shot)
    requires EncodeStep(wanted, inEmpty, x, y) && !Ended(x.view.turn)
    ensures Ended(y.view.turn) <==> !x.Fails(wanted, inEmpty) && |x.Pending(wanted)| <= x.room + 3
  {
    if !x.Fails(wanted, inEmpty) {
      var out, used := x.Pending(wanted)[..x.Writes(wanted)], x.view.input[..|x.view.input| - |y.view.input|];
      EndsWhen(true, wanted, x.room, x.view.turn, x.view.input, out, used, y.view.turn, y.view.input);
    }
  }

  lemma EncodeCuts(wanted: nat, inEmpty: bool, x: Shot, y: Shot)
    requires wanted > 0 && EncodeStep(wanted, inEmpty, x, y)
    ensures y.view.CutShort() <==> x.view.CutShort() || Cuts(wanted, inEmpty, x)
  {
    if !Ended(x.view.turn) { StepEnds(wanted, inEmpty, x, y); }
  }

  lemma StepCuts(wanted: nat, x: Shot, a: Action, y: Shot, payload: bytes)
    requires wanted > 0 && x.Inv(payload) && y.Inv(payload) && Stepped(wanted, x, a, y)
    ensures y.view.CutShort() <==> x.view.CutShort() || (a.Encode? && Cuts(wanted, a.inEmpty, x))
  {
    if a.Encode? { EncodeCuts(wanted, a.inEmpty, x, y); }
  }

  lemma RunOn(wanted: nat, schedule: seq<Action>, i: nat, run: seq<Shot>, next: Shot, payload: bytes)
    requires i < |schedule| && IsRun(wanted, schedule[..i], run, payload) && next.Inv(payload)
    requires Stepped(wanted, run[i], schedule[i], next)
    ensures IsRun(wanted, schedule[..i + 1], run + [next], payload)
  {
  }

  /** The first `n` actions of a schedule have been run, and only in the last of them may the decoder
      spin; `spins` says whether it does. */
  ghost predicate RunsTo(wanted: nat, schedule: seq<Action>, run: seq<Shot>, n: nat, spins: bool, payload: bytes)
  {
    && n <= |schedule| && IsRun(wanted, schedule[..n], run, payload)
    && (if spins then n > 0 && SpinsAt(schedule, run, n - 1) && NoneSpins(schedule, run, n - 1)
        else NoneSpins(schedule, run, n))
  }

  lemma RunsOn(wanted: nat, schedule: seq<Action>, run: seq<Shot>, n: nat, next: Shot, spins: bool, payload: bytes)
    requires RunsTo(wanted, schedule, run, n, false, payload) && n < |schedule| && next.Inv(payload)
    requires Stepped(wanted, run[n], schedule[n], next) && spins == SpinsAt(schedule, run, n)
    ensures RunsTo(wanted, schedule, run + [next], n + 1, spins, payload)
  {
    RunOn(wanted, schedule, n, run, next, payload);
    assert forall i :: 0 <= i <= n ==> SpinsAt(schedule, run + [next], i) == SpinsAt(schedule, run, i);
  }

  /** What is known of the end of such a run. */
  lemma RunTells(wanted: nat, schedule: seq<Action>, run: seq<Shot>, n: nat, spins: bool, payload: bytes)
    requires wanted > 0 && RunsTo(wanted, schedule, run, n, spins, payload)
    ensures var v := run[n].view;
            && v.delivered + v.output <= payload
            && (v.decodeAt.End? ==> (v.delivered + v.output == payload <==>
                                     !run[0].view.CutShort() && !SomeCut(wanted, schedule[..n], run, n)))
  {
    CutShortExactly(wanted, schedule[..n], run, payload);
    assert run[n].Inv(payload);
    DeliveredPrefix(run[n].view, payload);
  }

  lemma CutStep(wanted: nat, schedule: seq<Action>, run: seq<Shot>, payload: bytes, n: nat)
    requires wanted > 0 && IsRun(wanted, schedule, run, payload) && n < |schedule|
    ensures run[n + 1].view.CutShort() <==> run[n].view.CutShort() || CutAt(wanted, schedule, run, n)
  {
    var x, a, y := run[n], schedule[n], run[n + 1];
    assert x.Inv(payload) && y.Inv(payload) && Stepped(wanted, x, a, y);
    StepCuts(wanted, x, a, y, payload);
  }

  /** Some of the first `n` is true. */
  predicate Some(s: seq<bool>, n: nat)
    requires n <= |s|
  {
    exists i :: 0 <= i < n && s[i]
  }

  lemma {:induction false} SomeBefore(short: seq<bool>, cut: seq<bool>, n: nat)
    requires |short| == |cut| + 1 && n <= |cut|
    requires forall i :: 0 <= i < |cut| ==> short[i + 1] == (short[i] || cut[i])
    ensures short[n] <==> short[0] || Some(cut, n)
  {
    if n > 0 {
      SomeBefore(short, cut, n - 1);
      assert short[n - 1 + 1] == (short[n - 1] || cut[n - 1]);
    }
  }

  lemma Shorts(run: seq<Shot>) returns (short: seq<bool>)
    ensures |short| == |run| && forall i :: 0 <= i < |run| ==> short[i] == run[i].view.CutShort()
  {
    short := seq(|run|, i requires 0 <= i < |run| => run[i].view.CutShort());
  }

  lemma CutsOf(wanted: nat, schedule: seq<Action>, run: seq<Shot>) returns (cut: seq<bool>)
    requires |schedule| <= |run|
    ensures |cut| == |schedule| && forall i :: 0 <= i < |cut| ==> cut[i] == CutAt(wanted, schedule, run, i)
    ensures Some(cut, |cut|) == SomeCut(wanted, schedule, run, |cut|)
  {
    var n := |schedule|;
    cut := seq(n, i requires 0 <= i < n => CutAt(wanted, schedule, run, i));
    assert forall i :: 0 <= i < n ==> cut[i] == CutAt(wanted, schedule, run, i);
  }

  /** Exactly when a message is cut short: when in its run some call of the encoder meets that
      guard. */
  lemma CutShortExactly(wanted: nat, schedule: seq<Action>, run: seq<Shot>, payload: bytes)
    requires wanted > 0 && IsRun(wanted, schedule, run, payload)
    ensures run[|schedule|].view.CutShort()
            <==> run[0].view.CutShort() || SomeCut(wanted, schedule, run, |schedule|)
  {
    var short := Shorts(run);
    var cut := CutsOf(wanted, schedule, run);
    forall i | 0 <= i < |cut| ensures short[i + 1] == (short[i] || cut[i]) {
      CutStep(wanted, schedule, run, payload, i);
    }
    SomeBefore(short, cut, |cut|);
  }

  lemma NothingOut(v: View, payload: bytes)
    requires v.Inv(payload) && v.upstream == payload
    ensures v.delivered + v.output == [] && v.input == []
  {
    assert |v.Total()| == |payload|;
  }

  class Pipeline {
    var upstream: bytes
    const inBuff: PushPullBuffer
    const encoder: Encoder
    const mid1: PushPullBuffer
    const copier: Decoder
    const mid2: PushPullBuffer
    const decoder: Decoder
    const outBuff: PushPullBuffer
    var delivered: bytes

    ghost function Repr(): set<object>
    {
      {this, inBuff, inBuff.buff, encoder, encoder.currentChunkChars, mid1, mid1.buff, copier,
       mid2, mid2.buff, decoder, outBuff, outBuff.buff}
    }

    ghost predicate Separate()
    {
      && inBuff !in {mid1, mid2, outBuff} && mid1 !in {mid2, outBuff} && mid2 != outBuff
      && inBuff.buff !in {mid1.buff, mid2.buff, outBuff.buff}
      && mid1.buff !in {mid2.buff, outBuff.buff} && mid2.buff != outBuff.buff
      && encoder.currentChunkChars !in {inBuff.buff, mid1.buff, mid2.buff, outBuff.buff}
      && copier != decoder && copier.copyAll && !decoder.copyAll
    }

    ghost predicate PartsValid()
      reads Repr()
    {
      && Separate()
      && inBuff.Valid() && mid1.Valid() && mid2.Valid() && outBuff.Valid()
      && mid1.Settled() && mid2.Settled() && outBuff.Settled()
      && encoder.Valid() && copier.Valid() && decoder.Valid()
      && encoder.wanted > 0 && encoder.Fits(inBuff)
    }

    ghost function View(): View
      requires PartsValid()
      reads Repr()
    {
      At(upstream, inBuff.Contents(), encoder.Turn(), mid1.Contents(), copier.Phase(),
           mid2.Contents(), decoder.Phase(), outBuff.Contents(), delivered)
    }

    ghost predicate Inv(payload: bytes)
      reads Repr()
    {
      PartsValid() && View().Inv(payload)
    }

    ghost function Shot(): Shot
      requires PartsValid()
      reads Repr()
    {
      Snap(View(), mid1.Room(), outBuff.Room())
    }

    /** Hooks up freshly made stages, over buffers of any sizes, with any legal chunk size; the
        payload is still to arrive. */
    constructor (payload: bytes, inBuff: PushPullBuffer, encoder: Encoder, mid1: PushPullBuffer, copier: Decoder,
                 mid2: PushPullBuffer, decoder: Decoder, outBuff: PushPullBuffer)
      requires inBuff !in {mid1, mid2, outBuff} && mid1 !in {mid2, outBuff} && mid2 != outBuff
      requires inBuff.buff !in {mid1.buff, mid2.buff, outBuff.buff}
      requires mid1.buff !in {mid2.buff, outBuff.buff} && mid2.buff != outBuff.buff
      requires encoder.currentChunkChars !in {inBuff.buff, mid1.buff, mid2.buff, outBuff.buff}
      requires copier != decoder && copier.copyAll && !decoder.copyAll
      requires forall b :: b in {inBuff, mid1, mid2, outBuff} ==> b.Valid() && b.Settled() && b.Contents() == []
      requires encoder.Valid() && encoder.Turn() == Boundary && encoder.wanted > 0 && encoder.Fits(inBuff)
      requires forall d :: d in {copier, decoder} ==> d.Valid() && d.Phase() == Size(0)
      ensures Inv(payload) && View() == Start.(upstream := payload)
      ensures this.inBuff == inBuff && this.encoder == encoder && this.mid1 == mid1 && this.copier == copier
      ensures this.mid2 == mid2 && this.decoder == decoder && this.outBuff == outBuff
    {
      upstream, delivered := payload, [];
      this.inBuff, this.encoder, this.mid1, this.copier := inBuff, encoder, mid1, copier;
      this.mid2, this.decoder, this.outBuff := mid2, decoder, outBuff;
      new;
      InitialInv(payload);
    }

    method TakeIn(some: bytes) returns (k: nat, ghost taken: bytes)
      requires PartsValid()
      modifies inBuff`readOffset, inBuff.buff
      ensures PartsValid() && View() == old(View()).(input := old(inBuff.Contents()) + taken)
      ensures k == |taken| == Min(|some|, old(inBuff.Room())) && taken == some[..k]
    {
      ghost var rest;
      k, taken, rest := inBuff.ReadFromBuffer(some);
    }

    method Sent(k: nat)
      requires PartsValid() && k <= |upstream|
      modifies this`upstream
      ensures PartsValid() && View() == old(View()).(upstream := old(upstream)[k..])
    {
      upstream := upstream[k..];
    }

    method Arrive(n: nat, ghost payload: bytes)
      requires Inv(payload)
      modifies this`upstream, inBuff`readOffset, inBuff.buff
      ensures Inv(payload)
      ensures View() == old(View()).(input := inBuff.Contents(), upstream := upstream)
      ensures inBuff.Contents() + upstream == old(inBuff.Contents() + upstream)
      ensures |inBuff.Contents()| == |old(inBuff.Contents())| + Min(Min(n, |old(upstream)|), old(inBuff.Room()))
    {
      ghost var view := View();
      ghost var taken;
      var k;
      k, taken := TakeIn(if n < |upstream| then upstream[..n] else upstream);
      assert taken == view.upstream[..k];
      Cut(view.upstream, k);
      ArriveKeepsInv(view, taken, view.upstream[k..], payload);
      Assoc(view.input, taken, view.upstream[k..]);
      Sent(k);
    }

    method CallEncoder(inEmpty: bool) returns (moved: int, ghost out: bytes, ghost used: bytes)
      requires PartsValid() && Backed(encoder.Turn(), inBuff.Contents())
      modifies encoder, encoder.currentChunkChars, inBuff`readOffset, inBuff`writeOffset, mid1`readOffset, mid1.buff
      ensures PartsValid() && mid1.Room() == old(mid1.Room()) - |out|
      ensures mid1.Contents() == old(mid1.Contents()) + out
      ensures Emits(true, encoder.wanted, old(encoder.Turn()), old(inBuff.Contents()), out, used, encoder.Turn(),
                inBuff.Contents())
      ensures moved < 0 <==>
              Fails(inEmpty, encoder.wanted, old(encoder.Turn()), old(inBuff.Contents()), old(mid1.Room()))
      ensures if moved < 0 then encoder.Turn().Boundary? || encoder.Turn().Data?
              else moved == |out| && Resting(encoder.Turn()) && (encoder.chunkState.Done? || mid1.Room() == 0)
    {
      moved, out, used := encoder.Process(inBuff, mid1, inEmpty);
    }

    method RunEncoder(inEmpty: bool, ghost payload: bytes) returns (moved: int, ghost out: bytes, ghost used: bytes)
      requires Inv(payload)
      modifies encoder, encoder.currentChunkChars, inBuff`readOffset, inBuff`writeOffset, mid1`readOffset, mid1.buff
      ensures PartsValid() && |out| <= old(mid1.Room())
      ensures Shot() == Encoded(old(Shot()), encoder.Turn(), inBuff.Contents(), out)
      ensures Emits(true, encoder.wanted, old(Shot()).view.turn, old(Shot()).view.input, out, used, encoder.Turn(),
                inBuff.Contents())
      ensures moved < 0 <==> old(Shot()).Fails(encoder.wanted, inEmpty)
      ensures if moved < 0 then encoder.Turn().Boundary? || encoder.Turn().Data?
              else moved == |out| && Resting(encoder.Turn()) && (encoder.chunkState.Done? || mid1.Room() == 0)
    {
      moved, out, used := CallEncoder(inEmpty);
    }

    /** The encoder writes as much of what is pending as there is room for, unless it fails. Exactly
        when it all goes into the room, but for the zero line, it takes its input for the whole rest
        of the payload. `inEmpty` is the flag of the stage before, which looks at no data. */
    method Encode(inEmpty: bool, ghost payload: bytes) returns (moved: int)
      requires Inv(payload)
      modifies encoder, encoder.currentChunkChars, inBuff`readOffset, inBuff`writeOffset, mid1`readOffset, mid1.buff
      ensures Inv(payload) && EncodeStep(encoder.wanted, inEmpty, old(Shot()), Shot())
      ensures moved < 0 <==> old(Shot()).Fails(encoder.wanted, inEmpty)
      ensures moved >= 0 ==>
                (encoder.chunkState.Done? || mid1.Room() == 0) && moved == old(Shot()).Writes(encoder.wanted)
      ensures !old(Ended(encoder.Turn())) ==>
                (Ended(encoder.Turn()) <==>
                 moved >= 0 && |old(Shot()).Pending(encoder.wanted)| <= old(mid1.Room()) + 3)
    {
      ghost var x := Shot();
      ghost var out, used;
      moved, out, used := RunEncoder(inEmpty, payload);
      EncodeDoes(encoder.wanted, inEmpty, x, Shot(), out, used, payload);
    }

    /** What a driver needs to know of that, where the stage before is flagged empty only when it is. */
    method EncodeOn(inEmpty: bool, ghost payload: bytes) returns (moved: int)
      requires Inv(payload) && (inEmpty ==> inBuff.DataSize() == 0)
      modifies encoder, encoder.currentChunkChars, inBuff`readOffset, inBuff`writeOffset, mid1`readOffset, mid1.buff
      ensures Inv(payload) && moved >= 0 && (encoder.chunkState.Done? || mid1.Room() == 0)
      ensures Written(encoder.wanted, old(View()), View())
    {
      ghost var shot := Shot();
      FailsNever(inEmpty, encoder.wanted, encoder.Turn(), inBuff.Contents(), mid1.Room());
      moved := Encode(inEmpty, payload);
      StepTells(encoder.wanted, inEmpty, shot, Shot());
    }

    method Copy(ghost payload: bytes) returns (moved: int)
      requires Inv(payload) && !copier.empty
      modifies copier, mid1`readOffset, mid1`writeOffset, mid2`readOffset, mid2.buff
      ensures Inv(payload) && moved >= 0
      ensures copier.empty || mid1.Contents() == [] || mid2.Room() == 0
      ensures View() == old(View()).(mid1 := mid1.Contents(), copyAt := copier.Phase(), mid2 := mid2.Contents())
      ensures |mid1.Contents()| + moved == |old(mid1.Contents())|
      ensures |mid2.Contents()| == |old(mid2.Contents())| + moved && mid2.Room() == old(mid2.Room()) - moved
    {
      ghost var view := View();
      NeverMalformed(view, payload);
      ghost var s, passed;
      var spins;
      moved, spins, s, passed := copier.Process(mid1, mid2);
      CopyKeepsInv(view, s, copier.Phase(), mid1.Contents(), payload);
    }

    /** The decoder reads all there is, or reaches the end, or spins. */
    method Decode(ghost payload: bytes) returns (moved: int, spins: bool)
      requires Inv(payload) && !decoder.empty
      modifies decoder, mid2`readOffset, mid2`writeOffset, outBuff`readOffset, outBuff.buff
      ensures Inv(payload) && moved >= 0 && spins == old(Shot()).Spins()
      ensures decoder.empty || mid2.Contents() == [] || spins
      ensures View() == old(View()).(mid2 := mid2.Contents(), decodeAt := decoder.Phase(), output := outBuff.Contents())
      ensures |mid2.Contents()| <= |old(mid2.Contents())|
    {
      ghost var view := View();
      NeverMalformed(view, payload);
      ghost var s, passed;
      moved, spins, s, passed := decoder.Process(mid2, outBuff);
      DecodeKeepsInv(view, s, decoder.Phase(), passed, mid2.Contents(), payload);
    }

    method TakeSome(n: nat) returns (some: bytes)
      requires PartsValid()
      modifies outBuff`readOffset, outBuff`writeOffset
      ensures PartsValid() && View() == old(View()).(output := outBuff.Contents())
      ensures old(outBuff.Contents()) == some + outBuff.Contents()
      ensures n >= |old(outBuff.Contents())| ==> outBuff.Contents() == []
    {
      some := outBuff.WriteToBuffer(n);
    }

    method Drain(n: nat, ghost payload: bytes)
      requires Inv(payload)
      modifies this`delivered, outBuff`readOffset, outBuff`writeOffset
      ensures Inv(payload)
      ensures View() == old(View()).(output := outBuff.Contents(), delivered := delivered)
      ensures delivered + outBuff.Contents() == old(delivered + outBuff.Contents())
      ensures n >= |old(outBuff.Contents())| ==> outBuff.Contents() == []
    {
      ghost var view := View();
      var some := TakeSome(n);
      delivered := delivered + some;
      DrainKeepsInv(view, some, outBuff.Contents(), payload);
      Assoc(view.delivered, some, outBuff.Contents());
    }

    method MoveOut(sink: PushPullBuffer) returns (held: bytes)
      requires PartsValid() && sink !in Repr() && sink.buff !in Repr() && sink.Valid()
      requires outBuff.DataSize() <= sink.Room()
      modifies outBuff`readOffset, outBuff`writeOffset, sink`readOffset, sink.buff
      ensures PartsValid() && held == old(outBuff.Contents()) && View() == old(View()).(output := [])
      ensures sink.Valid() && sink.Contents() == old(sink.Contents()) + held && sink.Room() == old(sink.Room()) - |held|
    {
      held := outBuff.buff[outBuff.writeOffset..outBuff.readOffset];
      var n;
      ghost var data;
      n, data := MoveBuffer(outBuff, sink);
      assert held == data + [] == data;
    }

    /** Everything that has come through goes into another buffer that has room for it. */
    method DrainInto(sink: PushPullBuffer, ghost payload: bytes)
      requires Inv(payload) && sink !in Repr() && sink.buff !in Repr() && sink.Valid()
      requires outBuff.DataSize() <= sink.Room()
      modifies this`delivered, outBuff`readOffset, outBuff`writeOffset, sink`readOffset, sink.buff
      ensures Inv(payload) && sink.Valid() && sink.Contents() == old(sink.Contents() + outBuff.Contents())
      ensures sink.Room() == old(sink.Room() - outBuff.DataSize())
      ensures View() == old(View()).(output := [], delivered := old(delivered + outBuff.Contents()))
    {
      ghost var view := View();
      var held := MoveOut(sink);
      delivered := delivered + held;
      assert held + [] == held;
      DrainKeepsInv(view, held, [], payload);
    }

    /** The decoder is run, unless it has reported the end. */
    method Decoding(ghost payload: bytes) returns (spins: bool)
      requires Inv(payload)
      modifies decoder, mid2`readOffset, mid2`writeOffset, outBuff`readOffset, outBuff.buff
      ensures Inv(payload) && spins == old(Shot()).Spins()
      ensures View() == old(View()).(mid2 := mid2.Contents(), decodeAt := decoder.Phase(), output := outBuff.Contents())
    {
      if decoder.empty {
        ReadStopped(End, View().mid2);
        spins := false;
      } else {
        var moved;
        moved, spins := Decode(payload);
      }
    }

    /** One action; a stage that has reported the end is passed over, as the driver does. */
    method Step(action: Action, ghost payload: bytes) returns (spins: bool)
      requires Inv(payload)
      modifies Repr()
      ensures Inv(payload) && Stepped(encoder.wanted, old(Shot()), action, Shot())
      ensures spins == (action.Decode? && old(Shot()).Spins())
    {
      spins := false;
      match action
      case Arrive(n) => Arrive(n, payload);
      case Encode(inEmpty) => var moved := Encode(inEmpty, payload);
      case Copy => if !copier.empty { var moved := Copy(payload); }
      case Decode => spins := Decoding(payload);
      case Drain(n) => Drain(n, payload);
    }

    method StepOn(schedule: seq<Action>, ghost run: seq<Shot>, n: nat, ghost payload: bytes) returns (spins: bool)
      requires Inv(payload) && n < |schedule| && RunsTo(encoder.wanted, schedule, run, n, false, payload)
      requires run[n] == Shot()
      modifies Repr()
      ensures Inv(payload) && RunsTo(encoder.wanted, schedule, run + [Shot()], n + 1, spins, payload)
    {
      spins := Step(schedule[n], payload);
      RunsOn(encoder.wanted, schedule, run, n, Shot(), spins, payload);
    }

    method RunOver(schedule: seq<Action>, ghost payload: bytes) returns (ghost run: seq<Shot>, n: nat, spins: bool)
      requires Inv(payload)
      modifies Repr()
      ensures Inv(payload) && RunsTo(encoder.wanted, schedule, run, n, spins, payload) && (spins || n == |schedule|)
      ensures run[0] == old(Shot()) && run[n] == Shot()
    {
      run, n, spins := [Shot()], 0, false;
      while n < |schedule| && !spins
        invariant Inv(payload) && RunsTo(encoder.wanted, schedule, run, n, spins, payload)
        invariant run[0] == old(Shot()) && run[n] == Shot()
        decreases |schedule| - n
      {
        spins := StepOn(schedule, run, n, payload);
        run, n := run + [Shot()], n + 1;
      }
    }

    /** Any schedule at all, over buffers of any sizes. It is run to its end, or to the first step in
        which the decoder spins. After any number of steps what came out is a prefix of the payload.
        When the decoder reports the end, it is the whole payload, unless in some step the encoder
        was run with room for all that was pending while more was still to come. */
    method Run(schedule: seq<Action>, ghost payload: bytes) returns (ghost run: seq<Shot>, n: nat, spins: bool)
      requires Inv(payload)
      modifies Repr()
      ensures Inv(payload) && RunsTo(encoder.wanted, schedule, run, n, spins, payload) && (spins || n == |schedule|)
      ensures run[0] == old(Shot()) && run[n] == Shot()
      ensures delivered + outBuff.Contents() <= payload
      ensures decoder.empty ==> (delivered + outBuff.Contents() == payload <==>
                                 !old(View().CutShort()) && !SomeCut(encoder.wanted, schedule[..n], run, n))
    {
      run, n, spins := RunOver(schedule, payload);
      RunTells(encoder.wanted, schedule, run, n, spins, payload);
    }

    method EndAtOnce(payload: bytes)
      requires Inv(payload) && View() == Start.(upstream := payload) && mid1.Room() >= 3
      modifies encoder, encoder.currentChunkChars, inBuff`readOffset, inBuff`writeOffset, mid1`readOffset, mid1.buff
      ensures Inv(payload) && encoder.Turn().Finished?
      ensures View() == old(View()).(turn := Finished, input := inBuff.Contents(), mid1 := mid1.Contents())
                && |View().mid1| == 3
    {
      SizeLineComplete(0);
      assert |Shot().Pending(encoder.wanted)| == 3;
      var n := Encode(true, payload);
      PendingLength(encoder.Turn(), inBuff.Contents(), encoder.wanted);
    }

    /** For one: an encoder that is run before any of the payload has come ends the message, and the
        decoder reports the end with nothing delivered. */
    method EndTooSoon(payload: bytes)
      requires Inv(payload) && View() == Start.(upstream := payload) && payload != []
      requires mid1.Room() >= 3 && mid2.Room() >= 3 && outBuff.Room() >= 3
      modifies Repr()
      ensures Inv(payload) && decoder.empty && delivered + outBuff.Contents() == [] && upstream == payload
    {
      EndAtOnce(payload);
      var n := Copy(payload);
      assert copier.empty;
      DecodedLength(View().decodeAt, View().mid2);
      var spins;
      n, spins := Decode(payload);
      NothingOut(View(), payload);
    }
  }
}
