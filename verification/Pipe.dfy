/** The stage chain of src/pipe.c with its NULL and LIMITED stages, and the driver that runs it. */
module Pipe {
  import opened Bytes
  import opened PushPull
  import opened PipeFlow

  class Stage {
    /** CS_PIPE_LIMITED, which lets `maxBytes` bytes through; otherwise CS_PIPE_NULL. */
    const limited: bool
    const maxBytes: nat
    const fragile: bool
    const buffer: PushPullBuffer?
    var prev: Stage? // the source's field `in`
    var next: Stage?
    var empty: bool
    var error: bool
    var closed: bool
    var currentBytesTransferred: nat
    var movedAll: bool

    /** CS_pipeCreateWithBuffer: a limited stage needs a buffer and a limit. */
    constructor (limited: bool, maxBytes: nat, fragile: bool, buffer: PushPullBuffer?)
      requires limited ==> buffer != null && maxBytes > 0
      ensures this.limited == limited && this.maxBytes == maxBytes && this.buffer == buffer
      ensures prev == null && next == null && !empty && !error && !closed
      ensures currentBytesTransferred == 0 && !movedAll
    {
      this.limited, this.maxBytes, this.fragile, this.buffer := limited, maxBytes, fragile, buffer;
      prev, next := null, null;
      empty, error, closed := false, false, false;
      currentBytesTransferred, movedAll := 0, false;
    }

    ghost function Memory(): set<object>
    {
      if buffer == null then {} else {buffer, buffer.buff}
    }

    /** The stage looks like `v`: its buffer, */
    ghost predicate BufferShows(v: StageView)
      reads Memory()
    {
      && (v.buffered <==> buffer != null)
      && (buffer != null ==>
            && buffer.Valid() && buffer.Settled() && buffer.buff.Length == v.size
            && buffer.Contents() == v.data && buffer.Room() == v.room)
      && (buffer == null ==> v.data == [])
    }

    /** and its counters and flags. */
    ghost predicate FlagsShow(v: StageView)
      reads this
    {
      && v.limited == limited && v.max == maxBytes
      && (limited ==> v.moved == currentBytesTransferred && (movedAll <==> v.moved >= v.max))
      && v.empty == empty && !error && !closed
    }

    ghost predicate Shows(v: StageView)
      reads this, Memory()
    {
      BufferShows(v) && FlagsShow(v)
    }
  }

  /** CS_pipeHook. */
  method Hook(first: Stage, second: Stage) returns (failed: bool)
    modifies first`next, second`prev
    ensures failed == (old(first.next) != null || old(second.prev) != null)
    ensures if failed then first.next == old(first.next) && second.prev == old(second.prev)
            else first.next == second && second.prev == first
  {
    if first.next != null { return true; }
    if second.prev != null { return true; }
    first.next := second;
    second.prev := first;
    return false;
  }

  ghost predicate Apart(s: Stage, t: Stage)
  {
    s != t && (s.buffer != null && t.buffer != null ==> s.buffer != t.buffer && s.buffer.buff != t.buffer.buff)
  }

  ghost predicate LinkedAt(c: seq<Stage>, k: nat)
    requires k < |c|
    reads c
  {
    && c[k].prev == (if k > 0 then c[k - 1] else null)
    && c[k].next == (if k + 1 < |c| then c[k + 1] else null)
  }

  /** `c` is a whole chain, source first. */
  ghost predicate Linked(c: seq<Stage>)
    reads c
  {
    && (forall k :: 0 <= k < |c| ==> LinkedAt(c, k))
    && (forall k, n :: 0 <= k < n < |c| ==> Apart(c[k], c[n]))
  }

  ghost function Memory(c: seq<Stage>): set<object>
  {
    set k, o | 0 <= k < |c| && o in c[k].Memory() :: o
  }

  ghost predicate Mirrors(c: seq<Stage>, vs: Chain)
    reads c, Memory(c)
  {
    |c| == |vs| && forall k :: 0 <= k < |c| ==> c[k].Shows(vs[k])
  }

  /** CS_pipeNearestInBuffer. */
  method NearestInBuffer(stage: Stage, ghost c: seq<Stage>, ghost vs: Chain, ghost i: nat) returns (b: PushPullBuffer?)
    requires Linked(c) && Mirrors(c, vs) && i < |c| && stage == c[i]
    ensures var j := Nearest(vs, i); b == if j < 0 then null else c[j].buffer
    ensures Nearest(vs, i) >= 0 ==> b != null
  {
    var current := stage;
    ghost var k: nat := i;
    assert LinkedAt(c, k);
    while current.prev != null && current.prev.buffer == null
      invariant k <= i && current == c[k] && LinkedAt(c, k) && Nearest(vs, i) == Nearest(vs, k)
      decreases k
    {
      assert c[k - 1].Shows(vs[k - 1]) && LinkedAt(c, k - 1);
      current := current.prev;
      k := k - 1;
    }
    if current.prev == null { return null; }
    assert c[k - 1].Shows(vs[k - 1]);
    return current.prev.buffer;
  }

  /** CS_pipeEmpty, asked of the stage before `i`. */
  method PipeEmpty(stage: Stage?, ghost c: seq<Stage>, ghost vs: Chain, ghost i: nat) returns (r: bool)
    requires Linked(c) && Mirrors(c, vs) && i <= |c| && stage == if i == 0 then null else c[i - 1]
    ensures r == EmptyBefore(vs, i)
  {
    var currentStage := stage;
    ghost var k: nat := i;
    while true
      invariant k <= i && currentStage == (if k == 0 then null else c[k - 1]) && Nearest(vs, i) == Nearest(vs, k)
      decreases k
    {
      if currentStage == null { return true; }
      assert c[k - 1].Shows(vs[k - 1]) && LinkedAt(c, k - 1);
      if currentStage.buffer != null && currentStage.empty { return true; }
      if currentStage.buffer == null {
        currentStage := currentStage.prev;
        k := k - 1;
      } else {
        return false;
      }
    }
  }

  lemma AreApart(c: seq<Stage>, k: nat, n: nat)
    requires Linked(c) && k < |c| && n < |c| && k != n
    ensures Apart(c[k], c[n])
  {
    if n < k {
      assert Apart(c[n], c[k]);
    }
  }

  lemma InMemory(c: seq<Stage>, k: nat)
    requires k < |c|
    ensures c[k].Memory() <= Memory(c)
  {
  }

  /** Moves bytes from the nearest buffer, stage `j`'s, into stage `i`'s; no other buffer changes. */
  method Transfer(nearest: PushPullBuffer, own: PushPullBuffer, max: nat,
                  ghost c: seq<Stage>, ghost vs: Chain, ghost j: nat, ghost i: nat) returns (n: nat)
    requires Linked(c) && j < i < |c| == |vs| && j == Nearest(vs, i)
    requires nearest == c[j].buffer && own == c[i].buffer
    requires Mirrors(c, vs)
    requires Min(max, Min(|vs[j].data|, vs[i].room)) == MoveSize(vs, i)
    modifies Memory(c)
    ensures n == MoveSize(vs, i) && Linked(c)
    ensures forall k :: 0 <= k < |c| ==> c[k].BufferShows(TakeIn(vs, i)[k]) && c[k].FlagsShow(vs[k])
  {
    assert c[j].Shows(vs[j]) && c[i].Shows(vs[i]) && Apart(c[j], c[i]);
    InMemory(c, i);
    InMemory(c, j);
    ghost var data;
    n, data := MoveBufferExplicit(nearest, own, max);
    assert data == vs[j].data[..n];
    forall k | 0 <= k < |c| ensures LinkedAt(c, k) {
      assert old(LinkedAt(c, k));
    }
    forall k | 0 <= k < |c| ensures c[k].FlagsShow(vs[k]) {
      assert old(c[k].Shows(vs[k]));
    }
    forall k | 0 <= k < |c| ensures c[k].BufferShows(TakeIn(vs, i)[k]) {
      assert old(c[k].Shows(vs[k]));
      if k != i && k != j {
        AreApart(c, k, i);
        AreApart(c, k, j);
      }
    }
  }

  /** copyFromNearest, the work of a NULL stage. */
  method CopyFromNearest(stage: Stage, ghost c: seq<Stage>, ghost vs: Chain, ghost i: nat)
    requires Linked(c) && Mirrors(c, vs) && i < |c| && stage == c[i] && !stage.limited
    modifies Memory(c)
    ensures Linked(c) && Mirrors(c, TakeIn(vs, i))
  {
    var nearest := NearestInBuffer(stage, c, vs, i);
    assert stage.Shows(vs[i]);
    if stage.buffer != null && nearest != null {
      ghost var j := Nearest(vs, i);
      assert c[j].Shows(vs[j]);
      var n := Transfer(nearest, stage.buffer, nearest.DataSize(), c, vs, j, i);
    }
  }

  /** The part of _limited that moves: no more than the rest of its share. Negative when there
      is nothing to take from. */
  method Limited(stage: Stage, ghost c: seq<Stage>, ghost vs: Chain, ghost i: nat) returns (r: int)
    requires Linked(c) && Mirrors(c, vs) && i < |c| && stage == c[i] && stage.limited
    requires vs[i].buffered && vs[i].moved <= vs[i].max
    modifies stage`currentBytesTransferred, stage`movedAll, Memory(c)
    ensures Linked(c) && Mirrors(c, TakeIn(vs, i))
    ensures r == if Nearest(vs, i) < 0 then -1 else MoveSize(vs, i)
  {
    var inBuff := NearestInBuffer(stage, c, vs, i);
    if inBuff == null { return -1; }
    ghost var j := Nearest(vs, i);
    assert stage.Shows(vs[i]) && c[j].Shows(vs[j]);
    r := 0;
    if inBuff.DataSize() > 0 && !stage.movedAll {
      var toMove := inBuff.DataSize();
      var roomOut := stage.buffer.Room();
      var maxBytes := stage.maxBytes - stage.currentBytesTransferred;
      if roomOut < toMove { toMove := roomOut; }
      if maxBytes < toMove { toMove := maxBytes; }
      r := Transfer(inBuff, stage.buffer, toMove, c, vs, j, i);
      Count(stage, r, c, vs, i);
    }
  }

  /** The counters of _limited after a move. */
  method Count(stage: Stage, moved: nat, ghost c: seq<Stage>, ghost vs: Chain, ghost i: nat)
    requires Linked(c) && |c| == |vs| && i < |c| && stage == c[i] && stage.limited && moved == MoveSize(vs, i)
    requires forall k :: 0 <= k < |c| ==> c[k].BufferShows(TakeIn(vs, i)[k]) && c[k].FlagsShow(vs[k])
    modifies stage`currentBytesTransferred, stage`movedAll
    ensures Linked(c) && Mirrors(c, TakeIn(vs, i))
  {
    assert stage.FlagsShow(vs[i]);
    stage.currentBytesTransferred := stage.currentBytesTransferred + moved;
    stage.movedAll := stage.currentBytesTransferred >= stage.maxBytes;
    forall k | 0 <= k < |c| ensures LinkedAt(c, k) {
      assert old(LinkedAt(c, k));
    }
    forall k | 0 <= k < |c| ensures c[k].Shows(TakeIn(vs, i)[k]) {
      assert old(c[k].BufferShows(TakeIn(vs, i)[k]) && c[k].FlagsShow(vs[k]));
      if k != i {
        AreApart(c, k, i);
      }
    }
  }

  /** After a stage has run: whether it has become empty. */
  method Conclude(stage: Stage, ghost c: seq<Stage>, ghost vs: Chain, ghost i: nat)
    requires Linked(c) && Mirrors(c, vs) && i < |c| && stage == c[i] && ShapedAt(vs, i)
    modifies stage`empty
    ensures Linked(c) && Mirrors(c, if Flags(vs, i) then Flag(vs, i) else vs)
  {
    assert stage.Shows(vs[i]) && LinkedAt(c, i);
    var behindEmpty := PipeEmpty(stage.prev, c, vs, i);
    var bufferEmpty := stage.buffer != null && stage.buffer.DataSize() == 0;
    if (stage.limited && bufferEmpty && stage.movedAll)
       || (bufferEmpty && behindEmpty)
       || (!stage.limited && stage.next == null && behindEmpty) {
      stage.empty := true;
    }
    ghost var ws := if Flags(vs, i) then Flag(vs, i) else vs;
    forall k | 0 <= k < |c| ensures LinkedAt(c, k) {
      assert old(LinkedAt(c, k));
    }
    forall k | 0 <= k < |c| ensures c[k].Shows(ws[k]) {
      if k != i {
        AreApart(c, k, i);
      }
    }
  }

  /** What a stage of a chain in its invariant can rely on when it is processed. */
  predicate Fit(vs: Chain, i: nat)
    requires i < |vs|
  {
    && (vs[i].limited ==> vs[i].buffered && vs[i].moved <= vs[i].max && Nearest(vs, i) >= 0)
    && ShapedAt(TakeIn(vs, i), i)
  }

  lemma StageIsFit(vs: Chain, i: nat, payload: bytes)
    requires Inv(vs, payload) && i < |vs|
    ensures Fit(vs, i)
  {
    assert StageOk(vs, i) && ShapedAt(vs, i);
    if vs[i].limited && Nearest(vs, i) < 0 { NearestGap(vs, i, 0); }
  }

  /** Every stage from `i` on can rely on that when its turn comes. */
  predicate FitOn(vs: Chain, i: nat)
    requires i <= |vs|
    decreases |vs| - i
  {
    i == |vs| || (Fit(vs, i) && FitOn(Step(vs, i), i + 1))
  }

  lemma {:induction false} ChainIsFit(vs: Chain, i: nat, payload: bytes)
    requires Inv(vs, payload) && i <= |vs|
    ensures FitOn(vs, i)
    decreases |vs| - i
  {
    if i < |vs| {
      StageIsFit(vs, i, payload);
      StepKeepsInv(vs, i, payload);
      ChainIsFit(Step(vs, i), i + 1, payload);
    }
  }

  /** What the driver does with one stage. No stage of a shaped chain fails. */
  method ProcessStage(stage: Stage, was: int, ghost c: seq<Stage>, ghost vs: Chain, ghost i: nat) returns (r: int)
    requires Linked(c) && Mirrors(c, vs) && i < |c| && stage == c[i] && Fit(vs, i)
    modifies stage`currentBytesTransferred, stage`movedAll, stage`empty, Memory(c)
    ensures Linked(c) && Mirrors(c, Step(vs, i)) && r == if vs[i].limited then MoveSize(vs, i) else was
  {
    assert stage.Shows(vs[i]);
    r := was;
    if stage.limited {
      r := Limited(stage, c, vs, i);
    } else {
      CopyFromNearest(stage, c, vs, i);
    }
    Conclude(stage, c, TakeIn(vs, i), i);
  }

  /** privateFront; null when every stage from there on is empty. */
  method FrontStage(anyStage: Stage, ghost c: seq<Stage>, ghost vs: Chain, ghost k: nat) returns (front: Stage?)
    requires Linked(c) && Mirrors(c, vs) && k < |c| && anyStage == c[k]
    ensures var f := Front(vs, k); front == if f < |c| then c[f] else null
  {
    var currentPipe := anyStage;
    ghost var q: nat := k;
    assert c[q].Shows(vs[q]) && LinkedAt(c, q);
    while currentPipe.prev != null && !(currentPipe.empty || currentPipe.error || currentPipe.closed)
      invariant q <= k && currentPipe == c[q] && c[q].Shows(vs[q]) && LinkedAt(c, q) && Back(vs, k) == Back(vs, q)
      decreases q
    {
      assert c[q - 1].Shows(vs[q - 1]) && LinkedAt(c, q - 1);
      currentPipe := currentPipe.prev;
      q := q - 1;
    }
    front := currentPipe;
    ghost var f: nat := q;
    while front != null && (front.empty || front.closed || front.error)
      invariant f <= |c| && front == (if f < |c| then c[f] else null) && Forward(vs, q) == Forward(vs, f)
      decreases |c| - f
    {
      assert c[f].Shows(vs[f]) && LinkedAt(c, f);
      front := front.next;
      f := f + 1;
    }
    if front != null { assert c[f].Shows(vs[f]); }
  }

  /** The loop of CS_pipeProcess, from stage `f` on. */
  method PassOver(front: Stage?, ghost c: seq<Stage>, ghost vs: Chain, ghost f: nat) returns (r: int)
    requires Linked(c) && Mirrors(c, vs) && f <= |c| && front == (if f < |c| then c[f] else null) && FitOn(vs, f)
    modifies c, Memory(c)
    ensures Linked(c) && Mirrors(c, Pass(vs, f)) && r == Returned(vs, f, 0)
  {
    var currentPipe := front;
    ghost var ws, g, goal, back := vs, f, Pass(vs, f), Returned(vs, f, 0);
    r := 0;
    while currentPipe != null
      invariant Linked(c) && Mirrors(c, ws) && r >= 0
      invariant g <= |c| && currentPipe == (if g < |c| then c[g] else null) && FitOn(ws, g)
      invariant goal == Pass(ws, g) && back == Returned(ws, g, r)
      decreases |c| - g
    {
      r := ProcessStage(currentPipe, r, c, ws, g);
      ws := Step(ws, g);
      assert LinkedAt(c, g);
      currentPipe := currentPipe.next;
      g := g + 1;
    }
  }

  /** CS_pipeProcess, from any stage of the chain. */
  method Process(anyStage: Stage, ghost c: seq<Stage>, ghost vs: Chain, ghost k: nat, ghost ws: Chain) returns (r: int)
    requires Linked(c) && Mirrors(c, vs) && k < |c| && anyStage == c[k]
    requires FitOn(vs, Front(vs, k)) && ws == Pass(vs, Front(vs, k))
    modifies c, Memory(c)
    ensures Linked(c) && Mirrors(c, ws) && r == Returned(vs, Front(vs, k), 0)
  {
    var currentPipe := FrontStage(anyStage, c, vs, k);
    r := PassOver(currentPipe, c, vs, Front(vs, k));
  }

  /** CS_pipeDoneOrError, asked of any stage: on to the sink, and back to the first that is empty. It
      tells whether the sink is. */
  method DoneOrError(anyStage: Stage, ghost c: seq<Stage>, ghost vs: Chain, ghost i: nat) returns (done: bool)
    requires Linked(c) && Mirrors(c, vs) && i < |c| && anyStage == c[i]
    ensures done == vs[|vs| - 1].empty
  {
    var currentPipe := anyStage;
    ghost var k: nat := i;
    assert LinkedAt(c, k);
    while currentPipe.next != null
      invariant k < |c| && currentPipe == c[k] && LinkedAt(c, k)
      decreases |c| - k
    {
      k := k + 1;
      assert LinkedAt(c, k);
      currentPipe := currentPipe.next;
    }
    assert c[k].Shows(vs[k]);
    if currentPipe.empty || currentPipe.error { return true; }
    while currentPipe.prev != null
      invariant k < |c| && currentPipe == c[k] && LinkedAt(c, k)
      decreases k
    {
      k := k - 1;
      assert c[k].Shows(vs[k]) && LinkedAt(c, k);
      currentPipe := currentPipe.prev;
      if currentPipe.error { return true; }
      if currentPipe.empty { return false; }
    }
    return false;
  }

  ghost predicate Starts(vs: Chain, k: nat, f: nat) { k < |vs| && f == Front(vs, k) }

  /** One turn of the loop of a user, as values: every stage it runs can rely on its share, and the
      chain becomes `ws`. */
  ghost predicate Leads(vs: Chain, k: nat, ws: Chain)
  {
    forall f: nat :: Starts(vs, k, f) ==> f <= |vs| && FitOn(vs, f) && ws == Pass(vs, f)
  }

  lemma TurnLeads(vs: Chain, k: nat, payload: bytes) returns (ws: Chain)
    requires Inv(vs, payload) && Sized(vs) && k < |vs| && CanEnd(vs, payload) && !vs[|vs| - 1].empty
    ensures Leads(vs, k, ws) && |ws| == |vs|
    ensures Inv(ws, payload) && Sized(ws) && CanEnd(ws, payload)
    ensures 0 <= Weight(ws, 0) < Weight(vs, 0) && Cap(ws, |payload|) == Cap(vs, |payload|)
  {
    var f := Front(vs, k);
    DriveOnce(vs, k, payload);
    ChainIsFit(vs, f, payload);
    PassKeepsLimits(vs, f);
    ws := Pass(vs, f);
    CapSame(vs, ws, |payload|);
  }

  ghost predicate PlannedAt(plan: seq<Chain>, k: nat, i: nat)
    requires i < |plan|
  {
    && k < |plan[i]| && (plan[i][|plan[i]| - 1].empty <==> i == |plan| - 1)
    && (i + 1 < |plan| ==> Leads(plan[i], k, plan[i + 1]))
  }

  /** All turns of that loop, one after the other, until the sink says it is empty. */
  ghost predicate Planned(plan: seq<Chain>, k: nat)
  {
    plan != [] && forall i :: 0 <= i < |plan| ==> PlannedAt(plan, k, i)
  }

  ghost predicate SinkHolds(vs: Chain, s: bytes)
  {
    vs != [] && vs[|vs| - 1].buffered && vs[|vs| - 1].data == s
  }

  lemma DryHolds(vs: Chain, payload: bytes)
    requires Inv(vs, payload) && vs[|vs| - 1].empty
    ensures Cap(vs, |payload|) <= |payload| && SinkHolds(vs, payload[..Cap(vs, |payload|)])
  {
    SinkIsCapped(vs, payload);
  }

  /** The whole plan from `vs` on, to a sink that holds `s`. */
  ghost predicate PlanFrom(plan: seq<Chain>, k: nat, vs: Chain, s: bytes)
  {
    Planned(plan, k) && plan[0] == vs && SinkHolds(plan[|plan| - 1], s)
  }

  lemma PlanOn(vs: Chain, k: nat, ws: Chain, plan: seq<Chain>, s: bytes)
    requires k < |vs| && !vs[|vs| - 1].empty && PlanFrom(plan, k, ws, s) && Leads(vs, k, ws)
    ensures PlanFrom([vs] + plan, k, vs, s)
  {
    var whole := [vs] + plan;
    forall i | 0 <= i < |whole| ensures PlannedAt(whole, k, i) {
      assert PlannedAt(plan, k, if i > 0 then i - 1 else 0);
    }
    assert whole[|whole| - 1] == plan[|plan| - 1];
  }

  /** The loop ends, whatever stage it processes from, and the sink then holds the payload up to the
      smallest limit on the way. */
  lemma {:induction false} Plan(vs: Chain, k: nat, payload: bytes) returns (plan: seq<Chain>)
    requires Inv(vs, payload) && Sized(vs) && k < |vs| && CanEnd(vs, payload)
    ensures Cap(vs, |payload|) <= |payload| && PlanFrom(plan, k, vs, payload[..Cap(vs, |payload|)])
    decreases if Weight(vs, 0) < 0 then 0 else Weight(vs, 0)
  {
    if vs[|vs| - 1].empty {
      plan := [vs];
      assert PlannedAt(plan, k, 0);
      DryHolds(vs, payload);
    } else {
      var ws := TurnLeads(vs, k, payload);
      var rest := Plan(ws, k, payload);
      plan := [vs] + rest;
      PlanOn(vs, k, ws, rest, payload[..Cap(vs, |payload|)]);
    }
  }

  lemma SinkShows(sink: Stage, c: seq<Stage>, ws: Chain, s: bytes)
    requires Mirrors(c, ws) && |c| > 0 && sink == c[|c| - 1] && SinkHolds(ws, s)
    ensures sink.buffer != null && sink.buffer.Valid() && sink.buffer.Contents() == s
  {
    assert sink.Shows(ws[|ws| - 1]);
  }

  /** One turn of the loop every user of a pipe writes: CS_pipeProcess and then CS_pipeDoneOrError. */
  method Turn(stage: Stage, ghost c: seq<Stage>, ghost vs: Chain, ghost k: nat, ghost ws: Chain)
      returns (done: bool)
    requires Linked(c) && Mirrors(c, vs) && k < |c| && stage == c[k] && Leads(vs, k, ws)
    modifies c, Memory(c)
    ensures Linked(c) && Mirrors(c, ws) && done == ws[|ws| - 1].empty
  {
    assert Starts(vs, k, Front(vs, k));
    var r := Process(stage, c, vs, k, ws);
    done := DoneOrError(stage, c, ws, k);
  }

  /** The chain has come to turn `i` of the plan. */
  ghost predicate Comes(c: seq<Stage>, plan: seq<Chain>, i: nat)
    reads c, Memory(c)
  {
    i < |plan| && Linked(c) && Mirrors(c, plan[i])
  }

  /** Whether the loop is over at turn `i`. */
  method DoneAt(stage: Stage, ghost c: seq<Stage>, ghost plan: seq<Chain>, ghost k: nat, ghost i: nat)
      returns (done: bool)
    requires k < |c| && stage == c[k] && Planned(plan, k) && Comes(c, plan, i)
    ensures Comes(c, plan, i) && done == (i + 1 == |plan|)
  {
    ghost var vs := plan[i];
    assert PlannedAt(plan, k, i);
    done := DoneOrError(stage, c, vs, k);
  }

  method TurnFrom(stage: Stage, ghost c: seq<Stage>, ghost plan: seq<Chain>, ghost k: nat, ghost i: nat)
      returns (done: bool)
    requires k < |c| && stage == c[k] && Comes(c, plan, i) && i + 1 < |plan| && Leads(plan[i], k, plan[i + 1])
    requires plan[i + 1] != [] && (plan[i + 1][|plan[i + 1]| - 1].empty <==> i + 2 == |plan|)
    modifies c, Memory(c)
    ensures Comes(c, plan, i + 1) && done == (i + 2 == |plan|)
  {
    ghost var vs, ws := plan[i], plan[i + 1];
    done := Turn(stage, c, vs, k, ws);
  }

  /** One turn of the plan. */
  method TurnTo(stage: Stage, ghost c: seq<Stage>, ghost plan: seq<Chain>, ghost k: nat, ghost i: nat)
      returns (done: bool)
    requires k < |c| && stage == c[k] && Planned(plan, k) && Comes(c, plan, i) && i + 1 < |plan|
    modifies c, Memory(c)
    ensures Comes(c, plan, i + 1) && done == (i + 2 == |plan|)
  {
    assert PlannedAt(plan, k, i) && PlannedAt(plan, k, i + 1);
    done := TurnFrom(stage, c, plan, k, i);
  }

  /** The turns of the loop, all of the plan. */
  method Follow(stage: Stage, ghost c: seq<Stage>, ghost plan: seq<Chain>, ghost k: nat)
    requires k < |c| && stage == c[k] && Planned(plan, k) && Comes(c, plan, 0)
    modifies c, Memory(c)
    ensures Comes(c, plan, |plan| - 1)
  {
    ghost var i: nat := 0;
    var done := DoneAt(stage, c, plan, k, i);
    while !done
      invariant Comes(c, plan, i) && done == (i + 1 == |plan|)
      decreases |plan| - i
    {
      done := TurnTo(stage, c, plan, k, i);
      i := i + 1;
    }
  }

  /** That loop: process until done. For any chain of NULL and LIMITED stages, any stage of it and
      buffers of any sizes it ends, and the sink then holds the payload up to the smallest limit on
      the way. CanEnd is no restriction: otherwise, by EndsExactly, the loop does not end. */
  method Pump(stage: Stage, ghost c: seq<Stage>, ghost vs: Chain, ghost k: nat, ghost payload: bytes)
    requires Linked(c) && Mirrors(c, vs) && Inv(vs, payload) && Sized(vs) && CanEnd(vs, payload)
    requires k < |c| && stage == c[k]
    modifies c, Memory(c)
    ensures var sink := c[|c| - 1];
            && sink.buffer != null && sink.buffer.Valid()
            && Cap(vs, |payload|) <= |payload| && sink.buffer.Contents() == payload[..Cap(vs, |payload|)]
  {
    ghost var plan := Plan(vs, k, payload);
    ghost var held := payload[..Cap(vs, |payload|)];
    Follow(stage, c, plan, k);
    SinkShows(c[|c| - 1], c, plan[|plan| - 1], held);
  }
}
