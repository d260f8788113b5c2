/** A chain of pipe stages seen as values: what is in each stage's buffer, which stages have
    declared themselves empty, and how much each limited stage has let through. */
module PipeFlow {
  import opened Bytes

  /** `room` is what the stage's buffer, of `size` bytes, has left to write to. A stage without a buffer passes
      its predecessor's buffer through. */
  datatype StageView = StageView(
    buffered: bool, data: bytes, size: nat, room: nat, limited: bool, max: nat, moved: nat, empty: bool)
  {
    predicate Full() { limited && moved >= max }
  }

  type Chain = seq<StageView>

  /** Everything from stage `i` on, sink first: the order in which it left the source. */
  function Tail(vs: Chain, i: nat): bytes
    requires i <= |vs|
    decreases |vs| - i
  {
    if i == |vs| then [] else Tail(vs, i + 1) + vs[i].data
  }

  /** The nearest stage before `i` that has a buffer, -1 if there is none. */
  function Nearest(vs: Chain, i: nat): int
    requires i <= |vs|
    ensures -1 <= Nearest(vs, i) < i
  {
    if i == 0 then -1 else if vs[i - 1].buffered then i - 1 else Nearest(vs, i - 1)
  }

  /** CS_pipeEmpty of the stage before `i`. */
  predicate EmptyBefore(vs: Chain, i: nat)
    requires i <= |vs|
  {
    var j := Nearest(vs, i);
    j < 0 || vs[j].empty
  }

  lemma {:induction false} NearestGap(vs: Chain, i: nat, k: nat)
    requires i <= |vs| && Nearest(vs, i) < k < i
    ensures !vs[k].buffered
  {
    if k < i - 1 {
      NearestGap(vs, i - 1, k);
    }
  }

  lemma GapIsEmpty(vs: Chain, i: nat)
    requires i <= |vs| && forall k :: 0 <= k < |vs| ==> ShapedAt(vs, k)
    ensures forall n :: Nearest(vs, i) < n < i ==> vs[n].data == []
  {
    forall n | Nearest(vs, i) < n < i ensures vs[n].data == [] {
      NearestGap(vs, i, n);
      assert ShapedAt(vs, n);
    }
  }

  lemma {:induction false} NearestBuffered(vs: Chain, i: nat)
    requires i <= |vs| && Nearest(vs, i) >= 0
    ensures vs[Nearest(vs, i)].buffered
  {
    if !vs[i - 1].buffered {
      NearestBuffered(vs, i - 1);
    }
  }

  lemma {:induction false} NearestSame(vs: Chain, ws: Chain, i: nat)
    requires i <= |vs| == |ws| && forall k :: 0 <= k < |vs| ==> vs[k].buffered == ws[k].buffered
    ensures Nearest(vs, i) == Nearest(ws, i)
  {
    if i > 0 {
      NearestSame(vs, ws, i - 1);
    }
  }

  /** Nothing will ever come out of stage `i` again: everything up to it is dry, or everything
      from a limited stage on that has let its share through. */
  ghost predicate Dry(vs: Chain, i: nat)
    requires i < |vs|
  {
    || (forall k :: 0 <= k <= i ==> vs[k].data == [])
    || (exists m :: 0 <= m <= i && vs[m].Full() && forall k :: m <= k <= i ==> vs[k].data == [])
  }

  predicate ShapedAt(vs: Chain, k: nat)
    requires k < |vs|
  {
    (vs[k].limited ==> vs[k].buffered && vs[k].max > 0) && (!vs[k].buffered ==> vs[k].data == [])
  }

  /** The shape of a chain that can run: a source and a sink with buffers of their own, and
      limits, which are not zero, on stages with buffers only. */
  predicate Shaped(vs: Chain)
  {
    && |vs| >= 2 && vs[0].buffered && !vs[0].limited && vs[|vs| - 1].buffered
    && forall k :: 0 <= k < |vs| ==> ShapedAt(vs, k)
  }

  /** A limited stage has counted exactly what is behind it, and a stage before the sink that
      says it is empty is dry. */
  ghost predicate StageOk(vs: Chain, k: nat)
    requires k < |vs|
  {
    && (vs[k].limited ==> vs[k].moved == |Tail(vs, k)| <= vs[k].max)
    && (k < |vs| - 1 && vs[k].empty ==> vs[k].buffered && Dry(vs, k))
  }

  /** The sink may say it is empty when the stage before it does; a limited one only when there
      was nothing to come at all. */
  predicate SinkOk(vs: Chain, payload: bytes)
    requires |vs| > 0
  {
    EmptyBefore(vs, |vs| - 1) && (vs[|vs| - 1].limited ==> payload == [])
  }

  /** The invariant of every run: the payload is spread over the stages in order, and every
      stage knows what it claims to know. */
  ghost predicate Inv(vs: Chain, payload: bytes)
  {
    && Shaped(vs)
    && Tail(vs, 0) == payload
    && (forall k :: 0 <= k < |vs| ==> StageOk(vs, k))
    && (vs[|vs| - 1].empty ==> SinkOk(vs, payload))
  }

  /** The first `d` bytes of stage `j` moved into stage `i`. */
  function Move(vs: Chain, j: nat, i: nat, d: bytes, rest: bytes, jRoom: nat): Chain
    requires j < i < |vs| && vs[j].data == d + rest && |d| <= vs[i].room
  {
    vs[j := vs[j].(data := rest, room := jRoom)]
      [i := vs[i].(data := vs[i].data + d, room := vs[i].room - |d|, moved := vs[i].moved + |d|)]
  }

  lemma {:induction false} TailAbove(vs: Chain, ws: Chain, k: nat)
    requires k <= |vs| == |ws| && forall n :: k <= n < |vs| ==> vs[n].data == ws[n].data
    ensures Tail(vs, k) == Tail(ws, k)
    decreases |vs| - k
  {
    if k < |vs| {
      TailAbove(vs, ws, k + 1);
    }
  }

  lemma {:induction false} TailBetween(vs: Chain, ws: Chain, i: nat, d: bytes, k: nat)
    requires k <= i < |vs| == |ws| && ws[i].data == vs[i].data + d
    requires forall n :: i < n < |vs| ==> vs[n].data == ws[n].data
    requires forall n :: k <= n < i ==> vs[n].data == ws[n].data == []
    ensures Tail(ws, k) == Tail(vs, k) + d
    decreases i - k
  {
    var v, w := Tail(vs, k + 1), Tail(ws, k + 1);
    if k == i {
      TailAbove(vs, ws, i + 1);
      Assoc(v, vs[i].data, d);
    } else {
      TailBetween(vs, ws, i, d, k + 1);
      assert v + [] == v && w + [] == w;
    }
  }

  lemma {:induction false} TailBelow(vs: Chain, ws: Chain, j: nat, k: nat)
    requires k <= j < |vs| == |ws| && Tail(ws, j) == Tail(vs, j)
    requires forall n :: k <= n < j ==> vs[n].data == ws[n].data
    ensures Tail(ws, k) == Tail(vs, k)
    decreases j - k
  {
    if k < j {
      TailBelow(vs, ws, j, k + 1);
    }
  }

  lemma TailMoved(vs: Chain, ws: Chain, j: nat, i: nat, d: bytes, rest: bytes, k: nat)
    requires j < i < |vs| == |ws| && k <= |vs|
    requires vs[j].data == d + rest && ws[j].data == rest && ws[i].data == vs[i].data + d
    requires forall n :: 0 <= n < |vs| && n != i && n != j ==> ws[n].data == vs[n].data
    requires forall n :: j < n < i ==> vs[n].data == []
    ensures Tail(ws, k) == if j < k <= i then Tail(vs, k) + d else Tail(vs, k)
  {
    if k > i {
      TailAbove(vs, ws, k);
    } else if k > j {
      TailBetween(vs, ws, i, d, k);
    } else {
      TailBetween(vs, ws, i, d, j + 1);
      Assoc(Tail(vs, j + 1), d, rest);
      TailBelow(vs, ws, j, k);
    }
  }

  /** A move leaves the order of the bytes alone: only between the two stages has more passed. */
  lemma TailMove(vs: Chain, j: nat, i: nat, d: bytes, rest: bytes, jRoom: nat, k: nat)
    requires j < i < |vs| && vs[j].data == d + rest && |d| <= vs[i].room && k <= |vs|
    requires forall n :: j < n < i ==> vs[n].data == []
    ensures var ws := Move(vs, j, i, d, rest, jRoom);
            Tail(ws, k) == if j < k <= i then Tail(vs, k) + d else Tail(vs, k)
  {
    TailMoved(vs, Move(vs, j, i, d, rest, jRoom), j, i, d, rest, k);
  }

  /** What is dry stays dry: a move takes bytes from a stage that has some, and never into a
      limited stage that has had its share. */
  lemma DryMove(vs: Chain, j: nat, i: nat, d: bytes, rest: bytes, jRoom: nat, q: nat)
    requires Shaped(vs) && j < i < |vs| && j == Nearest(vs, i) && vs[j].data == d + rest && d != []
    requires |d| <= vs[i].room && !vs[i].Full()
    requires q < |vs| && Dry(vs, q)
    ensures Dry(Move(vs, j, i, d, rest, jRoom), q)
  {
    var ws := Move(vs, j, i, d, rest, jRoom);
    if forall k :: 0 <= k <= q ==> vs[k].data == [] {
      assert q < j;
    } else {
      var m :| 0 <= m <= q && vs[m].Full() && forall k :: m <= k <= q ==> vs[k].data == [];
      if m <= j {
        assert q < j;
      } else {
        assert ShapedAt(vs, m);
        if m < i { NearestGap(vs, i, m); }
        assert m > i;
      }
      assert ws[m].Full() && forall k :: m <= k <= q ==> ws[k].data == [];
    }
  }

  /** The move the chain makes: from the nearest buffer, into a stage with a share left. */
  ghost predicate Legal(vs: Chain, j: nat, i: nat, d: bytes, rest: bytes)
  {
    && j < i < |vs| && j == Nearest(vs, i) && vs[j].data == d + rest && d != []
    && |d| <= vs[i].room && vs[i].buffered && (vs[i].limited ==> vs[i].moved + |d| <= vs[i].max)
  }

  lemma MoveKeepsOrder(vs: Chain, j: nat, i: nat, d: bytes, rest: bytes, jRoom: nat, k: nat)
    requires Shaped(vs) && Legal(vs, j, i, d, rest) && k <= |vs|
    ensures Tail(Move(vs, j, i, d, rest, jRoom), k) == if j < k <= i then Tail(vs, k) + d else Tail(vs, k)
  {
    GapIsEmpty(vs, i);
    TailMove(vs, j, i, d, rest, jRoom, k);
  }

  lemma MoveKeepsCounts(vs: Chain, j: nat, i: nat, d: bytes, rest: bytes, jRoom: nat, k: nat)
    requires Shaped(vs) && Legal(vs, j, i, d, rest) && k < |vs| && vs[k].limited
    requires vs[k].moved == |Tail(vs, k)| <= vs[k].max
    ensures var ws := Move(vs, j, i, d, rest, jRoom); ws[k].moved == |Tail(ws, k)| <= ws[k].max
  {
    MoveKeepsOrder(vs, j, i, d, rest, jRoom, k);
    assert ShapedAt(vs, k);
    if j < k < i { NearestGap(vs, i, k); }
  }

  lemma MoveKeepsInv(vs: Chain, j: nat, i: nat, d: bytes, rest: bytes, jRoom: nat, payload: bytes)
    requires Inv(vs, payload) && Legal(vs, j, i, d, rest)
    ensures Inv(Move(vs, j, i, d, rest, jRoom), payload)
  {
    var ws := Move(vs, j, i, d, rest, jRoom);
    NearestBuffered(vs, i);
    MoveKeepsOrder(vs, j, i, d, rest, jRoom, 0);
    forall k | 0 <= k < |ws| ensures StageOk(ws, k) {
      assert StageOk(vs, k);
      if ws[k].limited { MoveKeepsCounts(vs, j, i, d, rest, jRoom, k); }
      if k < |vs| - 1 && vs[k].empty { DryMove(vs, j, i, d, rest, jRoom, k); }
    }
    forall k | 0 <= k < |ws| ensures ShapedAt(ws, k) {
      assert ShapedAt(vs, k);
    }
    NearestSame(vs, ws, |vs| - 1);
  }

  /** A stage may call itself empty when nothing can reach it: its buffer is empty and so is
      the stage before it, or it has let its share through. The sink only needs the former. */
  predicate MayFlag(vs: Chain, i: nat, payload: bytes)
    requires i < |vs|
  {
    if i == |vs| - 1 then SinkOk(vs, payload)
    else vs[i].buffered && vs[i].data == [] && (vs[i].Full() || EmptyBefore(vs, i))
  }

  function Flag(vs: Chain, i: nat): Chain
    requires i < |vs|
  {
    vs[i := vs[i].(empty := true)]
  }

  lemma DryFlag(vs: Chain, i: nat, payload: bytes)
    requires Inv(vs, payload) && i < |vs| - 1 && MayFlag(vs, i, payload)
    ensures Dry(vs, i)
  {
    if !vs[i].Full() {
      var j := Nearest(vs, i);
      GapIsEmpty(vs, i);
      if j >= 0 {
        assert StageOk(vs, j);
        if exists k :: 0 <= k <= j && vs[k].data != [] {
          var m :| 0 <= m <= j && vs[m].Full() && forall k :: m <= k <= j ==> vs[k].data == [];
          assert vs[m].Full() && forall k :: m <= k <= i ==> vs[k].data == [];
        }
      }
    }
  }

  lemma DryAfterFlag(vs: Chain, i: nat, k: nat)
    requires i < |vs| && k < |vs| && Dry(vs, k)
    ensures Dry(Flag(vs, i), k)
  {
    if !forall n :: 0 <= n <= k ==> vs[n].data == [] {
      var m :| 0 <= m <= k && vs[m].Full() && forall n :: m <= n <= k ==> vs[n].data == [];
      assert Flag(vs, i)[m].Full();
    }
  }

  lemma FlagKeepsInv(vs: Chain, i: nat, payload: bytes)
    requires Inv(vs, payload) && i < |vs| && MayFlag(vs, i, payload)
    ensures Inv(Flag(vs, i), payload)
  {
    var ws := Flag(vs, i);
    TailAbove(vs, ws, 0);
    forall k | 0 <= k < |ws| ensures StageOk(ws, k) {
      assert StageOk(vs, k);
      TailAbove(vs, ws, k);
      if k < |vs| - 1 && ws[k].empty {
        if k == i { DryFlag(vs, i, payload); }
        DryAfterFlag(vs, i, k);
      }
    }
    forall k | 0 <= k < |ws| ensures ShapedAt(ws, k) {
      assert ShapedAt(vs, k);
    }
    NearestSame(vs, ws, |vs| - 1);
  }

  lemma {:induction false} TailGrows(vs: Chain, i: nat, k: nat)
    requires i <= k <= |vs|
    ensures Tail(vs, k) <= Tail(vs, i)
    ensures (forall n :: i <= n < k ==> vs[n].data == []) ==> Tail(vs, k) == Tail(vs, i)
    decreases k - i
  {
    if i < k {
      TailGrows(vs, i + 1, k);
    }
  }

  /** What the limits of the chain leave of `n` bytes. */
  function Cap(vs: Chain, n: nat): nat
  {
    if vs == [] then n
    else Cap(vs[1..], if vs[0].limited then Min(n, vs[0].max) else n)
  }

  lemma {:induction false} CapIs(vs: Chain, n: nat, c: nat)
    requires c <= n && (forall k :: 0 <= k < |vs| && vs[k].limited ==> c <= vs[k].max)
    requires c == n || exists k :: 0 <= k < |vs| && vs[k].limited && vs[k].max == c
    ensures Cap(vs, n) == c
    decreases |vs|
  {
    if vs != [] {
      var n' := if vs[0].limited then Min(n, vs[0].max) else n;
      if c < n' {
        var k :| 0 <= k < |vs| && vs[k].limited && vs[k].max == c;
        assert vs[1..][k - 1] == vs[k];
      }
      CapIs(vs[1..], n', c);
    }
  }

  lemma {:induction false} CapAtLeast(vs: Chain, n: nat, c: nat)
    requires c <= n && forall k :: 0 <= k < |vs| && vs[k].limited ==> c <= vs[k].max
    ensures Cap(vs, n) >= c
    decreases |vs|
  {
    if vs != [] {
      CapAtLeast(vs[1..], if vs[0].limited then Min(n, vs[0].max) else n, c);
    }
  }

  /** When the sink says it is empty it holds the payload, up to the smallest limit on the way. */
  lemma SinkIsCapped(vs: Chain, payload: bytes)
    requires Inv(vs, payload) && vs[|vs| - 1].empty
    ensures vs[|vs| - 1].data <= payload
    ensures |vs[|vs| - 1].data| == Cap(vs, |payload|)
  {
    var last := |vs| - 1;
    var sink := vs[last].data;
    assert Tail(vs, last + 1) == [] && Tail(vs, last) == [] + sink == sink;
    forall k | 0 <= k < |vs| ensures |sink| <= |Tail(vs, k)| {
      TailGrows(vs, k, last);
    }
    forall k | 0 <= k < |vs| && vs[k].limited ensures |sink| <= vs[k].max {
      assert StageOk(vs, k);
    }
    var j := Nearest(vs, last);
    TailGrows(vs, 0, last);
    if j < 0 {
      NearestGap(vs, last, 0);
      assert false;
    }
    GapIsEmpty(vs, last);
    assert StageOk(vs, j);
    if !forall k :: 0 <= k <= j ==> vs[k].data == [] {
      var m :| 0 <= m <= j && vs[m].Full() && forall k :: m <= k <= j ==> vs[k].data == [];
      TailGrows(vs, m, last);
      assert StageOk(vs, m);
      assert vs[m].limited && vs[m].max == |sink|;
    }
    CapIs(vs, |payload|, |sink|);
  }

  /** What is still to happen from stage `k` on: bytes that have not come that far, and stages
      that have not yet said they are empty. */
  function Weight(vs: Chain, k: nat): int
    requires k <= |vs|
    decreases |vs| - k
  {
    if k == |vs| then 0
    else |Tail(vs, 0)| - |Tail(vs, k)| + (if vs[k].empty then 0 else 1) + Weight(vs, k + 1)
  }

  lemma {:induction false} WeightNatural(vs: Chain, k: nat)
    requires k <= |vs|
    ensures Weight(vs, k) >= 0
    decreases |vs| - k
  {
    if k < |vs| {
      TailGrows(vs, 0, k);
      WeightNatural(vs, k + 1);
    }
  }

  /** `n` more bytes have come past the stages after `j` up to `i`. */
  ghost predicate TailLonger(vs: Chain, ws: Chain, j: nat, i: nat, n: nat, k: nat)
    requires k <= |vs| == |ws|
  {
    |Tail(ws, k)| == |Tail(vs, k)| + if j < k <= i then n else 0
  }

  lemma {:induction false} WeightLess(vs: Chain, ws: Chain, j: nat, i: nat, n: nat, k: nat)
    requires j < i < |vs| == |ws| && n > 0 && k <= |vs|
    requires forall m :: 0 <= m <= |vs| ==> TailLonger(vs, ws, j, i, n, m)
    requires forall m :: 0 <= m < |vs| ==> vs[m].empty == ws[m].empty
    ensures if k <= i then Weight(ws, k) < Weight(vs, k) else Weight(ws, k) == Weight(vs, k)
    decreases |vs| - k
  {
    if k < |vs| {
      assert TailLonger(vs, ws, j, i, n, 0) && TailLonger(vs, ws, j, i, n, k);
      WeightLess(vs, ws, j, i, n, k + 1);
    }
  }

  lemma {:induction false} WeightFlag(vs: Chain, i: nat, k: nat)
    requires i < |vs| && k <= |vs|
    ensures Weight(Flag(vs, i), k) == Weight(vs, k) - if k <= i && !vs[i].empty then 1 else 0
    decreases |vs| - k
  {
    TailAbove(vs, Flag(vs, i), 0);
    if k < |vs| {
      TailAbove(vs, Flag(vs, i), k);
      WeightFlag(vs, i, k + 1);
    }
  }

  // ---- What processing does ----

  /** How much a stage takes from the nearest buffer before it. */
  function MoveSize(vs: Chain, i: nat): (n: nat)
    requires i < |vs|
    ensures n > 0 ==> Nearest(vs, i) >= 0 && n <= |vs[Nearest(vs, i)].data| && n <= vs[i].room
  {
    var j := Nearest(vs, i);
    if !vs[i].buffered || j < 0 || vs[i].Full() then 0
    else
      var n := Min(|vs[j].data|, vs[i].room);
      if vs[i].limited then Min(n, vs[i].max - vs[i].moved) else n
  }

  function TakeIn(vs: Chain, i: nat): Chain
    requires i < |vs|
  {
    var n := MoveSize(vs, i);
    if n == 0 then vs
    else
      var j := Nearest(vs, i);
      var d, rest := vs[j].data[..n], vs[j].data[n..];
      Cut(vs[j].data, n);
      Move(vs, j, i, d, rest, if rest == [] then vs[j].size else vs[j].room)
  }

  /** When a stage that has just been processed declares itself empty. */
  predicate Flags(vs: Chain, i: nat)
    requires i < |vs|
  {
    || (vs[i].limited && vs[i].Full() && vs[i].data == [])
    || (vs[i].buffered && vs[i].data == [] && EmptyBefore(vs, i))
    || (!vs[i].limited && i == |vs| - 1 && EmptyBefore(vs, i))
  }

  /** Processing one stage. */
  function Step(vs: Chain, i: nat): (ws: Chain)
    requires i < |vs|
    ensures |ws| == |vs|
  {
    var ws := TakeIn(vs, i);
    if Flags(ws, i) then Flag(ws, i) else ws
  }

  /** Processing every stage from `i` on. */
  function Pass(vs: Chain, i: nat): (ws: Chain)
    requires i <= |vs|
    ensures |ws| == |vs|
    decreases |vs| - i
  {
    if i == |vs| then vs else Pass(Step(vs, i), i + 1)
  }

  /** What processing them returns: what the last limited stage has moved; the others do not
      touch it. */
  function Returned(vs: Chain, i: nat, r: nat): nat
    requires i <= |vs|
    decreases |vs| - i
  {
    if i == |vs| then r else Returned(Step(vs, i), i + 1, if vs[i].limited then MoveSize(vs, i) else r)
  }

  /** Buffers have a size, and an empty one has all of its room. */
  ghost predicate Sized(vs: Chain)
  {
    && (forall k :: 0 <= k < |vs| && vs[k].buffered ==> vs[k].size > 0)
    && (forall k :: 0 <= k < |vs| && vs[k].buffered && vs[k].data == [] ==> vs[k].room == vs[k].size)
  }

  /** What the sink holds and can still take. */
  function Space(vs: Chain): nat
    requires |vs| > 0
  {
    |vs[|vs| - 1].data| + vs[|vs| - 1].room
  }

  lemma TakeInKeepsInv(vs: Chain, i: nat, payload: bytes)
    requires Inv(vs, payload) && i < |vs|
    ensures Inv(TakeIn(vs, i), payload)
    ensures if MoveSize(vs, i) > 0 then Weight(TakeIn(vs, i), 0) < Weight(vs, 0) else TakeIn(vs, i) == vs
  {
    var n := MoveSize(vs, i);
    if n > 0 {
      var j := Nearest(vs, i);
      var d, rest := vs[j].data[..n], vs[j].data[n..];
      Cut(vs[j].data, n);
      var jRoom := if rest == [] then vs[j].size else vs[j].room;
      assert Legal(vs, j, i, d, rest);
      MoveKeepsInv(vs, j, i, d, rest, jRoom, payload);
      MoveWeighs(vs, j, i, d, rest, jRoom);
    }
  }

  lemma MoveWeighs(vs: Chain, j: nat, i: nat, d: bytes, rest: bytes, jRoom: nat)
    requires Shaped(vs) && Legal(vs, j, i, d, rest)
    ensures Weight(Move(vs, j, i, d, rest, jRoom), 0) < Weight(vs, 0)
  {
    var ws := Move(vs, j, i, d, rest, jRoom);
    forall k | 0 <= k <= |vs| ensures TailLonger(vs, ws, j, i, |d|, k) {
      MoveKeepsOrder(vs, j, i, d, rest, jRoom, k);
    }
    WeightLess(vs, ws, j, i, |d|, 0);
  }

  lemma StepKeepsSpace(vs: Chain, i: nat)
    requires i < |vs|
    ensures Space(Step(vs, i)) == Space(vs)
  {
  }

  lemma StepKeepsSized(vs: Chain, i: nat)
    requires Sized(vs) && i < |vs|
    ensures Sized(Step(vs, i))
  {
    assert Sized(TakeIn(vs, i));
  }

  lemma FullHasSent(vs: Chain, m: nat)
    requires m < |vs| && ShapedAt(vs, m) && StageOk(vs, m) && vs[m].Full()
    ensures Tail(vs, m) != []
  {
  }

  /** A limited sink flags itself only where nothing was to come: it still holds what it has let
      through. */
  lemma LimitedSinkFlags(vs: Chain, payload: bytes)
    requires Inv(vs, payload) && vs[|vs| - 1].limited && Flags(vs, |vs| - 1)
    ensures SinkOk(vs, payload)
  {
    var last := |vs| - 1;
    assert StageOk(vs, last) && ShapedAt(vs, last);
    TailOfSink(vs);
    var j := Nearest(vs, last);
    if j < 0 { NearestGap(vs, last, 0); }
    GapIsEmpty(vs, last);
    assert StageOk(vs, j);
    TailGrows(vs, 0, last);
    if !forall k :: 0 <= k <= j ==> vs[k].data == [] {
      var m :| 0 <= m <= j && vs[m].Full() && forall k :: m <= k <= j ==> vs[k].data == [];
      TailGrows(vs, m, last);
      FullHasSent(vs, m);
      assert false;
    }
  }

  lemma FlagStep(ws: Chain, i: nat, payload: bytes)
    requires Inv(ws, payload) && i < |ws| && Flags(ws, i)
    ensures Inv(Flag(ws, i), payload)
    ensures Weight(Flag(ws, i), 0) <= Weight(ws, 0)
    ensures !ws[i].empty ==> Weight(Flag(ws, i), 0) < Weight(ws, 0)
  {
    assert ShapedAt(ws, i);
    if i == |ws| - 1 && ws[i].limited { LimitedSinkFlags(ws, payload); }
    FlagKeepsInv(ws, i, payload);
    WeightFlag(ws, i, 0);
  }

  lemma StepKeepsInv(vs: Chain, i: nat, payload: bytes)
    requires Inv(vs, payload) && i < |vs|
    ensures Inv(Step(vs, i), payload)
    ensures Weight(Step(vs, i), 0) <= Weight(vs, 0)
    ensures MoveSize(vs, i) > 0 || (Flags(vs, i) && !vs[i].empty) ==> Weight(Step(vs, i), 0) < Weight(vs, 0)
  {
    var ws := TakeIn(vs, i);
    TakeInKeepsInv(vs, i, payload);
    if Flags(ws, i) {
      FlagStep(ws, i, payload);
    }
  }

  lemma {:induction false} PassKeepsInv(vs: Chain, i: nat, payload: bytes)
    requires Inv(vs, payload) && i <= |vs|
    ensures Inv(Pass(vs, i), payload)
    ensures Weight(Pass(vs, i), 0) <= Weight(vs, 0)
    decreases |vs| - i
  {
    if i < |vs| {
      StepKeepsInv(vs, i, payload);
      PassKeepsInv(Step(vs, i), i + 1, payload);
    }
  }

  lemma {:induction false} PassKeepsSpace(vs: Chain, i: nat)
    requires i <= |vs| && |vs| > 0
    ensures Space(Pass(vs, i)) == Space(vs)
    decreases |vs| - i
  {
    if i < |vs| {
      StepKeepsSpace(vs, i);
      PassKeepsSpace(Step(vs, i), i + 1);
    }
  }

  lemma {:induction false} PassKeepsSized(vs: Chain, i: nat)
    requires Sized(vs) && i <= |vs|
    ensures Sized(Pass(vs, i))
    decreases |vs| - i
  {
    if i < |vs| {
      StepKeepsSized(vs, i);
      PassKeepsSized(Step(vs, i), i + 1);
    }
  }

  /** The sink is no limiter, or there is nothing to come; and it has room for what the limits let
      through. */
  predicate CanEnd(vs: Chain, payload: bytes)
    requires |vs| > 0
  {
    (vs[|vs| - 1].limited ==> payload == []) && Space(vs) >= Cap(vs, |payload|)
  }

  /** Something is waiting before stage `i`, or nothing ever will be. */
  predicate Pressed(vs: Chain, i: nat)
    requires i <= |vs|
  {
    EmptyBefore(vs, i) || vs[Nearest(vs, i)].data != []
  }

  /** A pass over stages that have not yet declared themselves empty, from a point where
      something is waiting or nothing ever will be, moves a byte or flags a stage. */
  lemma {:induction false} PassProgress(vs: Chain, i: nat, payload: bytes)
    requires Inv(vs, payload) && Sized(vs) && i < |vs| && Pressed(vs, i) && CanEnd(vs, payload)
    requires forall k :: i <= k < |vs| ==> !vs[k].empty
    ensures Weight(Pass(vs, i), 0) < Weight(vs, 0)
    decreases |vs| - i
  {
    StepKeepsInv(vs, i, payload);
    PassKeepsInv(Step(vs, i), i + 1, payload);
    if MoveSize(vs, i) == 0 && !Flags(vs, i) {
      assert Step(vs, i) == vs;
      if i == |vs| - 1 {
        if vs[i].limited { NothingWaits(vs, payload); } else { SinkHasRoom(vs, payload); }
        assert false;
      } else {
        assert Pressed(vs, i + 1);
        PassProgress(vs, i + 1, payload);
      }
    }
  }

  lemma NothingWaits(vs: Chain, payload: bytes)
    requires Inv(vs, payload) && payload == []
    ensures forall k :: 0 <= k < |vs| ==> vs[k].data == []
  {
    forall k | 0 <= k < |vs| ensures vs[k].data == [] {
      HeldBefore(vs, 0, k, |vs|);
    }
  }

  lemma TailOfSink(vs: Chain)
    requires |vs| > 0
    ensures Tail(vs, |vs| - 1) == vs[|vs| - 1].data
  {
    assert Tail(vs, |vs|) == [];
  }

  /** What a stage holds comes on top of what is behind it. */
  lemma HeldBefore(vs: Chain, k: nat, j: nat, i: nat)
    requires k <= j < i <= |vs|
    ensures |Tail(vs, k)| >= |Tail(vs, i)| + |vs[j].data|
  {
    TailGrows(vs, j + 1, i);
    TailGrows(vs, k, j);
    assert |Tail(vs, j)| == |Tail(vs, j + 1)| + |vs[j].data|;
  }

  /** While the buffer before the sink holds something, the sink has room for it: what both hold is
      within every limit. */
  lemma SinkHasRoom(vs: Chain, payload: bytes)
    requires Inv(vs, payload) && CanEnd(vs, payload) && !vs[|vs| - 1].limited
    ensures var j := Nearest(vs, |vs| - 1); j >= 0 && (vs[j].data != [] ==> vs[|vs| - 1].room > 0)
  {
    var last := |vs| - 1;
    var j := Nearest(vs, last);
    if j < 0 { NearestGap(vs, last, 0); }
    var held := |vs[last].data| + |vs[j].data|;
    TailOfSink(vs);
    forall k | 0 <= k < |vs| && vs[k].limited ensures held <= vs[k].max {
      assert StageOk(vs, k) && ShapedAt(vs, k);
      if k > j { NearestGap(vs, last, k); }
      HeldBefore(vs, k, j, last);
    }
    HeldBefore(vs, 0, j, last);
    CapAtLeast(vs, |payload|, held);
  }

  // ---- Where a pass starts ----

  function Back(vs: Chain, k: nat): (q: nat)
    requires k < |vs|
    ensures q <= k
  {
    if k == 0 || vs[k].empty then k else Back(vs, k - 1)
  }

  function Forward(vs: Chain, q: nat): (f: nat)
    requires q <= |vs|
    ensures q <= f <= |vs|
    decreases |vs| - q
  {
    if q < |vs| && vs[q].empty then Forward(vs, q + 1) else q
  }

  /** privateFront: back to the nearest stage that is empty, then on to the first that is not. */
  function Front(vs: Chain, k: nat): nat
    requires k < |vs|
  {
    Forward(vs, Back(vs, k))
  }

  lemma {:induction false} BackIs(vs: Chain, k: nat)
    requires k < |vs|
    ensures forall n :: Back(vs, k) < n <= k ==> !vs[n].empty
    ensures Back(vs, k) == 0 || vs[Back(vs, k)].empty
  {
    if k > 0 && !vs[k].empty {
      BackIs(vs, k - 1);
    }
  }

  lemma FrontIsPressed(vs: Chain, payload: bytes)
    requires Inv(vs, payload) && !vs[|vs| - 1].empty
    ensures var f := Front(vs, |vs| - 1);
            f < |vs| && Pressed(vs, f) && forall k :: f <= k < |vs| ==> !vs[k].empty
  {
    var q := Back(vs, |vs| - 1);
    BackIs(vs, |vs| - 1);
    assert StageOk(vs, q);
    if vs[q].empty {
      assert Forward(vs, q) == Forward(vs, q + 1) == q + 1;
    }
  }

  lemma {:induction false} ForwardStops(vs: Chain, q: nat, e: nat)
    requires q <= e < |vs| && !vs[e].empty
    ensures Forward(vs, q) <= e
    decreases e - q
  {
    if q < e {
      ForwardStops(vs, q + 1, e);
    }
  }

  /** From whatever stage the driver is called, it does not start behind the point from which it
      would start when called from the sink. */
  lemma FrontBefore(vs: Chain, k: nat, payload: bytes)
    requires Inv(vs, payload) && k < |vs| && !vs[|vs| - 1].empty
    ensures Front(vs, k) <= Front(vs, |vs| - 1) < |vs|
  {
    FrontIsPressed(vs, payload);
    BackIs(vs, k);
    ForwardStops(vs, Back(vs, k), Front(vs, |vs| - 1));
  }

  /** A pass from before that point makes progress before it, or comes to it with nothing changed. */
  lemma {:induction false} PassFrom(vs: Chain, i: nat, f: nat, payload: bytes)
    requires Inv(vs, payload) && Sized(vs) && i <= f < |vs| && Pressed(vs, f) && CanEnd(vs, payload)
    requires forall k :: f <= k < |vs| ==> !vs[k].empty
    ensures Weight(Pass(vs, i), 0) < Weight(vs, 0)
    decreases f - i
  {
    if i == f {
      PassProgress(vs, i, payload);
    } else {
      StepKeepsInv(vs, i, payload);
      PassKeepsInv(Step(vs, i), i + 1, payload);
      if MoveSize(vs, i) == 0 && (Flags(vs, i) ==> vs[i].empty) {
        assert Step(vs, i) == vs;
        PassFrom(vs, i + 1, f, payload);
      }
    }
  }

  ghost predicate SameLimits(vs: Chain, ws: Chain)
  {
    |vs| == |ws| && forall k :: 0 <= k < |vs| ==> vs[k].limited == ws[k].limited && vs[k].max == ws[k].max
  }

  lemma {:induction false} PassKeepsLimits(vs: Chain, i: nat)
    requires i <= |vs|
    ensures SameLimits(vs, Pass(vs, i))
    decreases |vs| - i
  {
    if i < |vs| {
      PassKeepsLimits(Step(vs, i), i + 1);
      assert SameLimits(vs, Step(vs, i));
    }
  }

  lemma {:induction false} CapSame(vs: Chain, ws: Chain, n: nat)
    requires SameLimits(vs, ws)
    ensures Cap(vs, n) == Cap(ws, n)
    decreases |vs|
  {
    if vs != [] {
      CapSame(vs[1..], ws[1..], if vs[0].limited then Min(n, vs[0].max) else n);
    }
  }

  lemma PassKeepsCanEnd(vs: Chain, i: nat, payload: bytes)
    requires i <= |vs| && |vs| > 0
    ensures CanEnd(Pass(vs, i), payload) == CanEnd(vs, payload)
  {
    var ws := Pass(vs, i);
    PassKeepsLimits(vs, i);
    PassKeepsSpace(vs, i);
    CapSame(vs, ws, |payload|);
    assert vs[|vs| - 1].limited == ws[|vs| - 1].limited;
  }

  lemma DriveMoves(vs: Chain, k: nat, payload: bytes)
    requires Inv(vs, payload) && Sized(vs) && k < |vs| && !vs[|vs| - 1].empty && CanEnd(vs, payload)
    ensures Weight(Pass(vs, Front(vs, k)), 0) < Weight(vs, 0)
  {
    FrontBefore(vs, k, payload);
    FrontIsPressed(vs, payload);
    PassFrom(vs, Front(vs, k), Front(vs, |vs| - 1), payload);
  }

  /** One call of the driver, from any stage, keeps everything; and while the sink has not said
      that it is empty, though it can, it moves a byte or flags a stage. */
  lemma DriveOnce(vs: Chain, k: nat, payload: bytes)
    requires Inv(vs, payload) && Sized(vs) && k < |vs| && !vs[|vs| - 1].empty
    ensures var ws := Pass(vs, Front(vs, k));
            && Inv(ws, payload) && Sized(ws) && 0 <= Weight(ws, 0) && CanEnd(ws, payload) == CanEnd(vs, payload)
            && (CanEnd(vs, payload) ==> Weight(ws, 0) < Weight(vs, 0))
  {
    var f := Front(vs, k);
    FrontBefore(vs, k, payload);
    PassKeepsInv(vs, f, payload);
    PassKeepsSized(vs, f);
    PassKeepsCanEnd(vs, f, payload);
    if CanEnd(vs, payload) { DriveMoves(vs, k, payload); }
    WeightNatural(Pass(vs, f), 0);
  }

  /** A freshly hooked chain with the payload in its source is in the invariant. */
  lemma InitialChain(vs: Chain, payload: bytes)
    requires Shaped(vs) && vs[0].data == payload && forall k :: 0 < k < |vs| ==> vs[k].data == []
    requires forall k :: 0 <= k < |vs| ==> !vs[k].empty && (vs[k].limited ==> vs[k].moved == 0)
    ensures Inv(vs, payload)
  {
    forall k | 1 <= k <= |vs| ensures Tail(vs, k) == [] {
      TailGrows(vs, k, |vs|);
    }
    assert Tail(vs, 0) == [] + payload == payload;
  }

  // ---- The loop of a user ----

  /** The chain after `n` turns of the loop that processes from stage `k` until the sink says it is
      empty. */
  function Turns(vs: Chain, k: nat, n: nat): (ws: Chain)
    requires k < |vs|
    ensures |ws| == |vs|
    decreases n
  {
    if n == 0 || vs[|vs| - 1].empty then vs else Turns(Pass(vs, Front(vs, k)), k, n - 1)
  }

  ghost predicate Ends(vs: Chain, k: nat)
    requires k < |vs|
  {
    exists n: nat :: Turns(vs, k, n)[|vs| - 1].empty
  }

  lemma {:induction false} TurnsKeepInv(vs: Chain, k: nat, payload: bytes, n: nat)
    requires Inv(vs, payload) && k < |vs|
    ensures var ws := Turns(vs, k, n); Inv(ws, payload) && SameLimits(vs, ws) && Space(ws) == Space(vs)
    decreases n
  {
    if n > 0 && !vs[|vs| - 1].empty {
      var f := Front(vs, k);
      PassKeepsInv(vs, f, payload);
      PassKeepsLimits(vs, f);
      PassKeepsSpace(vs, f);
      TurnsKeepInv(Pass(vs, f), k, payload, n - 1);
    }
  }

  lemma {:induction false} TurnsEnd(vs: Chain, k: nat, payload: bytes)
    requires Inv(vs, payload) && Sized(vs) && k < |vs| && CanEnd(vs, payload)
    ensures Ends(vs, k)
    decreases if Weight(vs, 0) < 0 then 0 else Weight(vs, 0)
  {
    if vs[|vs| - 1].empty {
      assert Turns(vs, k, 0)[|vs| - 1].empty;
    } else {
      var ws := Pass(vs, Front(vs, k));
      DriveOnce(vs, k, payload);
      TurnsEnd(ws, k, payload);
      var n: nat :| Turns(ws, k, n)[|vs| - 1].empty;
      assert Turns(vs, k, n + 1) == Turns(ws, k, n);
    }
  }

  /** A loop that has ended could: the sink holds what the limits let through, so it has had room
      for it. */
  lemma EndedCould(vs: Chain, k: nat, payload: bytes, n: nat)
    requires Inv(vs, payload) && k < |vs| && Turns(vs, k, n)[|vs| - 1].empty
    ensures CanEnd(vs, payload)
  {
    var ws := Turns(vs, k, n);
    TurnsKeepInv(vs, k, payload, n);
    SinkIsCapped(ws, payload);
    CapSame(vs, ws, |payload|);
    assert vs[|vs| - 1].limited == ws[|vs| - 1].limited;
  }

  /** Exactly when the loop of a user ends, whatever stage it processes from: when the sink is no
      LIMITED stage, or nothing was to come, and there is room in the sink for what the limits let
      through. A LIMITED sink never says that it is empty, because it holds what it has let through. */
  lemma EndsExactly(vs: Chain, k: nat, payload: bytes)
    requires Inv(vs, payload) && Sized(vs) && k < |vs|
    ensures Ends(vs, k)
            <==> var sink := vs[|vs| - 1];
                 (!sink.limited || payload == []) && |sink.data| + sink.room >= Cap(vs, |payload|)
  {
    if CanEnd(vs, payload) {
      TurnsEnd(vs, k, payload);
    } else if Ends(vs, k) {
      var n: nat :| Turns(vs, k, n)[|vs| - 1].empty;
      EndedCould(vs, k, payload, n);
    }
  }

  /** For a LIMITED sink that does not depend on any room: no turn of any run flags it. */
  lemma LimitedSinkSpins(vs: Chain, k: nat, payload: bytes)
    requires Inv(vs, payload) && k < |vs| && vs[|vs| - 1].limited && payload != []
    ensures forall n: nat :: !Turns(vs, k, n)[|vs| - 1].empty
  {
    forall n: nat ensures !Turns(vs, k, n)[|vs| - 1].empty {
      if Turns(vs, k, n)[|vs| - 1].empty { EndedCould(vs, k, payload, n); }
    }
  }

  /** For one: a single byte in the source of a chain of two, just hooked. After two turns the chain
      is as it will be for ever. */
  lemma SpinningRun()
    ensures var source := StageView(true, [7], 1, 0, false, 0, 0, false);
            var sink := StageView(true, [], 1, 1, true, 1, 0, false);
            var stuck := [source.(data := [], room := 1, moved := 0, empty := true),
                          sink.(data := [7], room := 0, moved := 1)];
            && Inv([source, sink], [7]) && Sized([source, sink])
            && (forall n: nat :: !Turns([source, sink], 1, n)[1].empty)
            && Pass(stuck, Front(stuck, 1)) == stuck
  {
    var source := StageView(true, [7], 1, 0, false, 0, 0, false);
    var sink := StageView(true, [], 1, 1, true, 1, 0, false);
    InitialChain([source, sink], [7]);
    LimitedSinkSpins([source, sink], 1, [7]);
    var stuck := [source.(data := [], room := 1, moved := 0, empty := true), sink.(data := [7], room := 0, moved := 1)];
    assert Nearest(stuck, 1) == 0 && Back(stuck, 1) == 0 && Forward(stuck, 1) == 1 && Front(stuck, 1) == 1;
    assert Step(stuck, 1) == stuck;
    assert Pass(stuck, 2) == stuck;
  }

  /** And one that ends though the sink could not hold the payload: a stage before it lets only one
      of the two bytes through. */
  lemma SmallSinkEnds(k: nat)
    requires k < 3
    ensures var source := StageView(true, [7, 8], 2, 0, false, 0, 0, false);
            var limiter := StageView(true, [], 1, 1, true, 1, 0, false);
            var sink := StageView(true, [], 1, 1, false, 0, 0, false);
            var chain := [source, limiter, sink];
            Inv(chain, [7, 8]) && Sized(chain) && Space(chain) < 2 && Ends(chain, k)
  {
    var source := StageView(true, [7, 8], 2, 0, false, 0, 0, false);
    var limiter := StageView(true, [], 1, 1, true, 1, 0, false);
    var sink := StageView(true, [], 1, 1, false, 0, 0, false);
    var chain := [source, limiter, sink];
    InitialChain(chain, [7, 8]);
    assert chain[1].limited && chain[1].max == 1;
    CapIs(chain, 2, 1);
    TurnsEnd(chain, k, [7, 8]);
  }
}
