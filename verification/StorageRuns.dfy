/** The versions of one key in the hash table storage of src/storage.c, over any run of any
    number of clients: optimistic locking by the `cas` of an item. */
module StorageRuns {
  import W = Wrappers

  const WRAP := 0x1_0000_0000

  /** uint32_t. */
  type Cas = n: int | 0 <= n < WRAP

  function Bump(c: Cas): Cas { if c + 1 == WRAP then 0 else c + 1 }

  /** An item as the table keeps it. */
  datatype Version = Version(cas: Cas, expires: int, data: string)

  predicate Live(v: Version, now: int) { v.expires == 0 || v.expires > now }

  type Slot = W.Option<Version>

  /** One atomic access to the key. A write carries the item of its client, with the cas the
      client knows, 0 for an insertion. A get that finds the item expired removes it, but not
      in the same atomic step, so its removal counts as one of its own. */
  datatype Op = Write(item: Version, now: int) | Look(now: int) | Drop

  /** Refused comes with a copy of what is there. */
  datatype Outcome = Stored | Refused(present: Slot) | Seen(present: Slot) | Dropped

  predicate Accepted(slot: Slot, item: Version, now: int)
  {
    if item.cas == 0 then slot.None? || !Live(slot.value, now) else slot.Some? && slot.value.cas == item.cas
  }

  /** What is stored: the item with its cas incremented. */
  function Next(item: Version): Version { item.(cas := Bump(item.cas)) }

  function After(slot: Slot, op: Op): Slot
  {
    match op
    case Write(item, now) => if Accepted(slot, item, now) then W.Some(Next(item)) else slot
    case Look(_) => slot
    case Drop => W.None
  }

  function OutcomeOf(slot: Slot, op: Op): Outcome
  {
    match op
    case Write(item, now) => if Accepted(slot, item, now) then Stored else Refused(slot)
    case Look(now) => Seen(if slot.Some? && Live(slot.value, now) then slot else W.None)
    case Drop => Dropped
  }

  // ---- One incarnation of the key ----

  /** All versions since the insertion. */
  type History = seq<Version>

  function Current(h: History): Slot { if h == [] then W.None else W.Some(h[|h| - 1]) }

  predicate Updates(h: History, op: Op) { op.Write? && op.item.cas != 0 && Accepted(Current(h), op.item, op.now) }

  predicate Inserts(h: History, op: Op) { op.Write? && op.item.cas == 0 && Accepted(Current(h), op.item, op.now) }

  function Record(h: History, op: Op): History
  {
    if Updates(h, op) then h + [Next(op.item)]
    else if Inserts(h, op) then [Next(op.item)]
    else if op.Drop? then []
    else h
  }

  /** The key stays in its incarnation. */
  predicate Stays(h: History, op: Op) { !Inserts(h, op) && !op.Drop? }

  /** The versions are numbered 1, 2, 3, ..., and the one after the largest number is 0. */
  predicate Numbered(h: History)
  {
    |h| <= WRAP && forall k :: 0 <= k < |h| ==> h[k].cas == if k + 1 == WRAP then 0 else k + 1
  }

  lemma RecordIsAfter(h: History, op: Op)
    ensures Current(Record(h, op)) == After(Current(h), op)
  {
  }

  lemma RecordNumbered(h: History, op: Op)
    requires Numbered(h)
    ensures Numbered(Record(h, op))
  {
  }

  function Run(h: History, ops: seq<Op>): History
    decreases |ops|
  {
    if ops == [] then h else Run(Record(h, ops[0]), ops[1..])
  }

  function Slots(slot: Slot, ops: seq<Op>): Slot
    decreases |ops|
  {
    if ops == [] then slot else Slots(After(slot, ops[0]), ops[1..])
  }

  /** Whatever happens to the key, what is stored is the last of a numbered history. */
  lemma {:induction false} AnyRun(h: History, ops: seq<Op>)
    requires Numbered(h)
    ensures Numbered(Run(h, ops)) && Current(Run(h, ops)) == Slots(Current(h), ops)
    decreases |ops|
  {
    if ops != [] {
      RecordNumbered(h, ops[0]);
      RecordIsAfter(h, ops[0]);
      AnyRun(Record(h, ops[0]), ops[1..]);
    }
  }

  /** Within an incarnation a cas names one version. */
  lemma CasNamesVersion(h: History, i: nat, j: nat)
    requires Numbered(h) && i < |h| && j < |h| && h[i].cas == h[j].cas
    ensures i == j
  {
  }

  /** An update that is accepted replaces exactly the version whose cas it carries, and makes the
      next one. */
  lemma UpdateReplaces(h: History, op: Op)
    requires Numbered(h) && Updates(h, op)
    ensures |h| == op.item.cas && h[op.item.cas - 1].cas == op.item.cas
    ensures Record(h, op) == h + [Next(op.item)] && |h| < WRAP
  {
  }

  /** Exactly which updates are accepted: those that carry the number of versions there are. */
  lemma UpdatesExactly(h: History, item: Version, now: int)
    requires Numbered(h) && item.cas != 0
    ensures Updates(h, Write(item, now)) <==> |h| == item.cas
  {
    if h != [] {
      assert h[|h| - 1].cas == if |h| == WRAP then 0 else |h|;
    }
  }

  predicate AllStay(h: History, ops: seq<Op>)
    decreases |ops|
  {
    ops == [] || (Stays(h, ops[0]) && AllStay(Record(h, ops[0]), ops[1..]))
  }

  /** How many updates that carry `c` are accepted in a run. */
  function Winners(h: History, ops: seq<Op>, c: Cas): nat
    decreases |ops|
  {
    if ops == [] then 0
    else (if Updates(h, ops[0]) && ops[0].item.cas == c then 1 else 0) + Winners(Record(h, ops[0]), ops[1..], c)
  }

  /** Of all updates that carry the same cas, at most one is accepted in an incarnation; none
      once a later version is there. */
  lemma {:induction false} OneWinner(h: History, ops: seq<Op>, c: Cas)
    requires Numbered(h) && AllStay(h, ops)
    ensures Winners(h, ops, c) <= if |h| <= c then 1 else 0
    decreases |ops|
  {
    if ops != [] {
      RecordNumbered(h, ops[0]);
      if Updates(h, ops[0]) {
        UpdateReplaces(h, ops[0]);
      }
      OneWinner(Record(h, ops[0]), ops[1..], c);
    }
  }

  /** After 2^32 versions nothing is accepted any more while the item lives. */
  lemma Frozen(h: History, op: Op)
    requires Numbered(h) && |h| == 0x1_0000_0000 && op.Write?
    requires h[|h| - 1].expires == 0 || h[|h| - 1].expires > op.now
    ensures OutcomeOf(Current(h), op) == Refused(Current(h)) && Record(h, op) == h
  {
  }

  // ---- Clients ----

  type Client = nat

  /** The key and the copies its clients hold. */
  datatype World = World(history: History, held: map<Client, Version>)

  /** Update stores `data` under the item the client holds. */
  datatype Act = Fetch(who: Client, now: int) | Update(who: Client, expires: int, data: string, now: int)

  function OpOf(w: World, a: Act): Op
    requires a.Update? ==> a.who in w.held
  {
    match a
    case Fetch(_, now) => Look(now)
    case Update(who, expires, data, now) => Write(Version(w.held[who].cas, expires, data), now)
  }

  /** The client goes on from the copy it got, or from its own item if that was stored: the put
      has incremented its cas, too. */
  function HeldAfter(w: World, a: Act): map<Client, Version>
    requires a.Update? ==> a.who in w.held
  {
    match OutcomeOf(Current(w.history), OpOf(w, a))
    case Stored => w.held[a.who := Next(OpOf(w, a).item)]
    case Refused(present) => if present.Some? then w.held[a.who := present.value] else w.held
    case Seen(present) => if present.Some? then w.held[a.who := present.value] else w.held
    case Dropped => w.held
  }

  function Do(w: World, a: Act): World
    requires a.Update? ==> a.who in w.held
  {
    World(Record(w.history, OpOf(w, a)), HeldAfter(w, a))
  }

  /** Every client holds a version of this incarnation, as it was stored. */
  predicate Faithful(w: World)
  {
    Numbered(w.history) && forall c :: c in w.held ==> w.held[c] in w.history
  }

  /** A client that has something to update updates what it holds. */
  predicate Able(w: World, a: Act) { a.Update? ==> a.who in w.held }

  lemma DoFaithful(w: World, a: Act)
    requires Faithful(w) && Able(w, a) && Stays(w.history, OpOf(w, a))
    ensures Faithful(Do(w, a))
    ensures Updates(w.history, OpOf(w, a)) ==> w.held[a.who] == w.history[|w.history| - 1]
  {
    var op, h := OpOf(w, a), w.history;
    RecordNumbered(h, op);
    if Updates(h, op) {
      var k :| 0 <= k < |h| && h[k] == w.held[a.who];
      CasNamesVersion(h, k, |h| - 1);
      assert Record(h, op)[|h|] == Next(op.item);
    }
  }

  /** A run of clients within one incarnation. */
  predicate Play(w: World, acts: seq<Act>)
    decreases |acts|
  {
    acts == [] || (Able(w, acts[0]) && Stays(w.history, OpOf(w, acts[0])) && Play(Do(w, acts[0]), acts[1..]))
  }

  /** Every update that was stored replaced just the version its client held. */
  predicate NothingLost(w: World, acts: seq<Act>)
    requires Play(w, acts)
    decreases |acts|
  {
    acts == [] ||
    (&& (Updates(w.history, OpOf(w, acts[0])) ==> w.held[acts[0].who] == w.history[|w.history| - 1])
     && NothingLost(Do(w, acts[0]), acts[1..]))
  }

  /** No client ever overwrites a version it has not seen, however they interleave, as long as a
      client that loses goes on from the copy it got back. */
  lemma {:induction false} NoLostUpdate(w: World, acts: seq<Act>)
    requires Faithful(w) && Play(w, acts)
    ensures NothingLost(w, acts)
    decreases |acts|
  {
    if acts != [] {
      DoFaithful(w, acts[0]);
      NoLostUpdate(Do(w, acts[0]), acts[1..]);
    }
  }

  /** A client that loses and puts its own item again, whose cas the lost put has incremented:
      it wins exactly if one update was stored in between, and overwrites that update unseen. */
  lemma BlindRetry(h: History, item: Version, now: int)
    requires Numbered(h) && 0 < item.cas <= |h|
    requires !Updates(h, Write(item, now))
    ensures Updates(h, Write(Next(item), now)) <==> |h| == item.cas + 1 < WRAP
  {
  }

  /** Across incarnations a cas means nothing: an item that was read before a removal replaces
      whatever version has come to carry its cas since. */
  lemma OldIncarnation(h: History, ops: seq<Op>, mine: Version, now: int)
    requires Numbered(h) && mine.cas != 0
    ensures Updates(Run(h, [Drop] + ops), Write(mine, now)) <==> |Run([], ops)| == mine.cas
  {
    assert ([Drop] + ops)[1..] == ops;
    AnyRun([], ops);
    UpdatesExactly(Run([], ops), mine, now);
  }

  /** For one: the item was read before the removal, and another client's insertion is lost. */
  lemma LostInsertion(first: Version, second: Version, mine: Version, now: int)
    requires first.cas == 0 && second.cas == 0 && mine.cas == 1 && first.data != second.data
    ensures var h := Run([], [Write(first, now), Drop, Write(second, now)]);
            h == [Next(second)] && Updates(h, Write(mine, now))
  {
    var ops := [Write(first, now), Drop, Write(second, now)];
    assert ops[1..] == [Drop, Write(second, now)] && ops[1..][1..] == [Write(second, now)];
    assert Run([], [Write(second, now)]) == Run([Next(second)], []);
  }

  // ---- Expiry ----

  /** Who looks at a key sees what is there exactly if it does not expire, or not yet. */
  lemma SeenExactly(slot: Slot, now: int)
    ensures OutcomeOf(slot, Look(now)) == Seen(slot)
            <==> slot.None? || slot.value.expires == 0 || slot.value.expires > now
    ensures OutcomeOf(slot, Look(now)) == Seen(slot) || OutcomeOf(slot, Look(now)) == Seen(W.None)
  {
  }

  /** An insertion is refused exactly if there is something that has not expired. */
  lemma InsertedExactly(slot: Slot, item: Version, now: int)
    requires item.cas == 0
    ensures OutcomeOf(slot, Write(item, now)) == Stored
            <==> slot.None? || (slot.value.expires != 0 && slot.value.expires <= now)
  {
  }

  /** What is left by a look that removes what has expired. */
  function Looked(slot: Slot, now: int): Slot { OutcomeOf(slot, Look(now)).present }

  predicate Forward(times: seq<int>) { forall i, j :: 0 <= i < j < |times| ==> times[i] <= times[j] }

  /** What is left after the first `n` looks. */
  function LookedTo(slot: Slot, times: seq<int>, n: nat): Slot
    requires n <= |times|
  {
    if n == 0 then slot else Looked(LookedTo(slot, times, n - 1), times[n - 1])
  }

  /** While the clock does not go back and nothing else touches the key, every look before the item
      expires finds it, and none does from then on. */
  lemma {:induction false} FoundUntil(v: Version, times: seq<int>, n: nat)
    requires Forward(times) && 0 < n <= |times|
    ensures LookedTo(W.Some(v), times, n)
         == if v.expires == 0 || v.expires > times[n - 1] then W.Some(v) else W.None
  {
    if n > 1 {
      FoundUntil(v, times, n - 1);
    }
  }
}
