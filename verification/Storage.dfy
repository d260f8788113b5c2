/** The hash table storage of src/storage.c: each access does to the slot of its key what
    StorageRuns says, and nothing to the others. */
module Storage {
  import opened StorageRuns
  import W = Wrappers
  import H = HashTable

  /** struct CS_StorageItem, as a client holds it. */
  class StorageItem {
    var cas: Cas
    var expires: int
    const key: string
    var data: string

    constructor (key: string, cas: Cas, expires: int, data: string)
      ensures this.key == key && this.cas == cas && this.expires == expires && this.data == data
    {
      this.key, this.cas, this.expires, this.data := key, cas, expires, data;
    }

    function Copied(): Version
      reads this
    {
      Version(cas, expires, data)
    }
  }

  /** struct _checkContext: the cas to check, the time, and the copy of the old item. */
  datatype Check = Check(cas: Cas, now: int, copy: Slot)

  /** privateHashtableCheckPutMaybe. On a key that is missing the source follows the pointer
      CS_HASHTABLE_ERROR when the cas is not 0; the comment there says what was meant. */
  function CheckPut(context: Check, present: H.Answer<Version>): (H.Decision, Check)
  {
    if context.cas == 0 then
      if present.Value? && Live(present.value, context.now) then
        (H.ReturnError, context.(copy := W.Some(present.value)))
      else (H.PutReturnNull, context)
    else if !present.Value? then (H.ReturnError, context)
    else if context.cas != present.value.cas then (H.ReturnError, context.(copy := W.Some(present.value)))
    else (H.PutReturnOld, context)
  }

  /** What the table holds for a key. */
  function SlotOf(m: map<H.Ident, Version>, key: string): Slot
  {
    if H.ByKey(key) in m then W.Some(m[H.ByKey(key)]) else W.None
  }

  /** All keys but one are as before. */
  ghost predicate OthersKept(was: map<H.Ident, Version>, now: map<H.Ident, Version>, key: string)
  {
    forall k :: k != key ==> SlotOf(now, k) == SlotOf(was, k)
  }

  /** What CS_storageUpdate returns: the item it was given, or a copy of another, or NULL. */
  datatype Result = Itself | Other(copy: Slot)

  function ResultOf(o: Outcome): Result
    requires o.Stored? || o.Refused?
  {
    if o.Stored? then Itself else Other(o.present)
  }

  /** The callback and the table together accept just what the runs accept. */
  lemma CheckAccepts(slot: Slot, item: Version, now: int)
    requires item.cas != 0 ==> slot.Some?
    ensures var present := if slot.Some? then H.Value(slot.value) else H.Error;
            var (d, context) := CheckPut(Check(item.cas, now, W.None), present);
            && (H.Puts(d) <==> Accepted(slot, item, now))
            && (d == H.ReturnError <==> !Accepted(slot, item, now))
            && (!Accepted(slot, item, now) ==> context.copy == slot)
  {
  }

  /** Whether a write is accepted, and what that means. */
  lemma Decided(slot: Slot, item: Version, now: int) returns (accepted: bool)
    ensures accepted == Accepted(slot, item, now)
    ensures After(slot, Write(item, now)) == if accepted then W.Some(Next(item)) else slot
    ensures ResultOf(OutcomeOf(slot, Write(item, now))) == if accepted then Itself else Other(slot)
  {
    accepted := Accepted(slot, item, now);
  }

  lemma SlotPut(m: map<H.Ident, Version>, key: string, v: Version)
    ensures var now := m[H.ByKey(key) := v]; SlotOf(now, key) == W.Some(v) && OthersKept(m, now, key)
  {
  }

  class Storage {
    const table: H.Table<Version>

    ghost predicate Valid()
      reads this, table, table.entries, table.repr
    {
      table.Valid() && table.flags & H.PEDANTIC != 0
    }

    ghost function Items(): map<H.Ident, Version>
      requires Valid()
      reads this, table, table.entries, table.repr
    {
      table.Contents()
    }

    /** privateHashtableOpen. */
    constructor (capacity: nat)
      requires capacity > 0
      ensures Valid() && Items() == map[]
    {
      table := new H.Table(capacity, 0x00030001);
    }

    /** privateHashtablePut, and so CS_storageUpdate: the cas of the item is incremented whether
        or not the item is stored. */
    method Update(item: StorageItem, now: int) returns (r: Result)
      requires Valid() && (item.cas != 0 ==> SlotOf(Items(), item.key).Some?)
      modifies item`cas, table, table.entries, table.repr
      ensures table.entries == old(table.entries) && fresh(table.repr - old(table.repr))
      ensures Valid() && item.cas == Bump(old(item.cas))
      ensures var op := Write(old(item.Copied()), now);
              && SlotOf(Items(), item.key) == After(SlotOf(old(Items()), item.key), op)
              && r == ResultOf(OutcomeOf(SlotOf(old(Items()), item.key), op))
      ensures OthersKept(old(Items()), Items(), item.key)
    {
      var mine := item.Copied();
      item.cas := Bump(item.cas);
      r := PutCopy(item.key, mine, item.Copied(), now);
    }

    method PutCopy(key: string, mine: Version, itemCopy: Version, now: int) returns (r: Result)
      requires Valid() && (mine.cas != 0 ==> SlotOf(Items(), key).Some?) && itemCopy == Next(mine)
      modifies table, table.entries, table.repr
      ensures table.entries == old(table.entries) && fresh(table.repr - old(table.repr))
      ensures Valid() && SlotOf(Items(), key) == After(SlotOf(old(Items()), key), Write(mine, now))
      ensures r == ResultOf(OutcomeOf(SlotOf(old(Items()), key), Write(mine, now)))
      ensures OthersKept(old(Items()), Items(), key)
    {
      ghost var slot := SlotOf(Items(), key);
      CheckAccepts(slot, mine, now);
      ghost var accepted := Decided(slot, mine, now);
      var answer, copy := PutChecked(key, itemCopy, Check(mine.cas, now, W.None), accepted);
      r := if answer.Error? then Other(copy) else Itself;
    }

    method PutChecked(key: string, v: Version, context: Check, ghost accepted: bool)
        returns (answer: H.Answer<Version>, copy: Slot)
      requires Valid() && context.copy == W.None
      requires var slot := SlotOf(Items(), key);
               var (d, c) := CheckPut(context, if slot.Some? then H.Value(slot.value) else H.Error);
               (H.Puts(d) <==> accepted) && (d == H.ReturnError <==> !accepted) && (!accepted ==> c.copy == slot)
      modifies table, table.entries, table.repr
      ensures table.entries == old(table.entries) && fresh(table.repr - old(table.repr))
      ensures Valid() && Items() == if accepted then old(Items())[H.ByKey(key) := v] else old(Items())
      ensures (answer.Error? <==> !accepted) && (!accepted ==> copy == SlotOf(old(Items()), key))
      ensures SlotOf(Items(), key) == if accepted then W.Some(v) else SlotOf(old(Items()), key)
      ensures OthersKept(old(Items()), Items(), key)
    {
      var context';
      SlotPut(Items(), key, v);
      answer, context' := table.PutMaybe(key, v, context, CheckPut);
      copy := context'.copy;
    }

    /** privateHashtableGet. */
    method Get(key: string, now: int) returns (r: Slot)
      requires Valid()
      modifies table, table.entries, table.repr
      ensures table.entries == old(table.entries) && fresh(table.repr - old(table.repr))
      ensures Valid() && r == OutcomeOf(SlotOf(old(Items()), key), Look(now)).present
      ensures var slot := SlotOf(old(Items()), key);
              && SlotOf(Items(), key) == (if slot.Some? && !Live(slot.value, now) then After(slot, Drop)
                                          else After(slot, Look(now)))
              && SlotOf(Items(), key) == r
              && r == if slot.Some? && (slot.value.expires == 0 || slot.value.expires > now) then slot else W.None
      ensures OthersKept(old(Items()), Items(), key)
    {
      var maybe := table.Get(key);
      r := W.None;
      if maybe.Value? {
        if Live(maybe.value, now) {
          r := W.Some(maybe.value);
        } else {
          var _ := table.Remove(key);
        }
      }
    }

    /** privateHashtableRemove: true if there was nothing to remove. */
    method Remove(key: string) returns (error: bool)
      requires Valid()
      modifies table, table.entries, table.repr
      ensures table.entries == old(table.entries) && fresh(table.repr - old(table.repr))
      ensures Valid() && (error <==> SlotOf(old(Items()), key).None?)
      ensures SlotOf(Items(), key) == After(SlotOf(old(Items()), key), Drop)
      ensures OthersKept(old(Items()), Items(), key)
    {
      var answer := table.Remove(key);
      error := answer.Error?;
    }

    /** CS_storagePut: an insertion; if it is refused, a copy of what is there goes to the caller. */
    method Put(key: string, data: string, expires: int, now: int) returns (r: StorageItem?, present: Slot)
      requires Valid()
      modifies table, table.entries, table.repr
      ensures table.entries == old(table.entries) && fresh(table.repr - old(table.repr))
      ensures Valid()
      ensures var slot, op := SlotOf(old(Items()), key), Write(Version(0, expires, data), now);
              && SlotOf(Items(), key) == After(slot, op)
              && (OutcomeOf(slot, op).Stored? ==> r != null && r.cas == 1 && r.key == key && present == W.None)
              && (!OutcomeOf(slot, op).Stored? ==> r == null && present == slot)
              && (r == null <==> slot.Some? && (slot.value.expires == 0 || slot.value.expires > now))
              && (r != null ==> SlotOf(Items(), key) == W.Some(Version(1, expires, data)))
      ensures OthersKept(old(Items()), Items(), key)
    {
      var item := new StorageItem(key, 0, expires, data);
      var answer := Update(item, now);
      if answer.Itself? {
        r, present := item, W.None;
      } else {
        r, present := null, answer.copy;
      }
    }

    method GetNext(key: string, times: seq<int>, n: nat, ghost slot: Slot, ghost was: map<H.Ident, Version>)
        returns (r: Slot)
      requires Valid() && n < |times| && SlotOf(Items(), key) == LookedTo(slot, times, n)
      requires OthersKept(was, Items(), key)
      modifies table, table.entries, table.repr
      ensures table.entries == old(table.entries) && fresh(table.repr - old(table.repr))
      ensures Valid() && SlotOf(Items(), key) == r == LookedTo(slot, times, n + 1) && OthersKept(was, Items(), key)
    {
      r := Get(key, times[n]);
    }

    /** One get after the other, at times that do not go back. */
    method GetEach(key: string, times: seq<int>) returns (rs: seq<Slot>)
      requires Valid() && Forward(times)
      modifies table, table.entries, table.repr
      ensures table.entries == old(table.entries) && fresh(table.repr - old(table.repr))
      ensures Valid() && |rs| == |times|
      ensures forall i :: 0 <= i < |times| ==> rs[i] == LookedTo(SlotOf(old(Items()), key), times, i + 1)
      ensures OthersKept(old(Items()), Items(), key)
    {
      rs := [];
      ghost var was, slot := Items(), SlotOf(Items(), key);
      for n := 0 to |times|
        invariant Valid() && |rs| == n && OthersKept(was, Items(), key)
        invariant SlotOf(Items(), key) == LookedTo(slot, times, n)
        invariant forall i :: 0 <= i < n ==> rs[i] == LookedTo(slot, times, i + 1)
        invariant table.entries == old(table.entries) && fresh(table.repr - old(table.repr))
      {
        var r := GetNext(key, times, n, slot, was);
        rs := rs + [r];
      }
    }

    /** An item is put, and then looked for again and again: it is found by every get before it
        expires, and by none from then on. */
    method PutThenGet(key: string, data: string, expires: int, now: int, times: seq<int>)
        returns (item: StorageItem?, rs: seq<Slot>)
      requires Valid() && Forward(times)
      modifies table, table.entries, table.repr
      ensures table.entries == old(table.entries) && fresh(table.repr - old(table.repr))
      ensures Valid() && |rs| == |times|
      ensures item != null ==>
                forall i :: 0 <= i < |times| ==>
                  rs[i] == if expires == 0 || expires > times[i] then W.Some(Version(1, expires, data)) else W.None
    {
      var present;
      item, present := Put(key, data, expires, now);
      rs := GetEach(key, times);
      if item != null {
        forall i | 0 <= i < |times|
          ensures rs[i] == if expires == 0 || expires > times[i] then W.Some(Version(1, expires, data)) else W.None
        {
          FoundUntil(Version(1, expires, data), times, i + 1);
        }
      }
    }
  }
}
