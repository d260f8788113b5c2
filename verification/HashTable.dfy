/** The chained hash table of src/hashtable.c, with its C string keys. */
module HashTable {
  import opened Sequences
  import W = Wrappers

  type Option<+T> = W.Option<T>

  // ---- Keys ----

  const PEDANTIC: bv32 := 0x00010000
  const VERY_PEDANTIC: bv32 := 0x00030000

  /** `%` of C, which truncates towards zero. */
  function Remainder(a: int, n: int): int
    requires n > 0
  {
    if a >= 0 then a % n else -(-a % n)
  }

  function Abs(a: int): int { if a < 0 then -a else a }

  /** The bucket of a hash, which may be negative. */
  function Slot(hash: int, capacity: int): (b: int)
    requires capacity > 0
    ensures 0 <= b < capacity
    ensures b == (if hash < 0 then -hash else hash) % capacity
  {
    Abs(Remainder(hash, capacity))
  }

  /** The first four bytes of a key, as an entry keeps them. */
  function Prefix(key: string): string { if |key| < 4 then key else key[..4] }

  /** What a table tells keys apart by. */
  datatype Ident = ByHash(hash: int) | ByKey(key: string)

  /** CS_hash over the bytes of a key, as the int32 the table keeps. */
  function HashFrom(accumulator: nat, key: string): nat
    decreases |key|
  {
    if key == [] then accumulator
    else HashFrom((37 * accumulator + key[0] as int) % 0x1_0000_0000, key[1..])
  }

  function Hash(key: string): int
  {
    var h := HashFrom(27, key);
    if h < 0x8000_0000 then h else h - 0x1_0000_0000
  }

  /** The number 27 with the bytes of a key behind it, to the base 37. */
  function Digits37(key: string): nat
    decreases |key|
  {
    if key == [] then 27 else 37 * Digits37(key[..|key| - 1]) + key[|key| - 1] as int
  }

  lemma {:induction false} HashFromBehind(accumulator: nat, key: string, c: char)
    ensures HashFrom(accumulator, key + [c]) == (37 * HashFrom(accumulator, key) + c as int) % 0x1_0000_0000
    decreases |key|
  {
    if key == [] {
      assert key + [c] == [c] && [c][1..] == [];
    } else {
      HashFromBehind((37 * accumulator + key[0] as int) % 0x1_0000_0000, key[1..], c);
      assert (key + [c])[1..] == key[1..] + [c];
    }
  }

  lemma Wrapped(a: nat, c: nat)
    ensures (37 * (a % 0x1_0000_0000) + c) % 0x1_0000_0000 == (37 * a + c) % 0x1_0000_0000
  {
    var q := a / 0x1_0000_0000;
    assert 37 * a + c == 37 * (a % 0x1_0000_0000) + c + 0x1_0000_0000 * (37 * q);
  }

  /** A hash is that number, as far as 32 bits go. */
  lemma {:induction false} HashIs(key: string)
    ensures HashFrom(27, key) == Digits37(key) % 0x1_0000_0000
    ensures Hash(key) % 0x1_0000_0000 == Digits37(key) % 0x1_0000_0000 && -0x8000_0000 <= Hash(key) < 0x8000_0000
    decreases |key|
  {
    if key != [] {
      var n := |key| - 1;
      HashIs(key[..n]);
      HashFromBehind(27, key[..n], key[n]);
      assert key == key[..n] + [key[n]];
      Wrapped(Digits37(key[..n]), key[n] as int);
    }
  }

  /** 37 * (37 * 27 + 97) + 98. */
  lemma HashOfAb()
    ensures Hash("ab") == 40650
  {
    assert "ab"[1..] == "b" && "b"[1..] == [];
    assert HashFrom(27, "ab") == HashFrom(1096, "b") == HashFrom(40650, []);
  }

  /** The loop of CS_hash. */
  method ComputeHash(key: string) returns (h: int)
    ensures h == Hash(key)
  {
    var accumulator: nat := 27;
    var i := 0;
    assert key[0..] == key;
    while i < |key|
      invariant 0 <= i <= |key|
      invariant HashFrom(27, key) == HashFrom(accumulator, key[i..])
    {
      assert key[i..][1..] == key[i + 1..];
      accumulator := (37 * accumulator + key[i] as int) % 0x1_0000_0000;
      i := i + 1;
    }
    h := if accumulator < 0x8000_0000 then accumulator else accumulator - 0x1_0000_0000;
  }

  /** Full keys are compared as soon as one flag of VERY_PEDANTIC is set, and PEDANTIC is one. */
  lemma PedanticIsVery(flags: bv32)
    requires flags & PEDANTIC != 0
    ensures flags & VERY_PEDANTIC != 0
  {
    assert (flags & VERY_PEDANTIC) & PEDANTIC == flags & PEDANTIC;
  }

  function Id(flags: bv32, key: string): Ident
  {
    if flags & PEDANTIC != 0 then ByKey(key) else ByHash(Hash(key))
  }

  // ---- Entries and buckets ----

  class Entry<V> {
    const keyHash: int
    const keyPrefix: string
    const fullKey: string
    var nextInBucket: Entry?<V>
    var value: V

    constructor (key: string, hash: int, value: V)
      ensures fullKey == key && keyHash == hash && keyPrefix == Prefix(key) && this.value == value
      ensures nextInBucket == null
    {
      keyHash, keyPrefix, fullKey, nextInBucket, this.value := hash, Prefix(key), key, null, value;
    }
  }

  function At<V>(chain: seq<Entry<V>>, k: nat): Entry?<V> { if k < |chain| then chain[k] else null }

  /** An entry has the hash and the prefix of its key. */
  predicate Hashed<V>(e: Entry<V>) { e.keyHash == Hash(e.fullKey) && e.keyPrefix == Prefix(e.fullKey) }

  /** An entry knows its bucket, and the index knows the entry. */
  ghost predicate Known<V>(flags: bv32, index: map<Ident, Entry<V>>, e: Entry<V>)
  {
    Hashed(e) && Id(flags, e.fullKey) in index && index[Id(flags, e.fullKey)] == e
  }

  /** The entries of a bucket are where they should be, each once. */
  ghost predicate Bucket<V>(flags: bv32, chains: seq<seq<Entry<V>>>, index: map<Ident, Entry<V>>, b: nat)
    requires b < |chains|
  {
    && (forall k :: 0 <= k < |chains[b]| ==> 
          Known(flags, index, chains[b][k]) && Slot(chains[b][k].keyHash, |chains|) == b)
    && (forall i, j :: 0 <= i < j < |chains[b]| ==> chains[b][i] != chains[b][j])
  }

  /** The entry of a key the index knows is in the bucket of its hash. */
  ghost predicate Placed<V>(flags: bv32, chains: seq<seq<Entry<V>>>, index: map<Ident, Entry<V>>, id: Ident)
    requires id in index && |chains| > 0
  {
    Id(flags, index[id].fullKey) == id && index[id] in chains[Slot(index[id].keyHash, |chains|)]
  }

  ghost predicate Within<V>(chains: seq<seq<Entry<V>>>, index: map<Ident, Entry<V>>, repr: set<Entry<V>>)
  {
    && (forall b, k :: 0 <= b < |chains| && 0 <= k < |chains[b]| ==> chains[b][k] in repr)
    && (forall id :: id in index ==> index[id] in repr)
  }

  /** Each key lives once, in the bucket of its hash. */
  ghost predicate Shape<V>(flags: bv32, chains: seq<seq<Entry<V>>>, index: map<Ident, Entry<V>>, repr: set<Entry<V>>)
  {
    && |chains| > 0 && Within(chains, index, repr)
    && (forall id :: id in index ==> Placed(flags, chains, index, id))
    && (forall b :: 0 <= b < |chains| ==> Bucket(flags, chains, index, b))
  }

  lemma ShapeAdd<V>(flags: bv32, chains: seq<seq<Entry<V>>>, index: map<Ident, Entry<V>>, repr: set<Entry<V>>,
                    n: Entry<V>)
    requires Shape(flags, chains, index, repr) && Hashed(n) && Id(flags, n.fullKey) !in index
    ensures var b := Slot(n.keyHash, |chains|);
            Shape(flags, chains[b := [n] + chains[b]], index[Id(flags, n.fullKey) := n], repr + {n})
  {
    var b, id := Slot(n.keyHash, |chains|), Id(flags, n.fullKey);
    var chains', index' := chains[b := [n] + chains[b]], index[id := n];
    forall c | 0 <= c < |chains'| ensures Bucket(flags, chains', index', c) {
      assert Bucket(flags, chains, index, c);
    }
    forall i | i in index' ensures Placed(flags, chains', index', i) {
      assert i != id ==> Placed(flags, chains, index, i);
    }
  }

  lemma WithoutMembers<T>(s: seq<T>, k: nat)
    requires k < |s| && forall i, j :: 0 <= i < j < |s| ==> s[i] != s[j]
    ensures var t := Without(s, k);
            && (forall i, j :: 0 <= i < j < |t| ==> t[i] != t[j])
            && (forall e :: e in t <==> e in s && e != s[k])
  {
    var t := Without(s, k);
    forall e | e in s && e != s[k] ensures e in t {
      var j :| 0 <= j < |s| && s[j] == e;
      assert t[if j < k then j else j - 1] == e;
    }
  }

  lemma BucketDrop<V>(flags: bv32, chains: seq<seq<Entry<V>>>, index: map<Ident, Entry<V>>, b: nat, k: nat, c: nat)
    requires b < |chains| && c < |chains| && k < |chains[b]|
    requires Bucket(flags, chains, index, b) && Bucket(flags, chains, index, c)
    ensures Bucket(flags, chains[b := Without(chains[b], k)], index - {Id(flags, chains[b][k].fullKey)}, c)
  {
    var e := chains[b][k];
    var after, left := Without(chains[b], k), index - {Id(flags, chains[b][k].fullKey)};
    assert Known(flags, index, e);
    WithoutMembers(chains[b], k);
    forall x | x in chains[c] && x != e ensures Known(flags, left, x) && Slot(x.keyHash, |chains|) == c {
      var j :| 0 <= j < |chains[c]| && chains[c][j] == x;
      assert Known(flags, index, chains[c][j]);
    }
    if c != b {
      assert forall j :: 0 <= j < |chains[c]| ==> Slot(chains[c][j].keyHash, |chains|) == c && chains[c][j] != e;
    }
  }

  lemma ShapeDrop<V>(flags: bv32, chains: seq<seq<Entry<V>>>, index: map<Ident, Entry<V>>, repr: set<Entry<V>>,
                     b: nat, k: nat)
    requires Shape(flags, chains, index, repr) && b < |chains| && k < |chains[b]|
    ensures Shape(flags, chains[b := Without(chains[b], k)], index - {Id(flags, chains[b][k].fullKey)}, repr)
  {
    var e := chains[b][k];
    var chains', index' := chains[b := Without(chains[b], k)], index - {Id(flags, e.fullKey)};
    assert Bucket(flags, chains, index, b);
    WithoutMembers(chains[b], k);
    forall c | 0 <= c < |chains'| ensures Bucket(flags, chains', index', c) {
      assert Bucket(flags, chains, index, c);
      BucketDrop(flags, chains, index, b, k, c);
    }
    forall i | i in index' ensures Placed(flags, chains', index', i) {
      assert Placed(flags, chains, index, i);
      assert index[i] != e;
    }
  }

  // ---- Rehashing ----

  /** An entry that is still in its old chain, at bucket `i` and place `k` or behind. */
  ghost predicate Todo<V>(olds: seq<seq<Entry<V>>>, i: nat, k: nat, e: Entry<V>)
    requires |olds| > 0
  {
    var b := Slot(e.keyHash, |olds|);
    b > i || (b == i && k <= |olds[i]| && e in olds[i][k..])
  }

  /** The entry of a key is in its new bucket as soon as it has left its old one. */
  ghost predicate Moved<V>(news: seq<seq<Entry<V>>>, olds: seq<seq<Entry<V>>>, index: map<Ident, Entry<V>>, i: nat,
                           k: nat, id: Ident)
    requires id in index && |news| > 0 && |olds| > 0
  {
    var e := index[id];
    e in news[Slot(e.keyHash, |news|)] <==> !Todo(olds, i, k, e)
  }

  ghost predicate Moving<V>(flags: bv32, news: seq<seq<Entry<V>>>, olds: seq<seq<Entry<V>>>, 
                            index: map<Ident, Entry<V>>,
                            repr: set<Entry<V>>, i: nat, k: nat)
  {
    && |news| > 0 && Shape(flags, olds, index, repr)
    && (forall b :: 0 <= b < |news| ==> Bucket(flags, news, index, b))
    && (forall id :: id in index ==> Moved(news, olds, index, i, k, id))
  }

  lemma MoveStep<V>(flags: bv32, news: seq<seq<Entry<V>>>, olds: seq<seq<Entry<V>>>, index: map<Ident, Entry<V>>,
                    repr: set<Entry<V>>, i: nat, k: nat)
    requires Moving(flags, news, olds, index, repr, i, k) && i < |olds| && k < |olds[i]|
    ensures var e := olds[i][k];
            var b := Slot(e.keyHash, |news|);
            && e !in news[b] && Moving(flags, news[b := [e] + news[b]], olds, index, repr, i, k + 1)
  {
    var e := olds[i][k];
    var b := Slot(e.keyHash, |news|);
    var after := news[b := [e] + news[b]];
    assert Bucket(flags, olds, index, i) && Known(flags, index, e);
    assert e in olds[i][k..];
    assert Moved(news, olds, index, i, k, Id(flags, e.fullKey));
    forall c | 0 <= c < |news| ensures Bucket(flags, after, index, c) {
      assert Bucket(flags, news, index, c);
    }
    forall id | id in index ensures Moved(after, olds, index, i, k + 1, id) {
      var x := index[id];
      assert Moved(news, olds, index, i, k, id);
      assert olds[i][k..] == [e] + olds[i][k + 1..];
      assert e !in olds[i][k + 1..];
    }
  }

  lemma NextBucket<V>(flags: bv32, news: seq<seq<Entry<V>>>, olds: seq<seq<Entry<V>>>, index: map<Ident, Entry<V>>,
                      repr: set<Entry<V>>, i: nat)
    requires i < |olds| && Moving(flags, news, olds, index, repr, i, |olds[i]|)
    ensures Moving(flags, news, olds, index, repr, i + 1, 0)
  {
    forall id | id in index ensures Moved(news, olds, index, i + 1, 0, id) {
      assert Moved(news, olds, index, i, |olds[i]|, id);
      assert Placed(flags, olds, index, id);
      assert i + 1 < |olds| ==> olds[i + 1][0..] == olds[i + 1];
    }
  }

  lemma AllMoved<V>(flags: bv32, news: seq<seq<Entry<V>>>, olds: seq<seq<Entry<V>>>, index: map<Ident, Entry<V>>,
                    repr: set<Entry<V>>)
    requires Moving(flags, news, olds, index, repr, |olds|, 0)
    ensures Shape(flags, news, index, repr)
  {
    forall id | id in index ensures Placed(flags, news, index, id) {
      assert Moved(news, olds, index, |olds|, 0, id);
      assert Placed(flags, olds, index, id);
    }
    forall b, k | 0 <= b < |news| && 0 <= k < |news[b]| ensures news[b][k] in repr {
      assert Bucket(flags, news, index, b) && Known(flags, index, news[b][k]);
    }
  }

  lemma NoneMoved<V>(flags: bv32, news: seq<seq<Entry<V>>>, olds: seq<seq<Entry<V>>>, index: map<Ident, Entry<V>>,
                     repr: set<Entry<V>>)
    requires Shape(flags, olds, index, repr) && |news| > 0 && forall b :: 0 <= b < |news| ==> news[b] == []
    ensures Moving(flags, news, olds, index, repr, 0, 0)
  {
    forall id | id in index ensures Moved(news, olds, index, 0, 0, id) {
      assert Placed(flags, olds, index, id);
      assert olds[0][0..] == olds[0];
    }
  }

  // ---- Iteration ----

  predicate Listed(flags: bv32, keys: seq<string>, id: Ident)
  {
    exists j :: 0 <= j < |keys| && Id(flags, keys[j]) == id
  }

  lemma ListedMore(flags: bv32, keys: seq<string>, key: string, id: Ident)
    ensures Listed(flags, keys + [key], id) <==> Listed(flags, keys, id) || Id(flags, key) == id
  {
    var more := keys + [key];
    assert more[|keys|] == key;
    if j :| 0 <= j < |keys| && Id(flags, keys[j]) == id {
      assert Id(flags, more[j]) == id;
    }
  }

  /** The keys of all entries that were visited, each once. */
  ghost predicate Listing<V>(flags: bv32, keys: seq<string>, chains: seq<seq<Entry<V>>>, index: map<Ident, Entry<V>>,
                             i: nat, k: nat)
    requires |chains| > 0
  {
    && (forall j :: 0 <= j < |keys| ==> Id(flags, keys[j]) in index)
    && (forall j, l :: 0 <= j < l < |keys| ==> Id(flags, keys[j]) != Id(flags, keys[l]))
    && (forall id :: id in index ==> (Listed(flags, keys, id) <==> !Todo(chains, i, k, index[id])))
  }

  lemma ListStep<V>(flags: bv32, keys: seq<string>, chains: seq<seq<Entry<V>>>, index: map<Ident, Entry<V>>,
                    repr: set<Entry<V>>, i: nat, k: nat)
    requires Shape(flags, chains, index, repr) && i < |chains| && k < |chains[i]|
    requires Listing(flags, keys, chains, index, i, k)
    ensures Listing(flags, keys + [chains[i][k].fullKey], chains, index, i, k + 1)
  {
    var e, more := chains[i][k], keys + [chains[i][k].fullKey];
    var known := Id(flags, e.fullKey);
    Apart(flags, chains, index, i, k);
    assert Bucket(flags, chains, index, i) && Known(flags, index, e);
    assert chains[i][k..] == [e] + chains[i][k + 1..];
    assert Todo(chains, i, k, e);
    forall id | id in index ensures Listed(flags, more, id) <==> !Todo(chains, i, k + 1, index[id]) {
      ListedMore(flags, keys, e.fullKey, id);
    }
  }

  lemma ListNext<V>(flags: bv32, keys: seq<string>, chains: seq<seq<Entry<V>>>, index: map<Ident, Entry<V>>,
                    repr: set<Entry<V>>, i: nat)
    requires Shape(flags, chains, index, repr) && i < |chains| && Listing(flags, keys, chains, index, i, |chains[i]|)
    ensures Listing(flags, keys, chains, index, i + 1, 0)
  {
    forall id | id in index ensures Listed(flags, keys, id) <==> !Todo(chains, i + 1, 0, index[id]) {
      assert Placed(flags, chains, index, id);
      assert i + 1 < |chains| ==> chains[i + 1][0..] == chains[i + 1];
    }
  }

  /** The values the entries of the index hold. */
  ghost function Values<V>(index: map<Ident, Entry<V>>): map<Ident, V>
    reads set id | id in index :: index[id]
  {
    map id | id in index :: index[id].value
  }

  twostate lemma ValuesKept<V>(index: map<Ident, Entry<V>>)
    requires forall id :: id in index ==> index[id].value == old(index[id].value)
    ensures Values(index) == old(Values(index))
  {
  }

  lemma ValuesAdd<V>(index: map<Ident, Entry<V>>, id: Ident, n: Entry<V>)
    ensures Values(index[id := n]) == Values(index)[id := n.value]
  {
  }

  lemma ValuesDrop<V>(index: map<Ident, Entry<V>>, id: Ident)
    ensures Values(index - {id}) == Values(index) - {id}
  {
  }

  /** Node `k` of a chain points at the next one. */
  ghost predicate LinkAt<V>(chain: seq<Entry<V>>, k: nat)
    requires k < |chain|
    reads chain[k]
  {
    chain[k].nextInBucket == At(chain, k + 1)
  }

  ghost predicate Linked<V>(first: Entry?<V>, chain: seq<Entry<V>>)
    reads chain
  {
    first == At(chain, 0) && forall k :: 0 <= k < |chain| ==> LinkAt(chain, k)
  }

  lemma LinkedCons<V>(n: Entry<V>, chain: seq<Entry<V>>)
    requires Linked(n.nextInBucket, chain)
    ensures Linked(n, [n] + chain)
  {
    var c := [n] + chain;
    forall k | 0 <= k < |c| ensures LinkAt(c, k) {
      assert k > 0 ==> LinkAt(chain, k - 1);
    }
  }

  /** A chain without its node `k`, which the node before it has skipped. */
  lemma LinkedCut<V>(first: Entry?<V>, chain: seq<Entry<V>>, k: nat)
    requires k < |chain| && first == if k == 0 then At(chain, 1) else At(chain, 0)
    requires forall j :: 0 <= j < |chain| && j != k && j != k - 1 ==> LinkAt(chain, j)
    requires k > 0 ==> chain[k - 1].nextInBucket == At(chain, k + 1)
    ensures Linked(first, Without(chain, k))
  {
    var c := Without(chain, k);
    forall j | 0 <= j < |c| ensures LinkAt(c, j) {
      assert j < k - 1 ==> LinkAt(chain, j);
      assert j >= k ==> LinkAt(chain, j + 1);
    }
  }

  /** What a function that decides on a put may answer. */
  datatype Decision = PutReturnNew | PutReturnOld | PutReturnNull | ReturnError | ReturnNew | ReturnOld | ReturnNull

  /** NULL, CS_HASHTABLE_ERROR or a value. */
  datatype Answer<+V> = Nothing | Error | Value(value: V)

  predicate Puts(d: Decision) { d.PutReturnNew? || d.PutReturnOld? || d.PutReturnNull? }

  function Answered<V>(d: Decision, present: Answer<V>, value: V): Answer<V>
  {
    if d.ReturnError? then Error
    else if d.PutReturnNew? || d.ReturnNew? then Value(value)
    else if d.PutReturnOld? || d.ReturnOld? then if present.Value? then present else Nothing
    else Nothing
  }

  /** What is stored under an id, or else the given answer. */
  function Present<V>(m: map<Ident, V>, id: Ident, absent: Answer<V>): Answer<V>
  {
    if id in m then Value(m[id]) else absent
  }

  /** The first switch of CS_hashtablePutMaybe. */
  method AnswerOf<V>(d: Decision, present: Answer<V>, value: V) returns (r: Answer<V>)
    ensures r == Answered(d, present, value)
    ensures r == match d
                 case PutReturnNew | ReturnNew => Value(value)
                 case PutReturnOld | ReturnOld => (if present.Value? then present else Nothing)
                 case PutReturnNull | ReturnNull => Nothing
                 case ReturnError => Error
  {
    match d
    case ReturnError => r := Error;
    case PutReturnNew => r := Value(value);
    case ReturnNew => r := Value(value);
    case PutReturnOld => r := if present.Value? then present else Nothing;
    case ReturnOld => r := if present.Value? then present else Nothing;
    case PutReturnNull => r := Nothing;
    case ReturnNull => r := Nothing;
  }

  /** CS_hashtableDefaultCstringKeyCompare, 0 for the same key. */
  method Compare<V>(flags: bv32, entry: Entry<V>, key: string, hash: int) returns (r: int)
    requires entry.keyHash == Hash(entry.fullKey) && entry.keyPrefix == Prefix(entry.fullKey) && hash == Hash(key)
    ensures r == 0 <==> Id(flags, entry.fullKey) == Id(flags, key)
  {
    r := 1;
    if entry.keyHash == hash {
      r := 0;
      if flags & PEDANTIC != 0 {
        PedanticIsVery(flags);
        if entry.keyPrefix != Prefix(key) {
          r := 1;
        } else if flags & VERY_PEDANTIC != 0 {
          if entry.fullKey != key {
            r := 1;
          }
        }
      }
    }
  }

  /** An entry of one bucket is in no other. */
  lemma Elsewhere<V>(flags: bv32, chains: seq<seq<Entry<V>>>, index: map<Ident, Entry<V>>, e: Entry<V>, b: nat)
    requires |chains| > 0 && b == Slot(e.keyHash, |chains|)
    requires forall c :: 0 <= c < |chains| ==> Bucket(flags, chains, index, c)
    ensures forall c :: 0 <= c < |chains| && c != b ==> e !in chains[c]
  {
    forall c | 0 <= c < |chains| && c != b ensures e !in chains[c] {
      assert Bucket(flags, chains, index, c);
    }
  }

  /** One entry of a chain is apart from all others. */
  lemma Apart<V>(flags: bv32, chains: seq<seq<Entry<V>>>, index: map<Ident, Entry<V>>, b: nat, k: nat)
    requires b < |chains| && k < |chains[b]| && forall c :: 0 <= c < |chains| ==> Bucket(flags, chains, index, c)
    ensures Slot(chains[b][k].keyHash, |chains|) == b
    ensures forall j :: 0 <= j < |chains[b]| && j != k ==> chains[b][j] != chains[b][k]
    ensures forall c :: 0 <= c < |chains| && c != b ==> chains[b][k] !in chains[c]
  {
    assert Bucket(flags, chains, index, b);
    Elsewhere(flags, chains, index, chains[b][k], b);
  }

  /** INSERT_INTO_ARRAY: the entry becomes the first of its bucket. */
  method InsertIntoArray<V>(entries: array<Entry?<V>>, ghost chains: seq<seq<Entry<V>>>, n: Entry<V>, b: nat)
    requires |chains| == entries.Length && b < entries.Length
    requires forall c :: 0 <= c < |chains| ==> n !in chains[c] && Linked(entries[c], chains[c])
    modifies entries, n`nextInBucket
    ensures forall c :: 0 <= c < |chains| ==> Linked(entries[c], if c == b then [n] + chains[c] else chains[c])
    ensures forall c :: 0 <= c < |chains| && c != b ==> entries[c] == old(entries[c])
  {
    n.nextInBucket := entries[b];
    entries[b] := n;
    forall c | 0 <= c < |chains| ensures Linked(old(entries[c]), chains[c]) {
      assert old(Linked(entries[c], chains[c]));
      forall k | 0 <= k < |chains[c]| ensures LinkAt(chains[c], k) {
        assert old(LinkAt(chains[c], k));
      }
    }
    LinkedCons(n, chains[b]);
  }

  class Table<V> {
    const flags: bv32
    var entries: array<Entry?<V>>
    /** The entries of each bucket in their order, the entry of each key, and all entries. */
    ghost var chains: seq<seq<Entry<V>>>
    ghost var index: map<Ident, Entry<V>>
    ghost var repr: set<Entry<V>>

    ghost predicate Valid()
      reads this, entries, repr
    {
      && |chains| == entries.Length && Shape(flags, chains, index, repr)
      && (forall b :: 0 <= b < |chains| ==> Linked(entries[b], chains[b]))
    }

    /** The map the table stands for. */
    ghost function Contents(): map<Ident, V>
      requires Valid()
      reads this, entries, repr
    {
      Values(index)
    }

    constructor (capacity: nat, flags: bv32)
      requires capacity > 0
      ensures Valid() && fresh(entries) && repr == {} && this.flags == flags && entries.Length == capacity
      ensures Contents() == map[]
    {
      this.flags := flags;
      entries := new Entry?<V>[capacity](_ => null);
      chains := seq(capacity, _ => []);
      index, repr := map[], {};
    }

    /** The entry of a key is in the bucket of its hash, whatever keys are told apart by. */
    lemma InItsBucket(key: string)
      requires Valid() && Id(flags, key) in index
      ensures var e := index[Id(flags, key)];
              Id(flags, e.fullKey) == Id(flags, key) && e in chains[Slot(Hash(key), |chains|)]
    {
      var e := index[Id(flags, key)];
      assert Placed(flags, chains, index, Id(flags, key));
      assert Bucket(flags, chains, index, Slot(e.keyHash, |chains|));
      assert Hashed(e);
    }

    /** privateFindEntryForKey: the entry of the key and the one before it in its bucket. */
    method Find(key: string, hash: int) returns (current: Entry?<V>, previous: Entry?<V>, ghost k: nat)
      requires Valid() && hash == Hash(key)
      ensures current == null <==> Id(flags, key) !in index
      ensures current != null ==> current == index[Id(flags, key)]
      ensures current != null ==> current.keyHash == hash && Id(flags, current.fullKey) == Id(flags, key)
      ensures current != null ==>
                var chain := chains[Slot(hash, |chains|)];
                k < |chain| && chain[k] == current && previous == if k == 0 then null else chain[k - 1]
    {
      var b := Slot(hash, entries.Length);
      assert Bucket(flags, chains, index, b);
      ghost var chain, id := chains[b], Id(flags, key);
      previous, current, k := null, entries[b], 0;
      var found := false;
      while current != null && !found
        invariant k <= |chain| && current == At(chain, k)
        invariant previous == if k == 0 then null else chain[k - 1]
        invariant forall j :: 0 <= j < k ==> Id(flags, chain[j].fullKey) != id
        invariant found ==> current != null && Id(flags, current.fullKey) == id
        decreases |chain| - k, !found
      {
        assert Known(flags, index, chain[k]);
        var c := Compare(flags, current, key, hash);
        if c == 0 {
          found := true;
        } else {
          assert LinkAt(chain, k);
          previous := current;
          current := current.nextInBucket;
          k := k + 1;
        }
      }
      if id in index {
        InItsBucket(key);
      }
      if current != null {
        assert Known(flags, index, chain[k]);
      }
    }

    method Enter(key: string, hash: int, value: V) returns (n: Entry<V>)
      requires Valid() && hash == Hash(key) && Id(flags, key) !in index
      modifies this, entries
      ensures Valid() && entries == old(entries) && fresh(n) && n.value == value
      ensures index == old(index)[Id(flags, key) := n] && repr == old(repr) + {n}
    {
      var b := Slot(hash, entries.Length);
      n := new Entry(key, hash, value);
      ShapeAdd(flags, chains, index, repr, n);
      InsertIntoArray(entries, chains, n, b);
      chains := chains[b := [n] + chains[b]];
      index := index[Id(flags, key) := n];
      repr := repr + {n};
    }

    /** privateInsertEntryForKey. */
    method Insert(key: string, hash: int, value: V)
      requires Valid() && hash == Hash(key) && Id(flags, key) !in index
      modifies this, entries
      ensures Valid() && entries == old(entries) && fresh(repr - old(repr)) && old(repr) <= repr
      ensures Contents() == old(Contents())[Id(flags, key) := value]
    {
      ghost var known := index;
      var n := Enter(key, hash, value);
      ValuesAdd(known, Id(flags, key), n);
    }

    method Store(entry: Entry?<V>, key: string, hash: int, value: V)
      requires Valid() && hash == Hash(key)
      requires if entry == null then Id(flags, key) !in index
               else Id(flags, key) in index && entry == index[Id(flags, key)]
      modifies this, entries, repr
      ensures Valid() && entries == old(entries) && fresh(repr - old(repr))
      ensures Contents() == old(Contents())[Id(flags, key) := value]
    {
      if entry == null {
        Insert(key, hash, value);
      } else {
        SetValue(entry, Id(flags, key), value);
      }
    }

    /** CS_hashtablePut. */
    method Put(key: string, value: V) returns (r: Answer<V>)
      requires Valid()
      modifies this, entries, repr
      ensures Valid() && entries == old(entries) && fresh(repr - old(repr))
      ensures Contents() == old(Contents())[Id(flags, key) := value]
      ensures r == Present(old(Contents()), Id(flags, key), Nothing)
    {
      var hash := ComputeHash(key);
      var entry, _, _ := Find(key, hash);
      r := if entry != null then Value(entry.value) else Nothing;
      Store(entry, key, hash, value);
    }

    method SetValue(entry: Entry<V>, ghost id: Ident, value: V)
      requires Valid() && id in index && index[id] == entry
      modifies entry`value
      ensures Valid() && Contents() == old(Contents())[id := value]
    {
      forall i | i in index ensures Id(flags, index[i].fullKey) == i {
        assert Placed(flags, chains, index, i);
      }
      entry.value := value;
      forall c | 0 <= c < |chains| ensures Linked(entries[c], chains[c]) {
        assert old(Linked(entries[c], chains[c]));
        forall k | 0 <= k < |chains[c]| ensures LinkAt(chains[c], k) {
          assert old(LinkAt(chains[c], k));
        }
      }
    }

    /** What PutMaybe shows of an entry it has or has not found. */
    method Looked(entry: Entry?<V>, ghost key: string) returns (r: Answer<V>)
      requires Valid()
      requires if entry == null then Id(flags, key) !in index
               else Id(flags, key) in index && entry == index[Id(flags, key)]
      ensures r == Present(Contents(), Id(flags, key), Error)
    {
      r := if entry != null then Value(entry.value) else Error;
    }

    /** The first half of CS_hashtablePutMaybe: `maybe` decides, and the answer is settled. */
    method Decide<C>(key: string, hash: int, value: V, context: C, maybe: (C, Answer<V>) -> (Decision, C))
        returns (entry: Entry?<V>, d: Decision, r: Answer<V>, context': C)
      requires Valid() && hash == Hash(key)
      ensures if entry == null then Id(flags, key) !in index
              else Id(flags, key) in index && entry == index[Id(flags, key)]
      ensures ghost var present := Present(Contents(), Id(flags, key), Error);
              (d, context') == maybe(context, present) && r == Answered(d, present, value)
    {
      var found, _, _ := Find(key, hash);
      entry := found;
      var present := Looked(entry, key);
      var answer := maybe(context, present);
      d, context' := answer.0, answer.1;
      r := AnswerOf(d, present, value);
    }

    /** CS_hashtablePutMaybe: `maybe` is told what is there, CS_HASHTABLE_ERROR if nothing is. */
    method PutMaybe<C>(key: string, value: V, context: C, maybe: (C, Answer<V>) -> (Decision, C))
        returns (r: Answer<V>, context': C)
      requires Valid()
      modifies this, entries, repr
      ensures Valid() && entries == old(entries) && fresh(repr - old(repr))
      ensures var present := Present(old(Contents()), Id(flags, key), Error);
              var decision := maybe(context, present).0;
              && context' == maybe(context, present).1
              && r == Answered(decision, present, value)
              && Contents() == if Puts(decision) then old(Contents())[Id(flags, key) := value] else old(Contents())
      ensures var decision := maybe(context, Present(old(Contents()), Id(flags, key), Error)).0;
              Puts(decision) <==> decision in {PutReturnNew, PutReturnOld, PutReturnNull}
    {
      var hash := ComputeHash(key);
      var entry, d;
      entry, d, r, context' := Decide(key, hash, value, context, maybe);
      if Puts(d) {
        Store(entry, key, hash, value);
      }
    }

    /** CS_hashtableGet. */
    method Get(key: string) returns (r: Answer<V>)
      requires Valid()
      ensures r == Present(Contents(), Id(flags, key), Error)
    {
      var hash := ComputeHash(key);
      var entry, _, _ := Find(key, hash);
      r := Looked(entry, key);
    }

    /** Taking node `k` of bucket `b` out of its chain. */
    method Unlink(entry: Entry<V>, previous: Entry?<V>, b: nat, ghost k: nat)
      requires Valid() && b < entries.Length && k < |chains[b]| && chains[b][k] == entry
      requires previous == if k == 0 then null else chains[b][k - 1]
      modifies entries, chains[b]
      ensures forall c :: 0 <= c < |chains| ==> Linked(entries[c], if c == b then Without(chains[c], k) else chains[c])
      ensures forall e :: e in repr ==> e.value == old(e.value)
    {
      ghost var chain := chains[b];
      assert Bucket(flags, chains, index, b);
      assert LinkAt(chain, k);
      if previous != null {
        previous.nextInBucket := entry.nextInBucket;
      } else {
        entries[b] := entry.nextInBucket;
      }
      entry.nextInBucket := null;
      forall c | 0 <= c < |chains| && c != b ensures Linked(entries[c], chains[c]) {
        assert old(Linked(entries[c], chains[c]));
        assert Bucket(flags, chains, index, c);
        forall j | 0 <= j < |chains[c]| ensures LinkAt(chains[c], j) {
          assert old(LinkAt(chains[c], j));
        }
      }
      forall j | 0 <= j < |chain| && j != k && j != k - 1 ensures LinkAt(chain, j) {
        assert old(LinkAt(chain, j));
      }
      LinkedCut(entries[b], chain, k);
    }

    method TakeOut(entry: Entry<V>, previous: Entry?<V>, hash: int, ghost k: nat)
      requires Valid() && hash == entry.keyHash
      requires ghost var chain := chains[Slot(hash, |chains|)];
               k < |chain| && chain[k] == entry && previous == if k == 0 then null else chain[k - 1]
      modifies this, entries, repr
      ensures Valid() && entries == old(entries) && repr == old(repr)
      ensures index == old(index) - {Id(flags, entry.fullKey)} && forall e :: e in repr ==> e.value == old(e.value)
    {
      var b := Slot(hash, entries.Length);
      ShapeDrop(flags, chains, index, repr, b, k);
      Unlink(entry, previous, b, k);
      chains := chains[b := Without(chains[b], k)];
      index := index - {Id(flags, entry.fullKey)};
    }

    method RemoveEntry(entry: Entry<V>, previous: Entry?<V>, hash: int, ghost k: nat)
      requires Valid() && hash == entry.keyHash
      requires ghost var chain := chains[Slot(hash, |chains|)];
               k < |chain| && chain[k] == entry && previous == if k == 0 then null else chain[k - 1]
      modifies this, entries, repr
      ensures Valid() && entries == old(entries) && repr == old(repr)
      ensures Contents() == old(Contents()) - {Id(flags, entry.fullKey)}
    {
      ghost var known, was, id := index, Values(index), Id(flags, entry.fullKey);
      TakeOut(entry, previous, hash, k);
      assert Values(known) == was;
      ValuesDrop(known, id);
    }

    /** CS_hashtableRemove. */
    method Remove(key: string) returns (r: Answer<V>)
      requires Valid()
      modifies this, entries, repr
      ensures Valid() && entries == old(entries) && repr == old(repr)
      ensures Contents() == old(Contents()) - {Id(flags, key)}
      ensures r == Present(old(Contents()), Id(flags, key), Error)
    {
      var hash := ComputeHash(key);
      var entry, previous, k := Find(key, hash);
      if entry != null {
        r := Value(entry.value);
        RemoveEntry(entry, previous, hash, k);
      } else {
        r := Error;
      }
    }

    /** One bucket of the loop of CS_hashtableResize. */
    method MoveBucket(newEntries: array<Entry?<V>>, ghost news: seq<seq<Entry<V>>>, i: nat)
        returns (ghost after: seq<seq<Entry<V>>>)
      requires |chains| == entries.Length && i < entries.Length && newEntries != entries && |news| == newEntries.Length
      requires Moving(flags, news, chains, index, repr, i, 0)
      requires forall b :: 0 <= b < |news| ==> Linked(newEntries[b], news[b])
      requires forall b :: i <= b < |chains| ==> Linked(entries[b], chains[b])
      modifies newEntries, repr`nextInBucket
      ensures |after| == newEntries.Length && Moving(flags, after, chains, index, repr, i + 1, 0)
      ensures forall b :: 0 <= b < |after| ==> Linked(newEntries[b], after[b])
      ensures forall b :: i + 1 <= b < |chains| ==> Linked(entries[b], chains[b])
    {
      ghost var chain, k: nat := chains[i], 0;
      var current := entries[i];
      after := news;
      while current != null
        invariant k <= |chain| && |after| == newEntries.Length && Moving(flags, after, chains, index, repr, i, k)
        invariant current == At(chain, k) && forall j :: k <= j < |chain| ==> LinkAt(chain, j)
        invariant forall b :: 0 <= b < |after| ==> Linked(newEntries[b], after[b])
        invariant forall b :: i + 1 <= b < |chains| ==> Linked(entries[b], chains[b])
        decreases |chain| - k
      {
        assert LinkAt(chain, k);
        var next := current.nextInBucket;
        var b := Slot(current.keyHash, newEntries.Length);
        MoveStep(flags, after, chains, index, repr, i, k);
        Elsewhere(flags, after, index, current, b);
        Apart(flags, chains, index, i, k);
        label Before:
        InsertIntoArray(newEntries, after, current, b);
        forall j | k + 1 <= j < |chain| ensures LinkAt(chain, j) {
          assert old@Before(LinkAt(chain, j));
        }
        after := after[b := [current] + after[b]];
        current := next;
        k := k + 1;
      }
      NextBucket(flags, after, chains, index, repr, i);
    }

    method MoveAll(newEntries: array<Entry?<V>>) returns (ghost news: seq<seq<Entry<V>>>)
      requires Valid() && newEntries.Length > 0 && newEntries != entries
      requires forall b :: 0 <= b < newEntries.Length ==> newEntries[b] == null
      modifies newEntries, repr`nextInBucket
      ensures |news| == newEntries.Length && Shape(flags, news, index, repr)
      ensures forall b :: 0 <= b < |news| ==> Linked(newEntries[b], news[b])
    {
      news := seq(newEntries.Length, _ => []);
      NoneMoved(flags, news, chains, index, repr);
      var i := 0;
      while i < entries.Length
        invariant i <= entries.Length && |news| == newEntries.Length
        invariant Moving(flags, news, chains, index, repr, i, 0)
        invariant forall b :: 0 <= b < |news| ==> Linked(newEntries[b], news[b])
        invariant forall b :: i <= b < |chains| ==> Linked(entries[b], chains[b])
      {
        news := MoveBucket(newEntries, news, i);
        i := i + 1;
      }
      AllMoved(flags, news, chains, index, repr);
    }

    /** CS_hashtableResize: another number of buckets, the same entries. */
    method Resize(newCapacity: nat)
      requires Valid() && newCapacity > 0
      modifies this, repr`nextInBucket
      ensures Valid() && fresh(entries) && entries.Length == newCapacity
      ensures index == old(index) && repr == old(repr) && Contents() == old(Contents())
    {
      var newEntries := new Entry?<V>[newCapacity](_ => null);
      ghost var news := MoveAll(newEntries);
      entries, chains := newEntries, news;
      ValuesKept(index);
    }

    /** CS_HASHTABLE_ITER, as CS_hashtableGetKeys uses it: it visits every entry once. */
    method GetKeys() returns (keys: seq<string>)
      requires Valid()
      ensures forall id :: id in Contents() <==> Listed(flags, keys, id)
      ensures forall j, l :: 0 <= j < l < |keys| ==> Id(flags, keys[j]) != Id(flags, keys[l])
    {
      keys := [];
      var i := 0;
      assert Listing(flags, keys, chains, index, 0, 0) by {
        forall id | id in index ensures Todo(chains, 0, 0, index[id]) {
          assert Placed(flags, chains, index, id) && chains[0][0..] == chains[0];
        }
      }
      while i < entries.Length
        invariant i <= entries.Length && Listing(flags, keys, chains, index, i, 0)
      {
        keys := BucketKeys(keys, i);
        i := i + 1;
      }
      assert forall id :: id in index ==> !Todo(chains, i, 0, index[id]);
    }

    method BucketKeys(before: seq<string>, i: nat) returns (keys: seq<string>)
      requires Valid() && i < entries.Length && Listing(flags, before, chains, index, i, 0)
      ensures Listing(flags, keys, chains, index, i + 1, 0)
    {
      keys := before;
      ghost var chain, k: nat := chains[i], 0;
      var current := entries[i];
      while current != null
        invariant k <= |chain| && current == At(chain, k) && Listing(flags, keys, chains, index, i, k)
        decreases |chain| - k
      {
        ListStep(flags, keys, chains, index, repr, i, k);
        assert LinkAt(chain, k);
        keys := keys + [current.fullKey];
        current := current.nextInBucket;
        k := k + 1;
      }
      ListNext(flags, keys, chains, index, repr, i);
    }
  }
}
