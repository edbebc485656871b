/** The record storages behind the Kademlia record store: two stateless
    stubs, an in-memory map, a Parity DB column, and a decorator that bounds
    the number of records it keeps with a heap of keys. */
module RecordStorage {
  import opened Bytes
  import opened Wrappers
  import opened Records

  /** `NoRecordStorage`: accepts every put and keeps nothing. */
  datatype NoRecordStorage = NoRecordStorage {
    function Get(key: Key): (r: Option<Record>) {
      None
    }

    function Put(record: Record): (res: StoreResult) {
      Ok
    }

    /** `remove` has nothing to remove: the storage is unchanged. */
    function Remove(key: Key): (s: NoRecordStorage) {
      this
    }

    function Records(): (rs: seq<Record>) {
      []
    }
  }

  /** Whatever is put into or removed from a `NoRecordStorage`, nothing can
      be read back and no record is listed. */
  lemma NoRecordStorageKeepsNothing(s: NoRecordStorage, record: Record, key: Key, other: Key)
    ensures s.Put(record) == Ok
    ensures s.Remove(key).Get(other) == None && s.Get(record.key) == None
    ensures s.Remove(key).Records() == []
  {
  }

  /** `GetOnlyRecordStorage`: answers gets from an external value getter
      keyed by multihash and refuses to store anything. */
  datatype GetOnlyRecordStorage = GetOnlyRecordStorage(valueGetter: Multihash -> Option<seq<byte>>) {
    /** A key that is not a multihash reads as absent; otherwise the
        getter's value comes back under the same key, with no publisher and
        no expiry. */
    function Get(c: Codec, key: Key): (r: Option<Record>)
      ensures r.None? <==> c.parseMultihash(key).None? || valueGetter(c.parseMultihash(key).value).None?
      ensures r.Some? ==>
                && r.value.key == key
                && r.value.value == valueGetter(c.parseMultihash(key).value).value
                && r.value.publisher == None && r.value.expires == None
    {
      match c.parseMultihash(key)
      case None => None
      case Some(multihash) =>
        match valueGetter(multihash)
        case None => None
        case Some(value) => Some(Record(key, value, None, None))
    }

    function Put(record: Record): (r: StoreResult)
      ensures r == Err(MaxRecords)
    {
      Err(MaxRecords)
    }

    function Remove(key: Key): (s: GetOnlyRecordStorage) {
      this
    }

    function Records(): (rs: seq<Record>) {
      []
    }
  }

  /** A get-only storage refuses every put, lists nothing and is not changed
      by removals. */
  lemma GetOnlyStoresNothing(s: GetOnlyRecordStorage, c: Codec, record: Record, key: Key, other: Key)
    ensures s.Put(record).Err? && s.Records() == []
    ensures s.Remove(key).Get(c, other) == s.Get(c, other)
  {
  }

  /** `MemoryRecordStorage`: a map from key to record. */
  class MemoryRecordStorage {
    var records: map<Key, Record>

    /** Every record is filed under its own key. */
    ghost predicate Valid()
      reads this
    {
      forall k :: k in records ==> records[k].key == k
    }

    constructor ()
      ensures Valid() && records == map[]
    {
      records := map[];
    }

    function Get(key: Key): (r: Option<Record>)
      reads this
      requires Valid()
      ensures r.Some? <==> key in records
      ensures r.Some? ==> r.value.key == key && r.value in Records()
    {
      if key in records then Some(records[key]) else None
    }

    /** After `put(r)`, `get(r.key)` is `r`, whatever was there before,
        and every other key reads as before. */
    method Put(record: Record) returns (res: StoreResult)
      requires Valid()
      modifies this
      ensures Valid()
      ensures res == Ok
      ensures records == old(records)[record.key := record]
      ensures Get(record.key) == Some(record)
      ensures forall k :: k != record.key ==> Get(k) == old(Get(k))
    {
      records := records[record.key := record];
      res := Ok;
    }

    /** After `remove(k)`, `get(k)` is None and every other key reads as before. */
    method Remove(key: Key)
      requires Valid()
      modifies this
      ensures Valid()
      ensures records == old(records) - {key}
      ensures Get(key) == None
      ensures forall k :: k != key ==> Get(k) == old(Get(k))
    {
      records := records - {key};
    }

    /** The stored records, one per key. */
    function Records(): (rs: set<Record>)
      reads this
    {
      records.Values
    }
  }

  /** `ParityDbRecordStorage`: one column of a Parity DB, from key to the
      SCALE encoding of a `ParityDbRecord`. `commitOk` says whether the DB
      commit succeeds; a failed commit leaves the column as it was. */
  class ParityDbRecordStorage {
    var db: map<Key, seq<byte>>

    constructor ()
      ensures db == map[]
    {
      db := map[];
    }

    /** A key reads as absent when nothing is stored under it or the stored
        bytes do not decode; a decoded record has no expiry. */
    function Get(c: Codec, key: Key): (r: Option<Record>)
      reads this
      ensures r.Some? <==> key in db && c.decodeRecord(db[key]).Some?
      ensures r.Some? ==> r.value.expires == None && r.value.key == c.decodeRecord(db[key]).value.key
    {
      if key !in db then None
      else
        match c.decodeRecord(db[key])
        case None => None
        case Some(rec) => Some(FromParityDb(rec))
    }

    /** What `put` stores: the new record merged with the one already
        stored under its key. */
    function Stored(c: Codec, record: Record): (r: Record)
      reads this
      requires var previous := Get(c, record.key); previous.Some? ==> c.parseMultihash(previous.value.key).Some?
      ensures r.key == record.key
    {
      Merge(c, record, Get(c, record.key))
    }

    /** `put`: stores the merge of the new record with the stored one and
        reports Ok even when the commit fails. With a lossless record codec,
        the record then reads back as the merge, without its expiry. */
    method Put(c: Codec, record: Record, commitOk: bool) returns (res: StoreResult)
      requires var previous := Get(c, record.key); previous.Some? ==> c.parseMultihash(previous.value.key).Some?
      modifies this
      ensures res == Ok
      ensures !commitOk ==> db == old(db)
      ensures commitOk ==> db == old(db)[record.key := c.encodeRecord(ToParityDb(old(Stored(c, record))))]
      ensures commitOk && RecordCodecRoundTrips(c) ==>
                Get(c, record.key) == Some(old(Stored(c, record)).(expires := None))
      ensures forall k :: k != record.key ==> Get(c, k) == old(Get(c, k))
    {
      var actual := Merge(c, record, Get(c, record.key));
      if commitOk {
        db := db[record.key := c.encodeRecord(ToParityDb(actual))];
        RecordRoundTrip(actual);
      }
      res := Ok;
    }

    /** `remove`: deletes the key when the commit succeeds. */
    method Remove(c: Codec, key: Key, commitOk: bool)
      modifies this
      ensures !commitOk ==> db == old(db)
      ensures commitOk ==> db == old(db) - {key} && Get(c, key) == None
      ensures forall k :: k != key ==> Get(c, k) == old(Get(c, k))
    {
      if commitOk {
        db := db - {key};
      }
    }
  }

  /** Some element of a non-empty finite set has the largest distance. */
  lemma {:induction false} FarthestExists(keys: set<Key>, distance: Key -> nat)
    requires keys != {}
    ensures exists v :: v in keys && forall k :: k in keys ==> distance(k) <= distance(v)
    decreases |keys|
  {
    var x :| x in keys;
    if keys != {x} {
      FarthestExists(keys - {x}, distance);
      var v :| v in keys - {x} && forall k :: k in keys - {x} ==> distance(k) <= distance(v);
      if distance(x) > distance(v) {
        assert forall k :: k in keys ==> distance(k) <= distance(x);
      } else {
        assert forall k :: k in keys ==> distance(k) <= distance(v);
      }
    }
  }

  /** The key heap of the size-limited storage (`RecordBinaryHeap`): at most
      `limit` distinct keys; inserting a new key into a full heap evicts a
      key of largest `distance` (the distance to the local peer id), which
      may be the new key itself. */
  class RecordBinaryHeap {
    var keys: set<Key>
    const limit: nat
    const distance: Key -> nat

    ghost predicate Valid()
      reads this
    {
      limit > 0 && |keys| <= limit
    }

    constructor (limit: nat, distance: Key -> nat)
      requires limit > 0
      ensures Valid() && keys == {} && this.limit == limit && this.distance == distance
    {
      this.limit := limit;
      this.distance := distance;
      keys := {};
    }

    function Size(): (n: nat)
      reads this
      requires Valid()
      ensures n <= limit
    {
      |keys|
    }

    method Insert(key: Key) returns (evicted: Option<Key>)
      requires Valid()
      modifies this
      ensures Valid()
      ensures key in old(keys) || |old(keys)| < limit ==> evicted == None && keys == old(keys) + {key}
      ensures key !in old(keys) && |old(keys)| == limit ==>
                && evicted.Some?
                && evicted.value in old(keys) + {key}
                && keys == old(keys) + {key} - {evicted.value}
                && (forall k :: k in old(keys) + {key} ==> distance(k) <= distance(evicted.value))
    {
      if key in keys || |keys| < limit {
        keys := keys + {key};
        return None;
      }
      var candidates := keys + {key};
      FarthestExists(candidates, distance);
      var victim :| victim in candidates && forall k :: k in candidates ==> distance(k) <= distance(victim);
      keys := candidates - {victim};
      evicted := Some(victim);
    }

    method Remove(key: Key)
      requires Valid()
      modifies this
      ensures Valid()
      ensures keys == old(keys) - {key}
    {
      keys := keys - {key};
    }
  }

  function Min(a: nat, b: nat): (m: nat) {
    if a <= b then a else b
  }

  /** One key of the seeding loop: a key not seen before grows the heap
      until it is full, after which the heap stays full. */
  lemma SeedStep(before: set<Key>, after: set<Key>, seen: set<Key>, key: Key, evicted: Option<Key>, limit: nat)
    requires before <= seen && key !in seen && limit > 0
    requires |before| == Min(|seen|, limit) && (|seen| <= limit ==> before == seen)
    requires |before| < limit ==> after == before + {key}
    requires |before| == limit ==> evicted.Some? && evicted.value in before + {key} && after == before + {key} - {evicted.value}
    ensures after <= seen + {key}
    ensures |after| == Min(|seen + {key}|, limit)
    ensures |seen + {key}| <= limit ==> after == seen + {key}
  {
    assert key !in before;
    assert |seen + {key}| == |seen| + 1;
    if |before| == limit {
      assert |before + {key}| == limit + 1;
    }
  }

  /** The seeding loop of `new`: inserts every key into an empty heap,
      ignoring what the heap evicts. */
  method SeedHeap(h: RecordBinaryHeap, keys: set<Key>)
    requires h.Valid() && h.keys == {}
    modifies h
    ensures h.Valid()
    ensures h.keys <= keys
    ensures |h.keys| == Min(|keys|, h.limit)
    ensures |keys| <= h.limit ==> h.keys == keys
  {
    var pending := keys;
    ghost var seen: set<Key> := {};
    while pending != {}
      invariant h.Valid()
      invariant pending + seen == keys && pending !! seen
      invariant h.keys <= seen
      invariant |h.keys| == Min(|seen|, h.limit)
      invariant |seen| <= h.limit ==> h.keys == seen
      decreases pending
    {
      var key :| key in pending;
      ghost var before := h.keys;
      var evicted := h.Insert(key);
      SeedStep(before, h.keys, seen, key, evicted, h.limit);
      pending := pending - {key};
      seen := seen + {key};
    }
  }

  /** `LimitedSizeRecordStorageWrapper` over a `MemoryRecordStorage`: every
      key in the heap has a record in the inner storage, and the heap holds
      at most `limit` keys. */
  class LimitedSizeRecordStorageWrapper {
    const inner: MemoryRecordStorage
    const heap: RecordBinaryHeap

    ghost predicate Valid()
      reads inner, heap
    {
      inner.Valid() && heap.Valid() && heap.keys <= inner.records.Keys
    }

    /** `new`: seeds the heap with the key of every record already stored.
        Keys the heap evicts while seeding stay in the inner storage. */
    constructor (recordStore: MemoryRecordStorage, maxItemsLimit: nat, distance: Key -> nat)
      requires recordStore.Valid() && maxItemsLimit > 0
      ensures Valid()
      ensures inner == recordStore && fresh(heap)
      ensures inner.records == old(recordStore.records)
      ensures heap.limit == maxItemsLimit && heap.distance == distance
      ensures |heap.keys| == Min(|inner.records.Keys|, maxItemsLimit)
      ensures |inner.records.Keys| <= maxItemsLimit ==> heap.keys == inner.records.Keys
    {
      var h := new RecordBinaryHeap(maxItemsLimit, distance);
      SeedHeap(h, recordStore.records.Keys);
      inner := recordStore;
      heap := h;
    }

    function Get(key: Key): (r: Option<Record>)
      reads inner, heap
      requires Valid()
      ensures r == inner.Get(key)
    {
      inner.Get(key)
    }

    /** `put`: the record goes into the inner storage and its key into the
        heap; the key the heap evicts, if any (`evicted`), is removed from
        the inner storage. A storage that holds exactly the heap's keys
        keeps doing so, so it never holds more than `limit` records. */
    method Put(record: Record) returns (res: StoreResult, ghost evicted: Option<Key>)
      requires Valid()
      modifies inner, heap
      ensures Valid()
      ensures res == Ok
      ensures record.key in old(heap.keys) || |old(heap.keys)| < heap.limit ==>
                && evicted == None
                && inner.records == old(inner.records)[record.key := record]
                && heap.keys == old(heap.keys) + {record.key}
      ensures record.key !in old(heap.keys) && |old(heap.keys)| == heap.limit ==>
                && evicted.Some?
                && evicted.value in old(heap.keys) + {record.key}
                && (forall k :: k in old(heap.keys) + {record.key} ==> heap.distance(k) <= heap.distance(evicted.value))
                && heap.keys == old(heap.keys) + {record.key} - {evicted.value}
                && inner.records == old(inner.records)[record.key := record] - {evicted.value}
      ensures old(inner.records.Keys) == old(heap.keys) ==> inner.records.Keys == heap.keys
    {
      res := inner.Put(record);
      var evictedKey := heap.Insert(record.key);
      evicted := evictedKey;
      if evictedKey.Some? {
        inner.Remove(evictedKey.value);
      }
    }

    /** `remove`: the key leaves both the inner storage and the heap. */
    method Remove(key: Key)
      requires Valid()
      modifies inner, heap
      ensures Valid()
      ensures inner.records == old(inner.records) - {key}
      ensures heap.keys == old(heap.keys) - {key}
    {
      inner.Remove(key);
      heap.Remove(key);
    }

    function Records(): (rs: set<Record>)
      reads inner
    {
      inner.Records()
    }
  }
}
