/** Kademlia records as the networking layer stores them, the flat form
    they take in the Parity DB, and the merge applied to records whose key
    is a Sector multihash. */
module Records {
  import opened Bytes
  import opened Wrappers

  type Key = seq<byte>

  /** A peer id, held as its byte representation (`PeerId::to_bytes`). */
  datatype PeerId = PeerId(bytes: seq<byte>)

  /** `libp2p::kad::Record`; `expires` is an instant of a local clock. */
  datatype Record = Record(key: Key, value: seq<byte>, publisher: Option<PeerId>, expires: Option<nat>)

  /** `libp2p::kad::ProviderRecord`. */
  datatype ProviderRecord = ProviderRecord(key: Key, provider: PeerId, expires: Option<nat>, addresses: seq<seq<byte>>)

  /** The record as persisted: no expiry, the publisher as raw bytes. */
  datatype ParityDbRecord = ParityDbRecord(key: seq<byte>, value: seq<byte>, publisher: Option<seq<byte>>)

  datatype StoreError = MaxRecords
  datatype StoreResult = Ok | Err(error: StoreError)

  datatype Multihash = Multihash(code: nat, digest: seq<byte>)

  /** The codecs the storages rely on, as given functions: multihash
      parsing (`Multihash::from_bytes`), the code of Sector multihashes,
      and the SCALE encodings of a byte-string set and of a Parity DB record. */
  datatype Codec = Codec(
    parseMultihash: Key -> Option<Multihash>,
    sectorCode: nat,
    decodeSet: seq<byte> -> Option<set<seq<byte>>>,
    encodeSet: set<seq<byte>> -> seq<byte>,
    decodeRecord: seq<byte> -> Option<ParityDbRecord>,
    encodeRecord: ParityDbRecord -> seq<byte>)

  /** Decoding an encoded set gives the set back (what SCALE guarantees). */
  ghost predicate SetCodecRoundTrips(c: Codec) {
    forall s :: c.decodeSet(c.encodeSet(s)) == Some(s)
  }

  /** Decoding an encoded record gives the record back. */
  ghost predicate RecordCodecRoundTrips(c: Codec) {
    forall r :: c.decodeRecord(c.encodeRecord(r)) == Some(r)
  }

  /** `From<Record> for ParityDbRecord`. */
  function ToParityDb(rec: Record): (r: ParityDbRecord)
    ensures r.key == rec.key && r.value == rec.value
    ensures r.publisher.Some? <==> rec.publisher.Some?
  {
    ParityDbRecord(rec.key, rec.value, if rec.publisher.Some? then Some(rec.publisher.value.bytes) else None)
  }

  /** `From<ParityDbRecord> for Record`: the record comes back without an expiry. */
  function FromParityDb(rec: ParityDbRecord): (r: Record)
    ensures r.key == rec.key && r.value == rec.value && r.expires == None
    ensures r.publisher.Some? <==> rec.publisher.Some?
  {
    Record(rec.key, rec.value, if rec.publisher.Some? then Some(PeerId(rec.publisher.value)) else None, None)
  }

  /** Persisting and loading a record keeps everything but its expiry. */
  lemma RecordRoundTrip(rec: Record)
    ensures FromParityDb(ToParityDb(rec)) == rec.(expires := None)
  {
  }

  /** Loading and persisting a stored record gives the stored record back. */
  lemma ParityDbRoundTrip(rec: ParityDbRecord)
    ensures ToParityDb(FromParityDb(rec)) == rec
  {
  }

  /** The three conditions under which the merge combines values: an old
      record exists, its key is a Sector multihash, and both values are sets. */
  predicate MergeApplies(c: Codec, newRecord: Record, oldRecord: Option<Record>)
    requires oldRecord.Some? ==> c.parseMultihash(oldRecord.value.key).Some?
  {
    && oldRecord.Some?
    && c.parseMultihash(oldRecord.value.key).value.code == c.sectorCode
    && c.decodeSet(oldRecord.value.value).Some?
    && c.decodeSet(newRecord.value).Some?
  }

  /** `merge_records_in_case_of_sector_multihash`. The old record's key must
      parse as a multihash (the source panics otherwise). */
  function Merge(c: Codec, newRecord: Record, oldRecord: Option<Record>): (r: Record)
    requires oldRecord.Some? ==> c.parseMultihash(oldRecord.value.key).Some?
    ensures r == newRecord.(value := r.value)
    ensures !MergeApplies(c, newRecord, oldRecord) ==> r == newRecord
    ensures MergeApplies(c, newRecord, oldRecord) ==>
              r.value == c.encodeSet(c.decodeSet(oldRecord.value.value).value + c.decodeSet(newRecord.value).value)
  {
    if oldRecord.None? then newRecord
    else
      var multihash := c.parseMultihash(oldRecord.value.key).value;
      if multihash.code != c.sectorCode then newRecord
      else
        match c.decodeSet(oldRecord.value.value)
        case None => newRecord
        case Some(set1) =>
          match c.decodeSet(newRecord.value)
          case None => newRecord
          case Some(set2) => newRecord.(value := c.encodeSet(set1 + set2))
  }

  /** A merged Sector value decodes to a set holding every element of both
      the old and the new value, and nothing else. */
  lemma MergeKeepsBoth(c: Codec, newRecord: Record, oldRecord: Option<Record>)
    requires SetCodecRoundTrips(c)
    requires oldRecord.Some? ==> c.parseMultihash(oldRecord.value.key).Some?
    requires MergeApplies(c, newRecord, oldRecord)
    ensures var merged := c.decodeSet(Merge(c, newRecord, oldRecord).value);
            && merged.Some?
            && c.decodeSet(oldRecord.value.value).value <= merged.value
            && c.decodeSet(newRecord.value).value <= merged.value
            && forall x :: x in merged.value ==>
                 x in c.decodeSet(oldRecord.value.value).value || x in c.decodeSet(newRecord.value).value
  {
    var s := c.decodeSet(oldRecord.value.value).value + c.decodeSet(newRecord.value).value;
    assert c.decodeSet(c.encodeSet(s)) == Some(s);
  }

  /** Putting the same Sector record again over the merged one changes
      nothing: the merge is idempotent. */
  lemma MergeIdempotent(c: Codec, newRecord: Record, oldRecord: Option<Record>)
    requires SetCodecRoundTrips(c)
    requires oldRecord.Some? ==> c.parseMultihash(oldRecord.value.key).Some?
    requires MergeApplies(c, newRecord, oldRecord)
    requires c.parseMultihash(newRecord.key) == c.parseMultihash(oldRecord.value.key)
    ensures var once := Merge(c, newRecord, oldRecord);
            Merge(c, newRecord, Some(once)) == once
  {
    var s := c.decodeSet(oldRecord.value.value).value + c.decodeSet(newRecord.value).value;
    assert c.decodeSet(c.encodeSet(s)) == Some(s);
    assert s + c.decodeSet(newRecord.value).value == s;
  }
}
