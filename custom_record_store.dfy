/** `CustomRecordStore`: the Kademlia record store, made of a record
    storage and a provider storage. Every record operation goes to the
    record storage and every provider operation to the provider storage; the
    other component is never touched. */
module CustomStore {
  import opened Wrappers
  import opened Records
  import opened RecordStorage
  import opened ProviderStorage

  class CustomRecordStore {
    const recordStorage: MemoryRecordStorage
    const providerStorage: MemoryProviderStorage

    ghost predicate Valid()
      reads recordStorage
    {
      recordStorage.Valid()
    }

    constructor (recordStorage: MemoryRecordStorage, providerStorage: MemoryProviderStorage)
      requires recordStorage.Valid()
      ensures Valid()
      ensures this.recordStorage == recordStorage && this.providerStorage == providerStorage
    {
      this.recordStorage := recordStorage;
      this.providerStorage := providerStorage;
    }

    function Get(key: Key): (r: Option<Record>)
      reads recordStorage
      requires Valid()
      ensures r == recordStorage.Get(key)
    {
      recordStorage.Get(key)
    }

    method Put(record: Record) returns (res: StoreResult)
      requires Valid()
      modifies recordStorage
      ensures Valid()
      ensures res == Ok
      ensures recordStorage.records == old(recordStorage.records)[record.key := record]
      ensures Get(record.key) == Some(record)
      ensures unchanged(providerStorage)
    {
      res := recordStorage.Put(record);
    }

    method Remove(key: Key)
      requires Valid()
      modifies recordStorage
      ensures Valid()
      ensures recordStorage.records == old(recordStorage.records) - {key}
      ensures Get(key) == None
      ensures unchanged(providerStorage)
    {
      recordStorage.Remove(key);
    }

    function Records(): (r: set<Record>)
      reads recordStorage
      ensures r == recordStorage.Records()
    {
      recordStorage.Records()
    }

    method AddProvider(record: ProviderRecord) returns (res: StoreResult)
      modifies providerStorage
      ensures res == Ok
      ensures providerStorage.Providers(record.key) == old(providerStorage.Providers(record.key)) + [record]
      ensures forall k :: k != record.key ==> providerStorage.Providers(k) == old(providerStorage.Providers(k))
      ensures unchanged(recordStorage)
    {
      res := providerStorage.AddProvider(record);
    }

    function Providers(key: Key): (r: seq<ProviderRecord>)
      reads providerStorage
      ensures r == providerStorage.Providers(key)
    {
      providerStorage.Providers(key)
    }

    method Provided() returns (all: seq<ProviderRecord>, ghost order: seq<Key>)
      ensures |order| == |providerStorage.providers| && forall k :: k in order <==> k in providerStorage.providers
      ensures all == Gather(providerStorage.providers, order)
      ensures forall r :: r in all <==> exists k :: k in providerStorage.providers && r in providerStorage.providers[k]
    {
      all, order := providerStorage.Provided();
    }

    method RemoveProvider(key: Key, provider: PeerId)
      modifies providerStorage
      ensures key in old(providerStorage.providers) ==>
                providerStorage.providers == old(providerStorage.providers)[key := Retain(old(providerStorage.providers)[key], provider)]
      ensures key !in old(providerStorage.providers) ==> providerStorage.providers == old(providerStorage.providers)
      ensures unchanged(recordStorage)
    {
      providerStorage.RemoveProvider(key, provider);
    }
  }
}
