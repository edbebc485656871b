/** `MemoryProviderStorage`: the provider records of each key, in the order
    they were added. */
module ProviderStorage {
  import opened Wrappers
  import opened Records

  /** The records of `s` whose provider is not `provider`, in their order
      (`Vec::retain`). */
  function Retain(s: seq<ProviderRecord>, provider: PeerId): (r: seq<ProviderRecord>)
    ensures |r| <= |s|
  {
    if s == [] then []
    else (if s[0].provider != provider then [s[0]] else []) + Retain(s[1..], provider)
  }

  /** Retain removes exactly the records of `provider`, each other record
      staying as often as it was there. */
  lemma {:induction false} RetainCounts(s: seq<ProviderRecord>, provider: PeerId)
    ensures forall x :: multiset(Retain(s, provider))[x] == if x.provider == provider then 0 else multiset(s)[x]
  {
    if s != [] {
      RetainCounts(s[1..], provider);
      assert s == [s[0]] + s[1..];
      assert multiset(s) == multiset{s[0]} + multiset(s[1..]);
    }
  }

  /** Retain works piecewise, so the kept records keep their relative order. */
  lemma {:induction false} RetainConcat(a: seq<ProviderRecord>, b: seq<ProviderRecord>, provider: PeerId)
    ensures Retain(a + b, provider) == Retain(a, provider) + Retain(b, provider)
  {
    if a != [] {
      RetainConcat(a[1..], b, provider);
      assert (a + b)[1..] == a[1..] + b;
    } else {
      assert a + b == b;
    }
  }

  /** A list without a record of `provider` is left as it is. */
  lemma {:induction false} RetainNothingToRemove(s: seq<ProviderRecord>, provider: PeerId)
    requires forall i :: 0 <= i < |s| ==> s[i].provider != provider
    ensures Retain(s, provider) == s
  {
    if s != [] {
      RetainNothingToRemove(s[1..], provider);
      assert s == [s[0]] + s[1..];
    }
  }

  /** The lists of the keys of `order`, concatenated in that order. */
  function Gather(m: map<Key, seq<ProviderRecord>>, order: seq<Key>): (all: seq<ProviderRecord>)
    requires forall k :: k in order ==> k in m
  {
    if order == [] then []
    else Gather(m, order[..|order| - 1]) + m[order[|order| - 1]]
  }

  lemma GatherStep(m: map<Key, seq<ProviderRecord>>, order: seq<Key>, k: Key)
    requires forall j :: j in order ==> j in m
    requires k in m
    ensures Gather(m, order + [k]) == Gather(m, order) + m[k]
  {
    assert (order + [k])[..|order|] == order;
  }

  /** What is gathered is exactly the records listed under the keys of `order`. */
  lemma {:induction false} GatherMembers(m: map<Key, seq<ProviderRecord>>, order: seq<Key>)
    requires forall k :: k in order ==> k in m
    ensures forall r :: r in Gather(m, order) <==> exists k :: k in order && r in m[k]
  {
    if order != [] {
      var init := order[..|order| - 1];
      var last := order[|order| - 1];
      assert forall k :: k in order <==> k in init || k == last;
      GatherMembers(m, init);
    }
  }

  class MemoryProviderStorage {
    var providers: map<Key, seq<ProviderRecord>>

    constructor ()
      ensures providers == map[]
    {
      providers := map[];
    }

    /** `providers(key)`: the list stored under the key, or an empty list. */
    function Providers(key: Key): (records: seq<ProviderRecord>)
      reads this
    {
      if key in providers then providers[key] else []
    }

    /** `add_provider`: appends the record to its key's list, without
        checking for duplicates, and always succeeds. */
    method AddProvider(record: ProviderRecord) returns (res: StoreResult)
      modifies this
      ensures res == Ok
      ensures providers == old(providers)[record.key := old(Providers(record.key)) + [record]]
      ensures Providers(record.key) == old(Providers(record.key)) + [record]
      ensures forall k :: k != record.key ==> Providers(k) == old(Providers(k))
    {
      var records := if record.key in providers then providers[record.key] else [];
      providers := providers[record.key := records + [record]];
      res := Ok;
    }

    /** `provided`: every stored list, concatenated in the map's iteration
        order (`order`, each key once, otherwise unspecified). */
    method Provided() returns (all: seq<ProviderRecord>, ghost order: seq<Key>)
      ensures |order| == |providers| && forall k :: k in order <==> k in providers
      ensures all == Gather(providers, order)
      ensures forall r :: r in all <==> exists k :: k in providers && r in providers[k]
    {
      all := [];
      order := [];
      var pending := providers.Keys;
      while pending != {}
        invariant pending <= providers.Keys
        invariant |order| + |pending| == |providers|
        invariant forall k :: k in order <==> k in providers && k !in pending
        invariant all == Gather(providers, order)
        decreases pending
      {
        var k :| k in pending;
        GatherStep(providers, order, k);
        all := all + providers[k];
        order := order + [k];
        pending := pending - {k};
      }
      GatherMembers(providers, order);
    }

    /** `remove_provider`: drops the records of `provider` under `key`,
        keeping the others in order; other keys, and an absent key, are
        left alone. */
    method RemoveProvider(key: Key, provider: PeerId)
      modifies this
      ensures key in old(providers) ==> providers == old(providers)[key := Retain(old(providers)[key], provider)]
      ensures key !in old(providers) ==> providers == old(providers)
    {
      if key in providers {
        providers := providers[key := Retain(providers[key], provider)];
      }
    }
  }
}
