/** The tags database of one commitment: a key-value store ordered by key,
    mapping each 8-byte tag (read as a big-endian `u64`) to the 8
    little-endian bytes of the index of the piece that produced it. The
    store is modelled by its content in iteration order. */
module TagsDb {
  import opened Bytes
  import opened Wrappers

  /** One stored pair. The database holds the 8 bytes `ToLeBytes(index)`;
      since every 8-byte value is the encoding of exactly one `u64`
      (`Bytes.LeBytesRoundTrip`), the entry keeps the encoded number. */
  datatype TagEntry = TagEntry(tag: u64, index: u64) {
    function StoredValue(): (b: seq<byte>)
      ensures |b| == 8
    {
      ToLeBytes(index)
    }
  }

  /** A tag found by a range search, with its decoded piece index. */
  datatype Solution = Solution(tag: u64, pieceIndex: u64)

  /** Keys are strictly increasing: the order in which the database iterates. */
  ghost predicate Sorted(s: seq<TagEntry>) {
    forall i, j :: 0 <= i < j < |s| ==> s[i].tag < s[j].tag
  }

  /** The index stored under `k`, if any (`get`). */
  function Lookup(s: seq<TagEntry>, k: u64): (r: Option<u64>)
  {
    if s == [] then None
    else if s[0].tag == k then Some(s[0].index)
    else Lookup(s[1..], k)
  }

  /** `put(k, v)`: the database after storing `v` under `k`, replacing any
      earlier value of `k`. */
  function Insert(s: seq<TagEntry>, k: u64, v: u64): (r: seq<TagEntry>)
  {
    if s == [] then [TagEntry(k, v)]
    else if k < s[0].tag then [TagEntry(k, v)] + s
    else if k == s[0].tag then [TagEntry(k, v)] + s[1..]
    else [s[0]] + Insert(s[1..], k, v)
  }

  /** `put` only adds the new pair. */
  lemma {:induction false} InsertMembers(s: seq<TagEntry>, k: u64, v: u64)
    ensures forall e :: e in Insert(s, k, v) ==> e == TagEntry(k, v) || e in s
  {
    if s != [] && k > s[0].tag {
      InsertMembers(s[1..], k, v);
    }
  }

  /** `put` keeps the database in key order. */
  lemma {:induction false} InsertSorted(s: seq<TagEntry>, k: u64, v: u64)
    requires Sorted(s)
    ensures Sorted(Insert(s, k, v))
  {
    if s == [] {
    } else if k < s[0].tag {
      SortedCons(TagEntry(k, v), s);
    } else if k == s[0].tag {
      SortedCons(TagEntry(k, v), s[1..]);
    } else {
      var rest := Insert(s[1..], k, v);
      InsertSorted(s[1..], k, v);
      InsertMembers(s[1..], k, v);
      forall i | 0 <= i < |rest| ensures s[0].tag < rest[i].tag {
        var e := rest[i];
        assert e in rest;
        if e != TagEntry(k, v) {
          assert e in s[1..];
          var j :| 0 <= j < |s[1..]| && s[1..][j] == e;
          assert s[j + 1] == e;
        }
      }
      SortedCons(s[0], rest);
    }
  }

  /** An entry below every tag of a sorted database can go in front of it. */
  lemma SortedCons(x: TagEntry, r: seq<TagEntry>)
    requires Sorted(r) && forall i :: 0 <= i < |r| ==> x.tag < r[i].tag
    ensures Sorted([x] + r)
  {
    forall i, j | 0 <= i < j < |[x] + r| ensures ([x] + r)[i].tag < ([x] + r)[j].tag {
      if i > 0 {
        assert ([x] + r)[i] == r[i - 1];
      }
      assert ([x] + r)[j] == r[j - 1];
    }
  }

  lemma {:induction false} LookupInsert(s: seq<TagEntry>, k: u64, v: u64, k': u64)
    requires Sorted(s)
    ensures Lookup(Insert(s, k, v), k') == if k' == k then Some(v) else Lookup(s, k')
  {
    if s != [] && k > s[0].tag {
      LookupInsert(s[1..], k, v, k');
    } else if s != [] && k == s[0].tag && k' != k {
      assert Lookup(s, k') == Lookup(s[1..], k');
    }
  }

  /** The last position at which `k` occurs in `tags`. */
  function LastIndexOf(tags: seq<u64>, k: u64): (i: nat)
    requires k in tags
    ensures i < |tags| && tags[i] == k
    ensures forall j :: i < j < |tags| ==> tags[j] != k
  {
    if tags[|tags| - 1] == k then |tags| - 1 else LastIndexOf(tags[..|tags| - 1], k)
  }

  /** The database after `WriteTags`: `tags[i]` is put with index
      `first + i`, in order. The indices must be representable: the
      source's `first_index..` counter may not overflow. */
  function ApplyTags(s: seq<TagEntry>, first: u64, tags: seq<u64>): (r: seq<TagEntry>)
    requires first + |tags| <= U64_MODULUS
  {
    if tags == [] then s
    else
      var n := |tags| - 1;
      Insert(ApplyTags(s, first, tags[..n]), tags[n], first + n)
  }

  lemma {:induction false} ApplyTagsSorted(s: seq<TagEntry>, first: u64, tags: seq<u64>)
    requires Sorted(s) && first + |tags| <= U64_MODULUS
    ensures Sorted(ApplyTags(s, first, tags))
  {
    if tags != [] {
      var n := |tags| - 1;
      ApplyTagsSorted(s, first, tags[..n]);
      InsertSorted(ApplyTags(s, first, tags[..n]), tags[n], first + n);
    }
  }

  /** After `WriteTags`, a written tag maps to the index of its LAST
      occurrence (a later duplicate overwrites an earlier one) and every
      other tag keeps its old value. */
  lemma {:induction false} LookupApplyTags(s: seq<TagEntry>, first: u64, tags: seq<u64>, k: u64)
    requires Sorted(s) && first + |tags| <= U64_MODULUS
    ensures Lookup(ApplyTags(s, first, tags), k) ==
            if k in tags then Some(first + LastIndexOf(tags, k))
            else Lookup(s, k)
  {
    if tags != [] {
      var n := |tags| - 1;
      var init := tags[..n];
      var prev := ApplyTags(s, first, init);
      assert ApplyTags(s, first, tags) == Insert(prev, tags[n], first + n);
      ApplyTagsSorted(s, first, init);
      LookupInsert(prev, tags[n], first + n, k);
      LookupApplyTags(s, first, init, k);
      if k == tags[n] {
        assert LastIndexOf(tags, k) == n;
      } else if k in tags {
        var i :| 0 <= i < |tags| && tags[i] == k;
        assert init[i] == k;
        assert LastIndexOf(tags, k) == LastIndexOf(init, k);
      } else {
        assert k !in init;
      }
    }
  }

  /** Reading the index of a written tag back with `from_le_bytes` gives
      `first + i` for the last `i` with `tags[i] == k`. */
  lemma WrittenIndexReadsBack(s: seq<TagEntry>, first: u64, tags: seq<u64>, k: u64)
    requires Sorted(s) && first + |tags| <= U64_MODULUS
    requires k in tags
    ensures Lookup(ApplyTags(s, first, tags), k).Some?
    ensures FromLeBytes(ToLeBytes(Lookup(ApplyTags(s, first, tags), k).value))
            == first + LastIndexOf(tags, k)
  {
    LookupApplyTags(s, first, tags, k);
    LeRoundTrip(first + LastIndexOf(tags, k));
  }

  /** Writing two consecutive batches is writing their concatenation. */
  lemma {:induction false} ApplyTagsConcat(s: seq<TagEntry>, first: u64, a: seq<u64>, b: seq<u64>)
    requires first + |a| + |b| <= U64_MODULUS && first + |a| < U64_MODULUS
    ensures ApplyTags(ApplyTags(s, first, a), first + |a|, b) == ApplyTags(s, first, a + b)
  {
    if b != [] {
      var n := |b| - 1;
      assert (a + b)[..|a| + n] == a + b[..n];
      assert (a + b)[|a| + n] == b[n];
      ApplyTagsConcat(s, first, a, b[..n]);
    } else {
      assert a + b == a;
    }
  }

  // ---------------------------------------------------------------------
  // Range search (`FindByRange`)

  /** A found pair: the tag and `u64::from_le_bytes` of its stored value. */
  function SolutionOf(e: TagEntry): (sol: Solution)
  {
    Solution(e.tag, FromLeBytes(e.StoredValue()))
  }

  /** The entries whose tag lies in `[lo, hi]`, in iteration order. */
  function Between(s: seq<TagEntry>, lo: int, hi: int): (r: seq<Solution>)
  {
    if s == [] then []
    else
      (if lo <= s[0].tag <= hi then [SolutionOf(s[0])] else []) + Between(s[1..], lo, hi)
  }

  /** Wrapping distance from `target` to `t` is at most `half`, in either direction. */
  predicate WithinRange(t: u64, target: u64, half: int) {
    Wrap(t - target) <= half || Wrap(target - t) <= half
  }

  /** Candidates collected by the search, in collection order. */
  function Candidates(s: seq<TagEntry>, target: u64, range: u64): (r: seq<Solution>)
  {
    var (lower, lowerOverflowed) := OverflowingSub(target, range / 2);
    var (upper, upperOverflowed) := OverflowingAdd(target, range / 2);
    if lowerOverflowed || upperOverflowed then
      Between(s, 0, upper) + Between(s, lower, U64_MODULUS - 1)
    else
      Between(s, lower, upper)
  }

  /** What the search replies: the first candidate (`into_iter().next()`). */
  function FindByRange(s: seq<TagEntry>, target: u64, range: u64): (r: Option<Solution>)
  {
    var c := Candidates(s, target, range);
    if c == [] then None else Some(c[0])
  }

  lemma {:induction false} BetweenConcat(a: seq<TagEntry>, b: seq<TagEntry>, lo: int, hi: int)
    ensures Between(a + b, lo, hi) == Between(a, lo, hi) + Between(b, lo, hi)
  {
    if a != [] {
      assert (a + b)[1..] == a[1..] + b;
      BetweenConcat(a[1..], b, lo, hi);
    } else {
      assert a + b == b;
    }
  }

  lemma {:induction false} BetweenMembers(s: seq<TagEntry>, lo: int, hi: int, x: Solution)
    ensures x in Between(s, lo, hi) <==>
            exists i :: 0 <= i < |s| && lo <= s[i].tag <= hi && x == SolutionOf(s[i])
  {
    if s != [] {
      BetweenMembers(s[1..], lo, hi, x);
      if x in Between(s[1..], lo, hi) {
        var i :| 0 <= i < |s[1..]| && lo <= s[1..][i].tag <= hi && x == SolutionOf(s[1..][i]);
        assert s[i + 1] == s[1..][i];
      }
      forall i | 0 < i < |s| && lo <= s[i].tag <= hi && x == SolutionOf(s[i])
        ensures x in Between(s[1..], lo, hi)
      {
        assert s[1..][i - 1] == s[i];
      }
    }
  }

  /** On a sorted database the first entry in `[lo, hi]` has the smallest such tag. */
  lemma {:induction false} BetweenHeadIsSmallest(s: seq<TagEntry>, lo: int, hi: int)
    requires Sorted(s)
    requires Between(s, lo, hi) != []
    ensures lo <= Between(s, lo, hi)[0].tag <= hi
    ensures exists i :: 0 <= i < |s| && Between(s, lo, hi)[0] == SolutionOf(s[i])
    ensures forall i :: 0 <= i < |s| && lo <= s[i].tag <= hi ==> Between(s, lo, hi)[0].tag <= s[i].tag
  {
    if lo <= s[0].tag <= hi {
      assert Between(s, lo, hi)[0] == SolutionOf(s[0]);
    } else {
      assert Between(s, lo, hi) == Between(s[1..], lo, hi);
      BetweenHeadIsSmallest(s[1..], lo, hi);
      var h := Between(s, lo, hi)[0];
      var i :| 0 <= i < |s[1..]| && h == SolutionOf(s[1..][i]);
      assert h == SolutionOf(s[i + 1]);
      forall j | 0 <= j < |s| && lo <= s[j].tag <= hi ensures h.tag <= s[j].tag {
        if j > 0 {
          assert s[1..][j - 1] == s[j];
        }
      }
    }
  }

  lemma BetweenEmptyIff(s: seq<TagEntry>, lo: int, hi: int)
    ensures Between(s, lo, hi) == [] <==> forall i :: 0 <= i < |s| ==> !(lo <= s[i].tag <= hi)
  {
    if Between(s, lo, hi) != [] {
      BetweenMembers(s, lo, hi, Between(s, lo, hi)[0]);
    }
    forall i | 0 <= i < |s| && lo <= s[i].tag <= hi ensures Between(s, lo, hi) != [] {
      BetweenMembers(s, lo, hi, SolutionOf(s[i]));
    }
  }

  /** Both bounds cannot overflow at once: `range / 2` is below 2^63. */
  lemma AtMostOneOverflow(target: u64, range: u64)
    ensures !(OverflowingSub(target, range / 2).1 && OverflowingAdd(target, range / 2).1)
  {
  }

  /** The candidates are exactly the stored tags within wrapping distance
      `range / 2` of the target, whether or not a bound overflowed. */
  lemma CandidatesWithinRange(s: seq<TagEntry>, target: u64, range: u64, x: Solution)
    ensures x in Candidates(s, target, range) <==>
            exists i :: 0 <= i < |s| && WithinRange(s[i].tag, target, range / 2) && x == SolutionOf(s[i])
  {
    var half := range / 2;
    var (lower, lo) := OverflowingSub(target, half);
    var (upper, up) := OverflowingAdd(target, half);
    forall t: u64
      ensures WithinRange(t, target, half) <==>
              if lo || up then t <= upper || lower <= t else lower <= t <= upper
    {
      RangeArithmetic(t, target, half);
    }
    if lo || up {
      BetweenMembers(s, 0, upper, x);
      BetweenMembers(s, lower, U64_MODULUS - 1, x);
    } else {
      BetweenMembers(s, lower, upper, x);
    }
  }

  lemma RangeArithmetic(t: u64, target: u64, half: int)
    requires 0 <= half < U64_MODULUS / 2
    ensures var (lower, lo) := OverflowingSub(target, half);
            var (upper, up) := OverflowingAdd(target, half);
            WithinRange(t, target, half) <==>
            if lo || up then t <= upper || lower <= t else lower <= t <= upper
  {
    assert Wrap(t - target) == if t >= target then t - target else t - target + U64_MODULUS;
    assert Wrap(target - t) == if target >= t then target - t else target - t + U64_MODULUS;
  }

  /** Without overflow the reply is the smallest stored tag in
      `[lower, upper]`, or None when there is none. */
  lemma FindWithoutOverflow(s: seq<TagEntry>, target: u64, range: u64)
    requires Sorted(s)
    requires !OverflowingSub(target, range / 2).1 && !OverflowingAdd(target, range / 2).1
    ensures var lower := target - range / 2;
            var upper := target + range / 2;
            var r := FindByRange(s, target, range);
            && (r.None? <==> forall i :: 0 <= i < |s| ==> !(lower <= s[i].tag <= upper))
            && (r.Some? ==>
                  && lower <= r.value.tag <= upper
                  && (exists i :: 0 <= i < |s| && r.value == SolutionOf(s[i]))
                  && forall i :: 0 <= i < |s| && lower <= s[i].tag <= upper ==> r.value.tag <= s[i].tag)
  {
    var lower := target - range / 2;
    var upper := target + range / 2;
    BetweenEmptyIff(s, lower, upper);
    if Between(s, lower, upper) != [] {
      BetweenHeadIsSmallest(s, lower, upper);
    }
  }

  /** With an overflowing bound the reply is the smallest stored tag
      `<= upper` if there is one, and otherwise the smallest `>= lower`. */
  lemma FindWithOverflow(s: seq<TagEntry>, target: u64, range: u64)
    requires Sorted(s)
    requires OverflowingSub(target, range / 2).1 || OverflowingAdd(target, range / 2).1
    ensures var lower := OverflowingSub(target, range / 2).0;
            var upper := OverflowingAdd(target, range / 2).0;
            var r := FindByRange(s, target, range);
            && (r.None? <==> forall i :: 0 <= i < |s| ==> !(s[i].tag <= upper || lower <= s[i].tag))
            && (r.Some? ==> exists i :: 0 <= i < |s| && r.value == SolutionOf(s[i]))
            && ((exists i :: 0 <= i < |s| && s[i].tag <= upper) ==>
                  && r.Some? && r.value.tag <= upper
                  && forall i :: 0 <= i < |s| && s[i].tag <= upper ==> r.value.tag <= s[i].tag)
            && ((forall i :: 0 <= i < |s| ==> s[i].tag > upper) && r.Some? ==>
                  && lower <= r.value.tag
                  && forall i :: 0 <= i < |s| && lower <= s[i].tag ==> r.value.tag <= s[i].tag)
  {
    var lower := OverflowingSub(target, range / 2).0;
    var upper := OverflowingAdd(target, range / 2).0;
    var top := U64_MODULUS - 1;
    BetweenEmptyIff(s, 0, upper);
    BetweenEmptyIff(s, lower, top);
    if Between(s, 0, upper) != [] {
      BetweenHeadIsSmallest(s, 0, upper);
      assert Candidates(s, target, range)[0] == Between(s, 0, upper)[0];
    } else if Between(s, lower, top) != [] {
      BetweenHeadIsSmallest(s, lower, top);
      assert Candidates(s, target, range) == Between(s, lower, top);
    }
  }

  /** `iter.seek(key)`: the position of the first entry whose tag is at least `key`. */
  method Seek(s: seq<TagEntry>, key: u64) returns (pos: nat)
    requires Sorted(s)
    ensures pos <= |s|
    ensures forall i :: 0 <= i < pos ==> s[i].tag < key
    ensures forall i :: pos <= i < |s| ==> s[i].tag >= key
  {
    pos := 0;
    while pos < |s| && s[pos].tag < key
      invariant pos <= |s|
      invariant forall i :: 0 <= i < pos ==> s[i].tag < key
    {
      pos := pos + 1;
    }
  }

  /** The search loop of the `FindByRange` request: collects the candidate
      solutions with the database iterator. */
  method CollectSolutions(s: seq<TagEntry>, target: u64, range: u64) returns (solutions: seq<Solution>)
    requires Sorted(s)
    ensures solutions == Candidates(s, target, range)
  {
    var (lower, lowerOverflowed) := OverflowingSub(target, range / 2);
    var (upper, upperOverflowed) := OverflowingAdd(target, range / 2);
    if lowerOverflowed || upperOverflowed {
      var low := CollectUpTo(s, 0, 0, upper);
      NoneBefore(s, 0, 0, upper);
      var start := Seek(s, lower);
      var high := CollectToEnd(s, start, lower);
      NoneBefore(s, start, lower, U64_MODULUS - 1);
      solutions := low + high;
    } else {
      var start := Seek(s, lower);
      solutions := CollectUpTo(s, start, lower, upper);
      NoneBefore(s, start, lower, upper);
    }
  }

  /** From position `start`, push every entry while its tag is at most
      `upper`; every tag from `start` on is known to be at least `lower`. */
  method CollectUpTo(s: seq<TagEntry>, start: nat, lower: int, upper: u64) returns (solutions: seq<Solution>)
    requires Sorted(s) && start <= |s|
    requires forall j :: start <= j < |s| ==> lower <= s[j].tag
    ensures solutions == Between(s[start..], lower, upper)
  {
    var rest := s[start..];
    SortedSuffix(s, start);
    solutions := [];
    var i := 0;
    while i < |rest| && rest[i].tag <= upper
      invariant i <= |rest|
      invariant solutions == Between(rest[..i], lower, upper)
    {
      AppendOne(rest, i, lower, upper);
      solutions := solutions + [SolutionOf(rest[i])];
      i := i + 1;
    }
    NoneBeyond(rest, i, lower, upper);
  }

  lemma SortedSuffix(s: seq<TagEntry>, start: nat)
    requires Sorted(s) && start <= |s|
    ensures Sorted(s[start..])
  {
    forall i, j | 0 <= i < j < |s| - start
      ensures s[start..][i].tag < s[start..][j].tag
    {
      assert s[start..][i] == s[start + i] && s[start..][j] == s[start + j];
    }
  }

  /** From position `start`, push every remaining entry. */
  method CollectToEnd(s: seq<TagEntry>, start: nat, lower: u64) returns (solutions: seq<Solution>)
    requires start <= |s|
    requires forall j :: start <= j < |s| ==> s[j].tag >= lower
    ensures solutions == Between(s[start..], lower, U64_MODULUS - 1)
  {
    solutions := [];
    var i := start;
    while i < |s|
      invariant start <= i <= |s|
      invariant Between(s[start..], lower, U64_MODULUS - 1) ==
                solutions + Between(s[i..], lower, U64_MODULUS - 1)
    {
      assert s[i..][1..] == s[i + 1..];
      solutions := solutions + [SolutionOf(s[i])];
      i := i + 1;
    }
  }

  lemma AppendOne(s: seq<TagEntry>, i: nat, lo: int, hi: int)
    requires i < |s| && lo <= s[i].tag <= hi
    ensures Between(s[..i + 1], lo, hi) == Between(s[..i], lo, hi) + [SolutionOf(s[i])]
  {
    assert s[..i + 1] == s[..i] + [s[i]];
    BetweenConcat(s[..i], [s[i]], lo, hi);
  }

  lemma AllAboveIsEmpty(s: seq<TagEntry>, lo: int, hi: int)
    requires Sorted(s) && s != [] && s[0].tag > hi
    ensures Between(s, lo, hi) == []
  {
    BetweenEmptyIff(s, lo, hi);
  }

  /** Stopping at the first tag above `hi` misses nothing. */
  lemma NoneBeyond(s: seq<TagEntry>, i: nat, lo: int, hi: int)
    requires Sorted(s) && i <= |s|
    requires i < |s| ==> s[i].tag > hi
    ensures Between(s, lo, hi) == Between(s[..i], lo, hi)
  {
    assert s == s[..i] + s[i..];
    BetweenConcat(s[..i], s[i..], lo, hi);
    if i < |s| {
      AllAboveIsEmpty(s[i..], lo, hi);
    }
  }

  /** Seeking past every tag below `lo` misses nothing. */
  lemma NoneBefore(s: seq<TagEntry>, i: nat, lo: int, hi: int)
    requires Sorted(s) && i <= |s|
    requires forall j :: 0 <= j < i ==> s[j].tag < lo
    ensures Between(s, lo, hi) == Between(s[i..], lo, hi)
  {
    assert s == s[..i] + s[i..];
    BetweenConcat(s[..i], s[i..], lo, hi);
    BetweenEmptyIff(s[..i], lo, hi);
  }
}
