/** The farmer's plot: an append-mostly file of encoded pieces plus, per
    salt, a database of tags ("commitment"). Requests are served by a
    background loop that handles every pending read before at most one
    write; the commitment status of each salt is kept in a map beside it.

    The plot file's bytes are not modelled: only its piece count. Awaiting
    the reply to a request is modelled as that request being handled at
    once, by the same handler the background loop uses; every write request
    a front-end operation sends is also appended to `issued`. */
module Plot {
  import opened Bytes
  import opened Wrappers
  import TagsDb
  import opened Batches

  /** Size of one encoded piece in bytes. */
  const PIECE_SIZE: nat := 4096
  /** Number of pieces tagged per `WriteTags` request. */
  const BATCH_SIZE: nat := 256

  const ABORTED_MESSAGE: string := "Commitment creation was aborted"

  type Salt = seq<byte>
  type Piece = seq<byte>
  type TagDb = seq<TagsDb.TagEntry>

  datatype CommitmentStatus =
    | InProgress  // in-progress commitment to part of the plot
    | Created     // commitment to the whole plot
    | Aborted     // creation was aborted, waiting for cleanup

  datatype Outcome = Ok | Err(message: string)

  datatype ReadRequest =
    | ReadEncoding(index: u64)
    | ReadEncodings(firstIndex: u64, count: u64)
    | FindByRange(target: u64, range: u64, salt: Salt)

  datatype WriteRequest =
    | WriteEncodings(encodings: seq<Piece>, firstIndex: u64)
    | WriteTags(firstIndex: u64, tags: seq<u64>, salt: Salt)
    | FinishCommitmentCreation(salt: Salt)
    | RemoveCommitment(salt: Salt)

  /** What a read request sends back: piece bytes (not modelled) or the
      result of a range search. */
  datatype Reply = FileRead | Found(solution: Option<TagsDb.Solution>)

  /** The state the background loop owns: the piece count, the tag database
      of each salt, and the salts whose commitment creation was finished. */
  datatype Store = Store(pieceCount: u64, tagsDbs: map<Salt, TagDb>, finished: set<Salt>)

  /** `commitments.get_or_create_db(salt)`: a salt without a database reads as empty. */
  function DbIn(dbs: map<Salt, TagDb>, salt: Salt): (db: TagDb) {
    if salt in dbs then dbs[salt] else []
  }

  ghost predicate DbsSorted(dbs: map<Salt, TagDb>) {
    forall s :: s in dbs ==> TagsDb.Sorted(dbs[s])
  }

  /** A write request the handler can serve: `WriteEncodings` is never sent
      empty (`encodings[0]` is read), and no index counter overflows. */
  predicate ValidWrite(w: WriteRequest) {
    match w
    case WriteEncodings(encodings, firstIndex) =>
      |encodings| > 0 && firstIndex + |encodings| < U64_MODULUS
    case WriteTags(firstIndex, tags, _) => firstIndex + |tags| < U64_MODULUS
    case _ => true
  }

  function Max(a: u64, b: u64): (m: u64)
    ensures m >= a && m >= b && (m == a || m == b)
  {
    if a >= b then a else b
  }

  /** Stands for the `io::Error` a failing seek or write of the plot file returns. */
  const FILE_WRITE_ERROR: string := "Plot file write failed"

  /** The effect of one write request on the background state. `fileOk`
      says whether the plot file's seek and write succeed: only
      `WriteEncodings` touches the file, and the piece count grows only
      after both succeed. */
  function WriteEffect(st: Store, w: WriteRequest, fileOk: bool): (next: Store)
    requires ValidWrite(w)
    ensures next.pieceCount >= st.pieceCount
    ensures !(w.WriteEncodings? && fileOk) ==> next.pieceCount == st.pieceCount
    ensures w.WriteEncodings? ==> next.tagsDbs == st.tagsDbs && next.finished == st.finished
  {
    match w
    case WriteEncodings(encodings, firstIndex) =>
      if fileOk then st.(pieceCount := Max(st.pieceCount, firstIndex + |encodings|)) else st
    case WriteTags(firstIndex, tags, salt) =>
      st.(tagsDbs := st.tagsDbs[salt := TagsDb.ApplyTags(DbIn(st.tagsDbs, salt), firstIndex, tags)])
    case FinishCommitmentCreation(salt) =>
      st.(finished := st.finished + {salt})
    case RemoveCommitment(salt) =>
      st.(tagsDbs := st.tagsDbs - {salt}, finished := st.finished - {salt})
  }

  /** The reply to one read request. */
  function ReplyTo(dbs: map<Salt, TagDb>, r: ReadRequest): (reply: Reply) {
    match r
    case FindByRange(target, range, salt) => Found(TagsDb.FindByRange(DbIn(dbs, salt), target, range))
    case _ => FileRead
  }

  function Replies(dbs: map<Salt, TagDb>, rs: seq<ReadRequest>): (r: seq<Reply>)
    ensures |r| == |rs|
  {
    seq(|rs|, i requires 0 <= i < |rs| => ReplyTo(dbs, rs[i]))
  }

  /** Tags of the plot pieces `[a, b)`; `tagOf(i)` stands for
      `create_tag(piece i, salt)`. */
  function PlotTags(tagOf: nat -> u64, a: nat, b: nat): (r: seq<u64>)
    requires a <= b
    ensures |r| == b - a
  {
    seq(b - a, i requires 0 <= i < b - a => tagOf(a + i))
  }

  /** The `WriteTags` requests commitment creation sends, batch by batch, from `from` on. */
  function TagRequests(salt: Salt, tagOf: nat -> u64, pieceCount: u64, from: nat): (reqs: seq<WriteRequest>)
    decreases pieceCount - from
  {
    if from >= pieceCount then []
    else
      [WriteTags(from, PlotTags(tagOf, from, from + BatchLen(from, BATCH_SIZE, pieceCount)), salt)]
      + TagRequests(salt, tagOf, pieceCount, from + BATCH_SIZE)
  }

  /** The piece indices the `WriteTags` requests of `reqs` assign, in order. */
  function RequestedPieces(reqs: seq<WriteRequest>): (pieces: seq<nat>) {
    if reqs == [] then []
    else
      (if reqs[0].WriteTags? then Range(reqs[0].firstIndex, reqs[0].firstIndex + |reqs[0].tags|) else [])
      + RequestedPieces(reqs[1..])
  }

  /** The requests of commitment creation assign the pieces batch after batch. */
  lemma {:induction false} TagRequestsFollowBatches(salt: Salt, tagOf: nat -> u64, pieceCount: u64, from: nat)
    ensures RequestedPieces(TagRequests(salt, tagOf, pieceCount, from)) == Covered(pieceCount, BATCH_SIZE, from)
    decreases pieceCount - from
  {
    if from < pieceCount {
      var reqs := TagRequests(salt, tagOf, pieceCount, from);
      TagRequestsFollowBatches(salt, tagOf, pieceCount, from + BATCH_SIZE);
      assert reqs[1..] == TagRequests(salt, tagOf, pieceCount, from + BATCH_SIZE);
    }
  }

  /** Commitment creation tags every piece of the plot exactly once, in
      ascending order: its requests tile `[0, pieceCount)`. */
  lemma TagRequestsTilePlot(salt: Salt, tagOf: nat -> u64, pieceCount: u64)
    ensures RequestedPieces(TagRequests(salt, tagOf, pieceCount, 0)) == Range(0, pieceCount)
  {
    TagRequestsFollowBatches(salt, tagOf, pieceCount, 0);
    BatchesCover(pieceCount, BATCH_SIZE, 0);
  }

  /** Where an interleaved `remove_commitment(salt)` happens during
      `create_commitment(salt)`. */
  datatype AbortPoint =
    | NoAbort
    | BeforeBatch(n: nat)  // just before the abort check of batch n
    | AfterBatches         // after the batch loop, before its final check
    | AfterFinish          // after the finish request, before the last check

  /** Whether the interleaved removal happens at all for a plot of `pieceCount` pieces. */
  predicate Interrupts(abortAt: AbortPoint, pieceCount: nat) {
    match abortAt
    case NoAbort => false
    case BeforeBatch(n) => n < |BatchStarts(pieceCount, BATCH_SIZE, 0)|
    case _ => true
  }

  lemma PlotTagsConcat(tagOf: nat -> u64, a: nat, b: nat, c: nat)
    requires a <= b <= c
    ensures PlotTags(tagOf, a, b) + PlotTags(tagOf, b, c) == PlotTags(tagOf, a, c)
  {
  }

  /** Tagging the pieces `[b, c)` after the pieces `[0, b)` is tagging `[0, c)`. */
  lemma TagBatchStep(db: TagDb, tagOf: nat -> u64, b: nat, c: nat)
    requires b <= c < U64_MODULUS
    ensures TagsDb.ApplyTags(TagsDb.ApplyTags(db, 0, PlotTags(tagOf, 0, b)), b, PlotTags(tagOf, b, c))
            == TagsDb.ApplyTags(db, 0, PlotTags(tagOf, 0, c))
  {
    TagsDb.ApplyTagsConcat(db, 0, PlotTags(tagOf, 0, b), PlotTags(tagOf, b, c));
    PlotTagsConcat(tagOf, 0, b, c);
  }

  lemma AppendShift<T>(a: seq<T>, x: T, b: seq<T>)
    ensures (a + [x]) + b == a + ([x] + b)
  {
  }

  lemma TagRequestsStep(salt: Salt, tagOf: nat -> u64, pieceCount: u64, from: nat)
    requires from < pieceCount
    ensures TagRequests(salt, tagOf, pieceCount, from) ==
            [WriteTags(from, PlotTags(tagOf, from, from + BatchLen(from, BATCH_SIZE, pieceCount)), salt)]
            + TagRequests(salt, tagOf, pieceCount, from + BATCH_SIZE)
  {
  }

  /** The remove requests for the salts of `order`, in that order. */
  function Removals(order: seq<Salt>): (reqs: seq<WriteRequest>) {
    if order == [] then []
    else Removals(order[..|order| - 1]) + [WriteRequest.RemoveCommitment(order[|order| - 1])]
  }

  lemma RemovalsStep(order: seq<Salt>, s: Salt)
    ensures Removals(order + [s]) == Removals(order) + [WriteRequest.RemoveCommitment(s)]
  {
    assert (order + [s])[..|order|] == order;
  }

  /** The remove requests are exactly one per listed salt: every request is
      a removal of a listed salt, and every listed salt has its request. */
  lemma {:induction false} RemovalsMembers(order: seq<Salt>)
    ensures |Removals(order)| == |order|
    ensures forall w :: w in Removals(order) <==> w.RemoveCommitment? && w.salt in order
  {
    if order != [] {
      var init := order[..|order| - 1];
      RemovalsMembers(init);
      assert order == init + [order[|order| - 1]];
    }
  }

  lemma AppendAssoc<T>(a: seq<T>, b: seq<T>, x: T)
    ensures a + (b + [x]) == (a + b) + [x]
  {
  }

  lemma MapMinusStep<K, V>(m: map<K, V>, all: set<K>, remaining: set<K>, k: K)
    requires k in remaining && remaining <= all
    ensures (m - (all - remaining)) - {k} == m - (all - (remaining - {k}))
  {
    assert all - (remaining - {k}) == (all - remaining) + {k};
  }

  lemma SetMinusStep<K>(m: set<K>, all: set<K>, remaining: set<K>, k: K)
    requires k in remaining && remaining <= all
    ensures (m - (all - remaining)) - {k} == m - (all - (remaining - {k}))
  {
    assert all - (remaining - {k}) == (all - remaining) + {k};
  }

  lemma UpdateMinus<K, V>(m: map<K, V>, k: K, v: V)
    ensures m[k := v] - {k} == m - {k}
  {
  }

  lemma UpdateTwice<K, V>(m: map<K, V>, k: K, v: V, w: V)
    ensures m[k := v][k := w] == m[k := w]
  {
  }

  lemma SetAddMinus<K>(m: set<K>, k: K)
    ensures (m + {k}) - {k} == m - {k}
  {
  }

  class Plot {
    var pieceCount: u64
    var tagsDbs: map<Salt, TagDb>
    var finished: set<Salt>
    var statuses: map<Salt, CommitmentStatus>
    var readQueue: seq<ReadRequest>
    var writeQueue: seq<WriteRequest>
    var issued: seq<WriteRequest>

    ghost predicate Valid()
      reads this
    {
      DbsSorted(tagsDbs) && forall i :: 0 <= i < |writeQueue| ==> ValidWrite(writeQueue[i])
    }

    function Background(): (st: Store)
      reads this
    {
      Store(pieceCount, tagsDbs, finished)
    }

    /** `Plot::open_or_create`: the piece count is how many whole pieces the
        file holds; every commitment found on disk starts as Created. */
    constructor Open(plotSize: u64, existing: map<Salt, TagDb>)
      requires DbsSorted(existing)
      ensures Valid()
      ensures pieceCount == plotSize / PIECE_SIZE
      ensures IsEmpty() <==> plotSize < PIECE_SIZE
      ensures tagsDbs == existing && finished == existing.Keys
      ensures statuses == map s | s in existing.Keys :: Created
      ensures readQueue == [] && writeQueue == [] && issued == []
    {
      pieceCount := plotSize / PIECE_SIZE;
      tagsDbs := existing;
      finished := existing.Keys;
      statuses := map s | s in existing.Keys :: Created;
      readQueue, writeQueue, issued := [], [], [];
    }

    /** No request is waiting for the background loop. */
    predicate Idle()
      reads this
    {
      readQueue == [] && writeQueue == []
    }

    /** `is_empty`. */
    predicate IsEmpty()
      reads this
    {
      pieceCount == 0
    }

    // -------------------------------------------------------------------
    // Background loop

    /** Serves one read request. */
    method HandleRead(r: ReadRequest) returns (reply: Reply)
      requires Valid()
      ensures reply == ReplyTo(tagsDbs, r)
    {
      match r
      case FindByRange(target, range, salt) =>
        var db := DbIn(tagsDbs, salt);
        var solutions := TagsDb.CollectSolutions(db, target, range);
        reply := Found(if solutions == [] then None else Some(solutions[0]));
      case _ =>
        reply := FileRead;
    }

    /** Serves one write request and returns the reply it sends: only a
        `WriteEncodings` whose file write fails is answered with an error. */
    method HandleWrite(w: WriteRequest, fileOk: bool) returns (res: Outcome)
      requires Valid() && ValidWrite(w)
      modifies this`pieceCount, this`tagsDbs, this`finished
      ensures Valid()
      ensures Background() == WriteEffect(old(Background()), w, fileOk)
      ensures res == Ok <==> !w.WriteEncodings? || fileOk
    {
      res := Ok;
      match w
      case WriteEncodings(encodings, firstIndex) =>
        if fileOk {
          pieceCount := Max(pieceCount, firstIndex + |encodings|);
        } else {
          res := Err(FILE_WRITE_ERROR);
        }
      case WriteTags(firstIndex, tags, salt) =>
        var db := DbIn(tagsDbs, salt);
        var i := 0;
        while i < |tags|
          invariant 0 <= i <= |tags|
          invariant db == TagsDb.ApplyTags(DbIn(tagsDbs, salt), firstIndex, tags[..i])
        {
          assert tags[..i + 1][..i] == tags[..i];
          db := TagsDb.Insert(db, tags[i], firstIndex + i);
          i := i + 1;
        }
        assert tags[..i] == tags;
        TagsDb.ApplyTagsSorted(DbIn(tagsDbs, salt), firstIndex, tags);
        tagsDbs := tagsDbs[salt := db];
      case FinishCommitmentCreation(salt) =>
        finished := finished + {salt};
      case RemoveCommitment(salt) =>
        tagsDbs := tagsDbs - {salt};
        finished := finished - {salt};
    }

    /** One pass of the background loop: every queued read request is
        served, then at most one write request, whose reply is `writeReply`.
        `didNothing` is the loop's flag: true exactly when both queues were
        empty. */
    method Cycle(fileOk: bool) returns (replies: seq<Reply>, didNothing: bool, writeReply: Option<Outcome>)
      requires Valid()
      modifies this`readQueue, this`writeQueue, this`pieceCount, this`tagsDbs, this`finished
      ensures Valid()
      ensures didNothing <==> old(readQueue) == [] && old(writeQueue) == []
      ensures readQueue == []
      ensures replies == Replies(old(tagsDbs), old(readQueue))
      ensures old(writeQueue) == [] ==>
                writeQueue == [] && Background() == old(Background()) && writeReply == None
      ensures old(writeQueue) != [] ==>
                writeQueue == old(writeQueue)[1..] &&
                Background() == WriteEffect(old(Background()), old(writeQueue)[0], fileOk) &&
                writeReply.Some? && (writeReply.value == Ok <==> !old(writeQueue)[0].WriteEncodings? || fileOk)
    {
      didNothing := true;
      writeReply := None;
      replies := [];
      ghost var pending := readQueue;
      while readQueue != []
        invariant Valid()
        invariant writeQueue == old(writeQueue) && Background() == old(Background())
        invariant |replies| + |readQueue| == |pending|
        invariant readQueue == pending[|replies|..]
        invariant replies == Replies(tagsDbs, pending[..|replies|])
        invariant didNothing <==> replies == []
        decreases |readQueue|
      {
        didNothing := false;
        var reply := HandleRead(readQueue[0]);
        assert pending[..|replies| + 1] == pending[..|replies|] + [readQueue[0]];
        replies := replies + [reply];
        readQueue := readQueue[1..];
      }
      assert pending[..|replies|] == pending;
      if writeQueue != [] {
        didNothing := false;
        var w := writeQueue[0];
        writeQueue := writeQueue[1..];
        var res := HandleWrite(w, fileOk);
        writeReply := Some(res);
      }
    }

    // -------------------------------------------------------------------
    // Front-end operations

    /** Queues a write request for the background loop
        (`write_requests_sender.send`). */
    method Send(w: WriteRequest)
      requires Valid() && ValidWrite(w)
      modifies this`writeQueue, this`issued
      ensures Valid()
      ensures writeQueue == old(writeQueue) + [w] && issued == old(issued) + [w]
    {
      writeQueue := writeQueue + [w];
      issued := issued + [w];
    }

    /** Queues a read request for the background loop (`read_requests_sender.send`). */
    method Ask(r: ReadRequest)
      modifies this`readQueue
      ensures readQueue == old(readQueue) + [r]
    {
      readQueue := readQueue + [r];
    }

    /** Sending a write request to an idle loop and letting it run one pass
        has the effect `Issue` gives it: the request is recorded, handled,
        answered, and both queues are empty again. */
    method SendAndServe(w: WriteRequest, fileOk: bool) returns (res: Outcome)
      requires Valid() && ValidWrite(w) && Idle()
      modifies this`readQueue, this`writeQueue, this`issued, this`pieceCount, this`tagsDbs, this`finished
      ensures Valid() && Idle()
      ensures issued == old(issued) + [w]
      ensures Background() == WriteEffect(old(Background()), w, fileOk)
      ensures res == Ok <==> !w.WriteEncodings? || fileOk
    {
      Send(w);
      var _, _, reply := Cycle(fileOk);
      res := reply.value;
    }

    /** Sends a write request and waits for its reply. With no request
        queued ahead of it, the background loop serves it in its next pass
        (`SendAndServe`), so it is handled at once. */
    method Issue(w: WriteRequest, fileOk: bool) returns (res: Outcome)
      requires Valid() && ValidWrite(w) && Idle()
      modifies this`issued, this`pieceCount, this`tagsDbs, this`finished
      ensures Valid()
      ensures issued == old(issued) + [w]
      ensures Background() == WriteEffect(old(Background()), w, fileOk)
      ensures res == Ok <==> !w.WriteEncodings? || fileOk
    {
      issued := issued + [w];
      res := HandleWrite(w, fileOk);
    }

    /** `find_by_range`: the first tag the range search collects, with its piece index. */
    method FindByRange(target: u64, range: u64, salt: Salt) returns (r: Option<TagsDb.Solution>)
      requires Valid()
      ensures r == TagsDb.FindByRange(DbIn(tagsDbs, salt), target, range)
    {
      var reply := HandleRead(ReadRequest.FindByRange(target, range, salt));
      r := reply.solution;
    }

    /** `write_many`: an empty list is Ok at once and sends nothing;
        otherwise the pieces are sent to be written. When the file write
        succeeds the piece count grows to at least `firstIndex + |encodings|`
        (`fetch_max`); when it fails the error is returned and the piece
        count stays. */
    method WriteMany(encodings: seq<Piece>, firstIndex: u64, fileOk: bool) returns (res: Outcome)
      requires Valid() && Idle()
      requires encodings != [] ==> firstIndex + |encodings| < U64_MODULUS
      modifies this`issued, this`pieceCount, this`tagsDbs, this`finished
      ensures Valid()
      ensures tagsDbs == old(tagsDbs) && finished == old(finished)
      ensures pieceCount >= old(pieceCount)
      ensures res == Ok <==> encodings == [] || fileOk
      ensures encodings == [] ==> issued == old(issued) && pieceCount == old(pieceCount)
      ensures encodings != [] ==> issued == old(issued) + [WriteEncodings(encodings, firstIndex)]
      ensures encodings != [] && fileOk ==>
                pieceCount == Max(old(pieceCount), firstIndex + |encodings|) && !IsEmpty()
      ensures !fileOk ==> pieceCount == old(pieceCount)
    {
      if encodings == [] {
        return Ok;
      }
      res := Issue(WriteEncodings(encodings, firstIndex), fileOk);
    }

    /** `remove_commitment`: a commitment still being created is only marked
        Aborted (its creator cleans up); otherwise the entry is dropped and a
        remove request is sent. */
    method RemoveCommitment(salt: Salt) returns (res: Outcome)
      requires Valid() && Idle()
      modifies this`statuses, this`issued, this`pieceCount, this`tagsDbs, this`finished
      ensures Valid()
      ensures res == Ok
      ensures pieceCount == old(pieceCount)
      ensures salt in old(statuses) && old(statuses)[salt] != Created ==>
                statuses == old(statuses)[salt := Aborted] &&
                issued == old(issued) && tagsDbs == old(tagsDbs) && finished == old(finished)
      ensures !(salt in old(statuses) && old(statuses)[salt] != Created) ==>
                statuses == old(statuses) - {salt} &&
                issued == old(issued) + [WriteRequest.RemoveCommitment(salt)] &&
                tagsDbs == old(tagsDbs) - {salt} && finished == old(finished) - {salt}
    {
      if salt in statuses {
        if statuses[salt] == InProgress || statuses[salt] == Aborted {
          statuses := statuses[salt := Aborted];
          return Ok;
        }
        statuses := statuses - {salt};
      }
      var _ := Issue(WriteRequest.RemoveCommitment(salt), true);
      res := Ok;
    }

    /** The check at the head of each batch, after an interleaved removal
        when `removed` says one happened there: only such a removal can mark
        the in-progress commitment Aborted. */
    method AbortCheck(salt: Salt, removed: bool) returns (aborted: bool)
      requires Valid() && Idle() && salt in statuses && statuses[salt] == InProgress
      modifies this`statuses, this`issued, this`pieceCount, this`tagsDbs, this`finished
      ensures Valid()
      ensures aborted == removed
      ensures issued == old(issued) && Background() == old(Background())
      ensures statuses == if removed then old(statuses)[salt := Aborted] else old(statuses)
    {
      if removed {
        var _ := RemoveCommitment(salt);
      }
      aborted := salt in statuses && statuses[salt] == Aborted;
    }

    /** One batch of `create_commitment`: the tags of the pieces
        `[start, start + len)` are sent in one `WriteTags` request, the
        first of the requests still to send from `start` on. */
    method TagBatch(salt: Salt, tagOf: nat -> u64, start: nat, ghost db0: TagDb, ghost sent: seq<WriteRequest>)
      requires Valid() && Idle() && start < pieceCount
      requires DbIn(tagsDbs, salt) == TagsDb.ApplyTags(db0, 0, PlotTags(tagOf, 0, start))
      requires issued + TagRequests(salt, tagOf, pieceCount, start) == sent
      modifies this`issued, this`pieceCount, this`tagsDbs, this`finished
      ensures Valid()
      ensures pieceCount == old(pieceCount) && finished == old(finished)
      ensures tagsDbs - {salt} == old(tagsDbs) - {salt}
      ensures var end := start + BatchLen(start, BATCH_SIZE, pieceCount);
              DbIn(tagsDbs, salt) == TagsDb.ApplyTags(db0, 0, PlotTags(tagOf, 0, end))
      ensures issued + TagRequests(salt, tagOf, pieceCount, start + BATCH_SIZE) == sent
      ensures |issued| == |old(issued)| + 1
    {
      var end := start + BatchLen(start, BATCH_SIZE, pieceCount);
      var w := WriteTags(start, PlotTags(tagOf, start, end), salt);
      ghost var rest := TagRequests(salt, tagOf, pieceCount, start + BATCH_SIZE);
      ghost var dbs := tagsDbs;
      ghost var db := TagsDb.ApplyTags(DbIn(dbs, salt), start, PlotTags(tagOf, start, end));
      assert issued + ([w] + rest) == sent by {
        TagRequestsStep(salt, tagOf, pieceCount, start);
      }
      AppendShift(issued, w, rest);
      var _ := Issue(w, true);
      assert tagsDbs == dbs[salt := db];
      UpdateMinus(dbs, salt, db);
      TagBatchStep(db0, tagOf, start, end);
    }

    /** The batch loop of `create_commitment`: tags every piece of the plot,
        batch by batch, unless an interleaved removal marks the commitment
        Aborted, which the check at the head of each batch notices. */
    method WriteBatches(salt: Salt, tagOf: nat -> u64, abortAt: AbortPoint) returns (interrupted: bool)
      requires Valid() && Idle() && salt in statuses && statuses[salt] == InProgress
      modifies this`statuses, this`issued, this`pieceCount, this`tagsDbs, this`finished
      ensures Valid()
      ensures pieceCount == old(pieceCount) && finished == old(finished)
      ensures tagsDbs - {salt} == old(tagsDbs) - {salt}
      ensures |issued| >= |old(issued)|
      ensures interrupted <==> abortAt.BeforeBatch? && Interrupts(abortAt, pieceCount)
      ensures interrupted ==> statuses == old(statuses)[salt := Aborted]
      ensures !interrupted ==>
                statuses == old(statuses) &&
                issued == old(issued) + TagRequests(salt, tagOf, pieceCount, 0) &&
                DbIn(tagsDbs, salt) == TagsDb.ApplyTags(DbIn(old(tagsDbs), salt), 0, PlotTags(tagOf, 0, pieceCount))
    {
      var pc := pieceCount;
      var start: nat := 0;
      var done: nat := 0;
      var k: nat := 0;
      ghost var db0 := DbIn(tagsDbs, salt);
      ghost var all := old(issued) + TagRequests(salt, tagOf, pc, 0);
      while start < pc
        invariant Valid()
        invariant pieceCount == pc && finished == old(finished) && statuses == old(statuses)
        invariant tagsDbs - {salt} == old(tagsDbs) - {salt}
        invariant done <= pc && (start < pc ==> done == start) && (start >= pc ==> done == pc)
        invariant |BatchStarts(pc, BATCH_SIZE, 0)| == k + |BatchStarts(pc, BATCH_SIZE, start)|
        invariant abortAt.BeforeBatch? ==> abortAt.n >= k
        invariant DbIn(tagsDbs, salt) == TagsDb.ApplyTags(db0, 0, PlotTags(tagOf, 0, done))
        invariant issued + TagRequests(salt, tagOf, pc, start) == all
        invariant |issued| >= |old(issued)|
        decreases pc - start
      {
        var aborted := AbortCheck(salt, abortAt == BeforeBatch(k));
        if aborted {
          return true;
        }
        TagBatch(salt, tagOf, start, db0, all);
        done := start + BatchLen(start, BATCH_SIZE, pc);
        start := start + BATCH_SIZE;
        k := k + 1;
      }
      interrupted := false;
    }

    /** `create_commitment`: nothing to do for a Created commitment;
        otherwise tags the whole plot and finishes the commitment, unless a
        `remove_commitment(salt)` interleaves at `abortAt`, in which case the
        commitment is removed again and the creation fails. */
    method CreateCommitment(salt: Salt, tagOf: nat -> u64, abortAt: AbortPoint) returns (res: Outcome)
      requires Valid() && Idle()
      modifies this`statuses, this`issued, this`pieceCount, this`tagsDbs, this`finished
      ensures Valid()
      ensures pieceCount == old(pieceCount)
      ensures salt in old(statuses) && old(statuses)[salt] == Created ==>
                res == Ok && statuses == old(statuses) && issued == old(issued) &&
                tagsDbs == old(tagsDbs) && finished == old(finished)
      ensures !(salt in old(statuses) && old(statuses)[salt] == Created) && Interrupts(abortAt, old(pieceCount)) ==>
                res == Err(ABORTED_MESSAGE) &&
                statuses == old(statuses) - {salt} &&
                tagsDbs == old(tagsDbs) - {salt} && finished == old(finished) - {salt} &&
                |issued| > |old(issued)| && issued[|issued| - 1] == WriteRequest.RemoveCommitment(salt)
      ensures !(salt in old(statuses) && old(statuses)[salt] == Created) && !Interrupts(abortAt, old(pieceCount)) ==>
                res == Ok &&
                statuses == old(statuses)[salt := Created] &&
                issued == old(issued) + TagRequests(salt, tagOf, old(pieceCount), 0) + [FinishCommitmentCreation(salt)] &&
                tagsDbs - {salt} == old(tagsDbs) - {salt} &&
                DbIn(tagsDbs, salt) == TagsDb.ApplyTags(DbIn(old(tagsDbs), salt), 0, PlotTags(tagOf, 0, old(pieceCount))) &&
                finished == old(finished) + {salt}
    {
      if salt in statuses && statuses[salt] == Created {
        return Ok;
      }
      ghost var st0 := statuses;
      statuses := statuses[salt := InProgress];
      var _ := WriteBatches(salt, tagOf, abortAt);
      ghost var st1 := statuses;
      var aborted := CheckAborted(salt, abortAt == AfterBatches);
      if aborted {
        UpdateMinus(st0, salt, InProgress);
        UpdateMinus(st0[salt := InProgress], salt, Aborted);
        return Err(ABORTED_MESSAGE);
      }
      var _ := Issue(FinishCommitmentCreation(salt), true);
      aborted := CheckAborted(salt, abortAt == AfterFinish);
      if aborted {
        UpdateMinus(st0, salt, InProgress);
        SetAddMinus(old(finished), salt);
        return Err(ABORTED_MESSAGE);
      }
      statuses := statuses[salt := Created];
      UpdateTwice(st0, salt, InProgress, Created);
      res := Ok;
    }

    /** The check after the batch loop and after the finish request, after
        an interleaved removal when `removed` says one happened there: an
        Aborted commitment loses its entry and is removed. */
    method CheckAborted(salt: Salt, removed: bool) returns (aborted: bool)
      requires Valid() && Idle() && salt in statuses && (statuses[salt] == InProgress || statuses[salt] == Aborted)
      modifies this`statuses, this`issued, this`pieceCount, this`tagsDbs, this`finished
      ensures Valid()
      ensures pieceCount == old(pieceCount)
      ensures aborted <==> removed || old(statuses)[salt] == Aborted
      ensures aborted ==>
                statuses == old(statuses) - {salt} &&
                issued == old(issued) + [WriteRequest.RemoveCommitment(salt)] &&
                tagsDbs == old(tagsDbs) - {salt} && finished == old(finished) - {salt}
      ensures !aborted ==>
                statuses == old(statuses) && issued == old(issued) &&
                tagsDbs == old(tagsDbs) && finished == old(finished)
    {
      if removed {
        var _ := RemoveCommitment(salt);
      }
      if salt in statuses && statuses[salt] == Aborted {
        statuses := statuses - {salt};
        UpdateMinus(old(statuses), salt, Aborted);
        var _ := RemoveCommitment(salt);
        return true;
      }
      aborted := false;
    }

    /** `remove_commitment` of a salt without a status entry: the remove
        request is sent. */
    method RemoveUntracked(salt: Salt)
      requires Valid() && Idle() && salt !in statuses
      modifies this`statuses, this`issued, this`pieceCount, this`tagsDbs, this`finished
      ensures Valid()
      ensures statuses == old(statuses) && pieceCount == old(pieceCount)
      ensures issued == old(issued) + [WriteRequest.RemoveCommitment(salt)]
      ensures tagsDbs == old(tagsDbs) - {salt} && finished == old(finished) - {salt}
    {
      var _ := RemoveCommitment(salt);
    }

    /** Sends a remove request for each salt of `salts`, none of which has a
        status entry, in some order: `order` lists each salt once. */
    method RemoveEach(salts: set<Salt>) returns (ghost order: seq<Salt>)
      requires Valid() && Idle()
      requires forall s :: s in salts ==> s !in statuses
      modifies this`statuses, this`issued, this`pieceCount, this`tagsDbs, this`finished
      ensures Valid()
      ensures statuses == old(statuses) && pieceCount == old(pieceCount)
      ensures tagsDbs == old(tagsDbs) - salts && finished == old(finished) - salts
      ensures |order| == |salts| && forall s :: s in order <==> s in salts
      ensures issued == old(issued) + Removals(order)
    {
      order := [];
      var remaining := salts;
      while remaining != {}
        invariant Valid()
        invariant remaining <= salts
        invariant statuses == old(statuses) && pieceCount == old(pieceCount)
        invariant tagsDbs == old(tagsDbs) - (salts - remaining)
        invariant finished == old(finished) - (salts - remaining)
        invariant |order| + |remaining| == |salts|
        invariant forall s :: s in order <==> s in salts && s !in remaining
        invariant issued == old(issued) + Removals(order)
        decreases remaining
      {
        var s :| s in remaining;
        RemoveUntracked(s);
        MapMinusStep(old(tagsDbs), salts, remaining, s);
        SetMinusStep(old(finished), salts, remaining, s);
        RemovalsStep(order, s);
        AppendAssoc(old(issued), Removals(order), WriteRequest.RemoveCommitment(s));
        order := order + [s];
        remaining := remaining - {s};
      }
    }

    /** `retain_commitments`: keeps exactly the entries whose salt is listed,
        with their statuses, and sends one remove request for every dropped
        salt (in the map's order, here unspecified). */
    method RetainCommitments(salts: seq<Salt>) returns (res: Outcome, ghost order: seq<Salt>)
      requires Valid() && Idle()
      modifies this`statuses, this`issued, this`pieceCount, this`tagsDbs, this`finished
      ensures Valid()
      ensures res == Ok
      ensures pieceCount == old(pieceCount)
      ensures statuses == map s | s in old(statuses) && s in salts :: old(statuses)[s]
      ensures var dropped := set s | s in old(statuses) && s !in salts;
              && tagsDbs == old(tagsDbs) - dropped
              && finished == old(finished) - dropped
              && |order| == |dropped| && (forall s :: s in order <==> s in dropped)
              && issued == old(issued) + Removals(order)
    {
      var dropped := set s | s in statuses && s !in salts;
      statuses := map s | s in statuses && s in salts :: statuses[s];
      order := RemoveEach(dropped);
      res := Ok;
    }
  }
}
