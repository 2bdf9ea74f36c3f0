/** Writing a batch to table storage: entities grouped by table, partition and transaction type, and sent in chunks. */
module TableStorage {
  import opened Json

  datatype Key = Key(table: string, partition: string, kind: string)

  datatype Entity = Entity(row: string, properties: map<string, Value>)

  datatype Request = Request(key: Key, entity: Entity)

  datatype Transaction = Transaction(key: Key, entities: seq<Entity>)

  datatype Action = Add | InsertMerge | InsertReplace | UpdateMerge | UpdateReplace | Delete

  /** A call of the storage service. */
  datatype Call = Submitted(t: Transaction, action: Action) | Created(table: string)

  datatype Answer = Accepted | TableNotFound | Refused

  /** The storage service: its answer to each call, by number, and which entities can be encoded. */
  datatype Service = Service(submit: nat -> Answer, create: nat -> bool, encodes: Entity -> bool)

  function ActionOf(kind: string): Option<Action> {
    match kind
    case "INSERT" => Some(Add)
    case "INSERT_MERGE" => Some(InsertMerge)
    case "INSERT_REPLACE" => Some(InsertReplace)
    case "UPDATE_MERGE" => Some(UpdateMerge)
    case "UPDATE_REPLACE" => Some(UpdateReplace)
    case "DELETE" => Some(Delete)
    case _ => None
  }

  // ----- groups and chunks

  /** The entities for one key, in message order. */
  function Select(reqs: seq<Request>, key: Key): seq<Entity> {
    if reqs == [] then []
    else
      var last := reqs[|reqs| - 1];
      Select(reqs[..|reqs| - 1], key) + if last.key == key then [last.entity] else []
  }

  function Concat(chunks: seq<seq<Entity>>): seq<Entity> {
    if chunks == [] then [] else Concat(chunks[..|chunks| - 1]) + chunks[|chunks| - 1]
  }

  /** The transactions of a log for one key. */
  function For(log: seq<Transaction>, key: Key): seq<seq<Entity>> {
    if log == [] then []
    else
      var last := log[|log| - 1];
      For(log[..|log| - 1], key) + if last.key == key then [last.entities] else []
  }

  ghost predicate AllFull(chunks: seq<seq<Entity>>) {
    forall i :: 0 <= i < |chunks| ==> |chunks[i]| == 100
  }

  /** The entities of a group in chunks of 100, the last one of at least 1 and at most 100. */
  ghost predicate Chunked(chunks: seq<seq<Entity>>, xs: seq<Entity>) {
    && Concat(chunks) == xs
    && (chunks == [] || (AllFull(chunks[..|chunks| - 1]) && 1 <= |chunks[|chunks| - 1]| <= 100))
  }

  /** The first of these chunks, or all of them. */
  ghost predicate Begun(chunks: seq<seq<Entity>>, xs: seq<Entity>) {
    Chunked(chunks, xs) || (AllFull(chunks) && Concat(chunks) <= xs)
  }

  lemma ChunkMore(chunks: seq<seq<Entity>>, chunk: seq<Entity>)
    ensures Concat(chunks + [chunk]) == Concat(chunks) + chunk
    ensures AllFull(chunks) && 1 <= |chunk| <= 100 ==> Chunked(chunks + [chunk], Concat(chunks) + chunk)
    ensures AllFull(chunks) && |chunk| == 100 ==> AllFull(chunks + [chunk])
  {
    assert (chunks + [chunk])[..|chunks|] == chunks;
  }

  lemma OneMore(log: seq<Transaction>, t: Transaction, key: Key)
    ensures For(log + [t], key) == if t.key == key then For(log, key) + [t.entities] else For(log, key)
  {
    assert (log + [t])[..|log|] == log;
  }

  // ----- writing

  /** The transactions the service has accepted, in order. */
  ghost function Log(s: Service, calls: seq<Call>): seq<Transaction> {
    if calls == [] then []
    else
      var n := |calls| - 1;
      Log(s, calls[..n]) + if calls[n].Submitted? && s.submit(n) == Accepted then [calls[n].t] else []
  }

  /** What a transaction type says to do. */
  ghost predicate Says(kind: string, action: Action) {
    match action
    case Add => kind == "INSERT"
    case InsertMerge => kind == "INSERT_MERGE"
    case InsertReplace => kind == "INSERT_REPLACE"
    case UpdateMerge => kind == "UPDATE_MERGE"
    case UpdateReplace => kind == "UPDATE_REPLACE"
    case Delete => kind == "DELETE"
  }

  lemma ActionIff(kind: string)
    ensures forall action :: ActionOf(kind) == Some(action) <==> Says(kind, action)
    ensures ActionOf(kind).None? <==> forall action :: !Says(kind, action)
  {
  }

  /** A submission does what its type says; a table is created only after a submission did not find it. */
  ghost predicate Proper(s: Service, calls: seq<Call>, i: nat)
    requires i < |calls|
  {
    match calls[i]
    case Submitted(t, action) => Says(t.key.kind, action)
    case Created(table) => i > 0 && calls[i - 1].Submitted? && calls[i - 1].t.key.table == table && s.submit(i - 1) == TableNotFound
  }

  ghost predicate AllProper(s: Service, calls: seq<Call>) {
    forall i :: 0 <= i < |calls| ==> Proper(s, calls, i)
  }

  /** The last call was a submission that was not accepted, or a creation that failed. */
  ghost predicate LastFailed(s: Service, calls: seq<Call>) {
    calls != [] &&
    var n := |calls| - 1;
    if calls[n].Submitted? then s.submit(n) != Accepted else !s.create(n)
  }

  lemma CallMore(s: Service, calls: seq<Call>, call: Call)
    ensures Log(s, calls + [call]) ==
            Log(s, calls) + if call.Submitted? && s.submit(|calls|) == Accepted then [call.t] else []
    ensures AllProper(s, calls) && Proper(s, calls + [call], |calls|) ==> AllProper(s, calls + [call])
  {
    var more := calls + [call];
    assert more[..|calls|] == calls;
    if AllProper(s, calls) && Proper(s, more, |calls|) {
      forall i | 0 <= i < |more| ensures Proper(s, more, i) {
        if i < |calls| {
          assert Proper(s, calls, i);
        }
      }
    }
  }

  /**
   * Submits a transaction, creating the table and submitting again when the table is not found. The
   * transaction is then accepted exactly once, or the last call has failed and it is not accepted.
   */
  method Submit(s: Service, calls: seq<Call>, t: Transaction, action: Action) returns (ok: bool, after: seq<Call>)
    requires AllProper(s, calls) && Says(t.key.kind, action)
    ensures var n, sent := |calls|, Submitted(t, action);
            after == if s.submit(n) != TableNotFound then calls + [sent]
                     else if !s.create(n + 1) then calls + [sent] + [Created(t.key.table)]
                     else calls + [sent] + [Created(t.key.table)] + [sent]
    ensures AllProper(s, after)
    ensures Log(s, after) == if ok then Log(s, calls) + [t] else Log(s, calls)
    ensures !ok ==> LastFailed(s, after)
  {
    var n, sent, made := |calls|, Submitted(t, action), Created(t.key.table);
    var first := calls + [sent];
    CallMore(s, calls, sent);
    assert first[n] == sent;
    if s.submit(n) != TableNotFound {
      return s.submit(n) == Accepted, first;
    }
    var second := first + [made];
    CallMore(s, first, made);
    assert second[n] == sent && second[n + 1] == made;
    if !s.create(n + 1) {
      return false, second;
    }
    after := second + [sent];
    CallMore(s, second, sent);
    assert after[n + 2] == sent;
    ok := s.submit(n + 2) == Accepted;
  }

  /** Nothing has changed for other keys. */
  ghost predicate Others(before: seq<Transaction>, log: seq<Transaction>, key: Key) {
    forall k :: k != key ==> For(log, k) == For(before, k)
  }

  lemma OthersStay(before: seq<Transaction>, log: seq<Transaction>, t: Transaction)
    requires Others(before, log, t.key)
    ensures Others(before, log + [t], t.key)
  {
    forall k | k != t.key ensures For(log + [t], k) == For(before, k) {
      OneMore(log, t, k);
    }
  }

  /** A group that cannot be turned into transactions: of no known type, or with an entity that cannot be encoded. */
  ghost predicate Blocked(s: Service, key: Key, xs: seq<Entity>) {
    xs != [] && ((forall action :: !Says(key.kind, action)) || exists x :: x in xs && !s.encodes(x))
  }

  /** The reason for giving up. */
  ghost predicate Reason(s: Service, key: Key, xs: seq<Entity>, calls: seq<Call>) {
    Blocked(s, key, xs) || LastFailed(s, calls)
  }

  /** Where the loop over a group stands: the chunks written and the batch collected are the entities up to position i. */
  ghost predicate Collected(chunks: seq<seq<Entity>>, batch: seq<Entity>, xs: seq<Entity>, i: nat) {
    && i <= |xs| && Concat(chunks) + batch == xs[..i]
    && if i == |xs| then batch == [] && Chunked(chunks, xs) else AllFull(chunks) && |batch| == i % 100
  }

  lemma CollectedIsBegun(chunks: seq<seq<Entity>>, batch: seq<Entity>, xs: seq<Entity>, i: nat)
    requires Collected(chunks, batch, xs, i)
    ensures Begun(chunks, xs) && (i == |xs| ==> Chunked(chunks, xs))
  {
    if i < |xs| {
      assert Concat(chunks) == xs[..i][..|Concat(chunks)|];
    }
  }

  lemma CollectOne(chunks: seq<seq<Entity>>, batch: seq<Entity>, xs: seq<Entity>, i: nat)
    requires i < |xs| && Collected(chunks, batch, xs, i)
    ensures Concat(chunks) + (batch + [xs[i]]) == xs[..i + 1] && |batch + [xs[i]]| == i % 100 + 1
    ensures (i + 1) % 100 != 0 && i + 1 < |xs| ==> Collected(chunks, batch + [xs[i]], xs, i + 1)
  {
    assert xs[..i + 1] == xs[..i] + [xs[i]];
  }

  lemma CollectChunk(chunks: seq<seq<Entity>>, batch: seq<Entity>, xs: seq<Entity>, i: nat)
    requires i < |xs| && Collected(chunks, batch, xs, i) && ((i + 1) % 100 == 0 || i + 1 == |xs|)
    ensures Collected(chunks + [batch + [xs[i]]], [], xs, i + 1)
  {
    var chunk := batch + [xs[i]];
    CollectOne(chunks, batch, xs, i);
    ChunkMore(chunks, chunk);
    assert Concat(chunks + [chunk]) + [] == xs[..i + 1];
    assert i + 1 == |xs| ==> xs[..i + 1] == xs;
  }

  /** The group of the key has the given chunks in the log, and other groups have what they had. */
  ghost predicate Stands(s: Service, base: seq<Transaction>, calls: seq<Call>, key: Key, chunks: seq<seq<Entity>>) {
    AllProper(s, calls) && For(Log(s, calls), key) == chunks && Others(base, Log(s, calls), key)
  }

  method SendChunk(s: Service, calls: seq<Call>, t: Transaction, action: Action, ghost base: seq<Transaction>,
                   ghost chunks: seq<seq<Entity>>)
    returns (ok: bool, after: seq<Call>)
    requires Stands(s, base, calls, t.key, chunks) && Says(t.key.kind, action)
    ensures Stands(s, base, after, t.key, if ok then chunks + [t.entities] else chunks)
    ensures !ok ==> LastFailed(s, after)
  {
    ok, after := Submit(s, calls, t, action);
    OneMore(Log(s, calls), t, t.key);
    OthersStay(base, Log(s, calls), t);
  }

  /** All entities before position i can go into transactions of the key. */
  ghost predicate Sendable(s: Service, key: Key, xs: seq<Entity>, i: nat) {
    i <= |xs| && (i > 0 ==> ActionOf(key.kind).Some?) && forall j :: 0 <= j < i ==> s.encodes(xs[j])
  }

  lemma SendableIff(s: Service, key: Key, xs: seq<Entity>)
    ensures Sendable(s, key, xs, |xs|) <==> !Blocked(s, key, xs)
  {
    ActionIff(key.kind);
  }

  lemma NotSendable(s: Service, key: Key, xs: seq<Entity>, i: nat)
    requires i < |xs| && (ActionOf(key.kind).None? || !s.encodes(xs[i]))
    ensures Blocked(s, key, xs)
  {
    ActionIff(key.kind);
  }

  /** What a group leaves behind. */
  ghost predicate Wrote(s: Service, base: seq<Transaction>, calls: seq<Call>, key: Key, xs: seq<Entity>) {
    AllProper(s, calls) && Others(base, Log(s, calls), key) && Begun(For(Log(s, calls), key), xs)
  }

  lemma StandsWrote(s: Service, base: seq<Transaction>, calls: seq<Call>, key: Key, chunks: seq<seq<Entity>>, batch: seq<Entity>,
                    xs: seq<Entity>, i: nat)
    requires Stands(s, base, calls, key, chunks) && Collected(chunks, batch, xs, i)
    ensures Wrote(s, base, calls, key, xs) && (i == |xs| ==> Chunked(For(Log(s, calls), key), xs))
  {
    CollectedIsBegun(chunks, batch, xs, i);
  }

  /** Takes in one more entity, and sends the batch if it is full or the last. */
  method Take(s: Service, calls: seq<Call>, key: Key, action: Action, batch: seq<Entity>, xs: seq<Entity>, i: nat,
              ghost base: seq<Transaction>, ghost chunks: seq<seq<Entity>>)
    returns (ok: bool, after: seq<Call>, rest: seq<Entity>, ghost more: seq<seq<Entity>>)
    requires i < |xs| && Stands(s, base, calls, key, chunks) && Collected(chunks, batch, xs, i) && Says(key.kind, action)
    ensures ok ==> Stands(s, base, after, key, more) && Collected(more, rest, xs, i + 1)
    ensures !ok ==> Stands(s, base, after, key, chunks) && LastFailed(s, after)
  {
    var full := batch + [xs[i]];
    CollectOne(chunks, batch, xs, i);
    if (i + 1) % 100 != 0 && i + 1 != |xs| {
      return true, calls, full, chunks;
    }
    CollectChunk(chunks, batch, xs, i);
    ok, after := SendChunk(s, calls, Transaction(key, full), action, base, chunks);
    rest, more := [], chunks + [full];
  }

  method WriteGroup(s: Service, key: Key, xs: seq<Entity>, calls: seq<Call>) returns (ok: bool, after: seq<Call>)
    requires For(Log(s, calls), key) == [] && AllProper(s, calls)
    ensures Wrote(s, Log(s, calls), after, key, xs)
    ensures ok ==> Chunked(For(Log(s, after), key), xs) && !Blocked(s, key, xs)
    ensures !ok ==> Reason(s, key, xs, after)
  {
    after := calls;
    var batch: seq<Entity> := [];
    ghost var base, chunks: seq<seq<Entity>> := Log(s, calls), [];
    var action := ActionOf(key.kind);
    ActionIff(key.kind);
    for i := 0 to |xs|
      invariant Stands(s, base, after, key, chunks) && Collected(chunks, batch, xs, i) && Sendable(s, key, xs, i)
    {
      StandsWrote(s, base, after, key, chunks, batch, xs, i);
      if action.None? || !s.encodes(xs[i]) {
        NotSendable(s, key, xs, i);
        return false, after;
      }
      ghost var held, before := batch, chunks;
      ok, after, batch, chunks := Take(s, after, key, action.value, batch, xs, i, base, chunks);
      if !ok {
        StandsWrote(s, base, after, key, before, held, xs, i);
        return;
      }
    }
    StandsWrote(s, base, after, key, chunks, batch, xs, |xs|);
    SendableIff(s, key, xs);
    ok := true;
  }

  type Groups = map<Key, seq<Entity>>

  ghost predicate Grouped(groups: Groups, reqs: seq<Request>) {
    forall k :: Select(reqs, k) == if k in groups then groups[k] else []
  }

  lemma GroupedOneMore(groups: Groups, reqs: seq<Request>, req: Request)
    requires Grouped(groups, reqs)
    ensures var xs := if req.key in groups then groups[req.key] else [];
            Grouped(groups[req.key := xs + [req.entity]], reqs + [req])
  {
    var xs := if req.key in groups then groups[req.key] else [];
    var after, more := groups[req.key := xs + [req.entity]], reqs + [req];
    assert more[..|reqs|] == reqs;
    forall k ensures Select(more, k) == if k in after then after[k] else [] {
      assert Select(reqs, k) == if k in groups then groups[k] else [];
    }
  }

  /** The groups not in left are in the log, those in left are not. */
  ghost predicate Progress(groups: Groups, left: set<Key>, log: seq<Transaction>) {
    forall k :: if k in groups && k !in left then Chunked(For(log, k), groups[k]) else For(log, k) == []
  }

  lemma ProgressOneMore(groups: Groups, left: set<Key>, key: Key, log: seq<Transaction>, after: seq<Transaction>)
    requires Progress(groups, left, log) && key in left && key in groups
    requires Others(log, after, key) && Chunked(For(after, key), groups[key])
    ensures Progress(groups, left - {key}, after)
  {
    forall k ensures if k in groups && k !in left - {key} then Chunked(For(after, k), groups[k]) else For(after, k) == [] {
      assert if k in groups && k !in left then Chunked(For(log, k), groups[k]) else For(log, k) == [];
    }
  }

  /** Every key has the first of its chunks in the log, in order. */
  ghost predicate Started(reqs: seq<Request>, log: seq<Transaction>) {
    forall k :: Begun(For(log, k), Select(reqs, k))
  }

  /** Every key has exactly its chunks in the log, in order. */
  ghost predicate Complete(reqs: seq<Request>, log: seq<Transaction>) {
    forall k :: Chunked(For(log, k), Select(reqs, k))
  }

  lemma NoneBegun(xs: seq<Entity>)
    ensures Begun([], xs) && (xs == [] ==> Chunked([], xs))
  {
  }

  lemma StoppedIn(groups: Groups, reqs: seq<Request>, left: set<Key>, key: Key, log: seq<Transaction>, after: seq<Transaction>)
    requires Grouped(groups, reqs) && Progress(groups, left, log) && key in left && key in groups
    requires Others(log, after, key) && Begun(For(after, key), groups[key])
    ensures Started(reqs, after)
  {
    forall k ensures Begun(For(after, k), Select(reqs, k)) {
      assert if k in groups && k !in left then Chunked(For(log, k), groups[k]) else For(log, k) == [];
      assert Select(reqs, k) == if k in groups then groups[k] else [];
      NoneBegun(Select(reqs, k));
    }
  }

  lemma AllWritten(groups: Groups, reqs: seq<Request>, log: seq<Transaction>)
    requires Grouped(groups, reqs) && Progress(groups, {}, log)
    ensures Started(reqs, log) && Complete(reqs, log)
  {
    forall k ensures Chunked(For(log, k), Select(reqs, k)) {
      assert if k in groups then Chunked(For(log, k), groups[k]) else For(log, k) == [];
      assert Select(reqs, k) == if k in groups then groups[k] else [];
      NoneBegun(Select(reqs, k));
    }
  }

  /** Writes the groups in any order. */
  method WriteGroups(s: Service, groups: Groups, ghost reqs: seq<Request>) returns (ok: bool, calls: seq<Call>)
    requires Grouped(groups, reqs)
    ensures AllProper(s, calls) && Started(reqs, Log(s, calls)) && (ok ==> Complete(reqs, Log(s, calls)))
    ensures ok ==> forall k :: !Blocked(s, k, Select(reqs, k))
    ensures !ok ==> exists k :: Reason(s, k, Select(reqs, k), calls)
  {
    calls := [];
    var left := groups.Keys;
    while left != {}
      invariant left <= groups.Keys && AllProper(s, calls) && Progress(groups, left, Log(s, calls))
      invariant forall k :: k in groups && k !in left ==> !Blocked(s, k, groups[k])
      decreases left
    {
      var key :| key in left;
      assert For(Log(s, calls), key) == [];
      var after;
      ok, after := WriteGroup(s, key, groups[key], calls);
      assert Select(reqs, key) == groups[key];
      if !ok {
        StoppedIn(groups, reqs, left, key, Log(s, calls), Log(s, after));
        assert Reason(s, key, Select(reqs, key), after);
        return ok, after;
      }
      ProgressOneMore(groups, left, key, Log(s, calls), Log(s, after));
      left, calls := left - {key}, after;
    }
    AllWritten(groups, reqs, Log(s, calls));
    forall k ensures !Blocked(s, k, Select(reqs, k)) {
      assert Select(reqs, k) == if k in groups then groups[k] else [];
    }
    ok := true;
  }

  /** The requests of a batch, None when a message cannot be turned into one. */
  function Requests(batch: seq<Option<Request>>): Option<seq<Request>> {
    if batch == [] then Some([])
    else
      var init, last := Requests(batch[..|batch| - 1]), batch[|batch| - 1];
      if init.None? || last.None? then None else Some(init.value + [last.value])
  }

  /** A batch has requests exactly when every message has one: those, in order. */
  lemma {:induction false} RequestsAre(batch: seq<Option<Request>>)
    ensures Requests(batch).Some? <==> forall i :: 0 <= i < |batch| ==> batch[i].Some?
    ensures Requests(batch).Some? ==>
              |Requests(batch).value| == |batch| && forall i :: 0 <= i < |batch| ==> batch[i] == Some(Requests(batch).value[i])
  {
    if batch != [] {
      var init := batch[..|batch| - 1];
      RequestsAre(init);
      assert forall i :: 0 <= i < |init| ==> init[i] == batch[i];
    }
  }

  method WriteBatch(s: Service, batch: seq<Option<Request>>) returns (ok: bool, calls: seq<Call>)
    ensures var reqs := Requests(batch);
            if reqs.None? then !ok && calls == []
            else
              && AllProper(s, calls) && Started(reqs.value, Log(s, calls))
              && (ok ==> Complete(reqs.value, Log(s, calls)) && forall k :: !Blocked(s, k, Select(reqs.value, k)))
              && (!ok ==> exists k :: Reason(s, k, Select(reqs.value, k), calls))
  {
    var groups: Groups := map[];
    var failed := false;
    ghost var reqs: seq<Request> := [];
    for i := 0 to |batch|
      invariant failed <==> Requests(batch[..i]).None?
      invariant !failed ==> Requests(batch[..i]) == Some(reqs) && Grouped(groups, reqs)
    {
      assert batch[..i + 1][..i] == batch[..i];
      match batch[i]
      case None =>
        failed := true;
      case Some(req) =>
        if !failed {
          GroupedOneMore(groups, reqs, req);
        }
        var xs := if req.key in groups then groups[req.key] else [];
        groups := groups[req.key := xs + [req.entity]];
        reqs := reqs + [req];
    }
    assert batch[..|batch|] == batch;
    if failed {
      return false, [];
    }
    ok, calls := WriteGroups(s, groups, reqs);
  }

  // ----- conservation

  function Tagged(key: Key, xs: seq<Entity>): seq<Request> {
    seq(|xs|, i requires 0 <= i < |xs| => Request(key, xs[i]))
  }

  /** The requests a log has carried out. */
  function Flatten(log: seq<Transaction>): seq<Request> {
    if log == [] then []
    else
      var last := log[|log| - 1];
      Flatten(log[..|log| - 1]) + Tagged(last.key, last.entities)
  }

  lemma {:induction false} SelectCounts(reqs: seq<Request>, req: Request)
    ensures multiset(Select(reqs, req.key))[req.entity] == multiset(reqs)[req]
  {
    if reqs != [] {
      var init, last := reqs[..|reqs| - 1], reqs[|reqs| - 1];
      SelectCounts(init, req);
      assert reqs == init + [last];
    }
  }

  lemma {:induction false} SelectAppend(a: seq<Request>, key: Key, xs: seq<Entity>, k: Key)
    ensures Select(a + Tagged(key, xs), k) ==
            if k == key then Select(a, k) + xs else Select(a, k)
  {
    var all := a + Tagged(key, xs);
    if xs == [] {
      assert all == a;
    } else {
      var init := xs[..|xs| - 1];
      SelectAppend(a, key, init, k);
      assert all[..|all| - 1] == a + Tagged(key, init);
    }
  }

  lemma {:induction false} FlattenSelect(log: seq<Transaction>, k: Key)
    ensures Select(Flatten(log), k) == Concat(For(log, k))
  {
    if log != [] {
      var init, last := log[..|log| - 1], log[|log| - 1];
      FlattenSelect(init, k);
      SelectAppend(Flatten(init), last.key, last.entities, k);
      OneMore(init, last, k);
      assert log == init + [last];
    }
  }

  /**
   * When everything is written, each message's entity is in exactly one transaction, under its own
   * key and in message order within the key, and every transaction has 1 to 100 entities.
   */
  lemma Conserved(reqs: seq<Request>, log: seq<Transaction>)
    requires Complete(reqs, log)
    ensures multiset(Flatten(log)) == multiset(reqs)
    ensures forall k :: Select(Flatten(log), k) == Select(reqs, k)
    ensures forall t :: t in log ==> 1 <= |t.entities| <= 100
  {
    forall k ensures Select(Flatten(log), k) == Select(reqs, k) {
      FlattenSelect(log, k);
    }
    forall req ensures multiset(Flatten(log))[req] == multiset(reqs)[req] {
      SelectCounts(Flatten(log), req);
      SelectCounts(reqs, req);
    }
    forall t | t in log ensures 1 <= |t.entities| <= 100 {
      InFor(log, t);
      ChunkSizes(For(log, t.key), Select(reqs, t.key), t.entities);
    }
  }

  lemma ChunkSizes(chunks: seq<seq<Entity>>, xs: seq<Entity>, chunk: seq<Entity>)
    requires Chunked(chunks, xs) && chunk in chunks
    ensures 1 <= |chunk| <= 100
  {
    var i :| 0 <= i < |chunks| && chunks[i] == chunk;
    assert i < |chunks| - 1 ==> chunks[..|chunks| - 1][i] == chunk;
  }

  lemma {:induction false} InFor(log: seq<Transaction>, t: Transaction)
    requires t in log
    ensures t.entities in For(log, t.key)
  {
    if t in log[..|log| - 1] {
      InFor(log[..|log| - 1], t);
    }
  }
}
