/**
 Runs in which what transactions record misleads: a reader that is reported older than the writer
 before it, and a query that commits with answers it no longer has.
 */
module CommitExamples {
  import opened EventLog
  import opened EventOrder
  import opened FindValidation
  import opened Transactions
  import opened Serializability
  import opened Prediction
  import opened CommitOrder
  import opened SerialRuns
  import opened TransactionManager

  // ------------------------------------------------------- a reader after a writer

  /** A transaction that puts a new object, and one that then reads an object of the same shard. */
  function Writer(env: Env, shards: Shards, b: Obj, fields: Fields, t: TxId, page: nat): Entry {
    var s := env.shardOf(b);
    Entry(Some(t), RepeatableRead, [Mutate(Write(Put, b, "", Doc(fields)))], map[s := page],
          {NextId(shards, s, 0)}, {EventId(s, End(shards[s]))})
  }

  function Reader(a: Obj, seen: EventId, u: TxId): Entry {
    Entry(Some(u), RepeatableRead, [Get(a, seen)], map[], {}, {})
  }

  lemma PutRuns(env: Env, shards: Shards, b: Obj, fields: Fields, id: Option<TxId>)
    ensures var ops, s := [Mutate(Write(Put, b, "", Doc(fields)))], env.shardOf(b);
            && DoOps(env, shards, ops, id) == shards[s := ApplyWrite(env, shards[s], ops[0].w, id).0]
            && Produced(env, shards, ops, id) == NewIds(env, shards, ops[0], id)
  {
    var ops := [Mutate(Write(Put, b, "", Doc(fields)))];
    assert ops[..0] == [];
    assert {} + NewIds(env, shards, ops[0], id) == NewIds(env, shards, ops[0], id);
  }

  lemma WriterIsLegal(env: Env, shards: Shards, b: Obj, fields: Fields, t: TxId, page: nat)
    requires !Exists(env, shards, b) && ValidKey(b.key) && Fresh(shards[env.shardOf(b)], page)
    ensures EntryLegal(env, shards, Writer(env, shards, b, fields, t, page))
    ensures WellKept(env, Writer(env, shards, b, fields, t, page))
    ensures var s := env.shardOf(b);
            RunEntry(env, shards, Writer(env, shards, b, fields, t, page))[s] ==
              Organize(env, Append(shards[s], b, Version(None, fields, INITIAL_VERSION_NO, Some(t))), page)
  {
    var e := Writer(env, shards, b, fields, t, page);
    PutRuns(env, shards, b, fields, e.id);
    OneWriteRecords(env, shards, e.ops[0].w);
    assert WritesTo(env, e.ops[0], env.shardOf(b));
  }

  /** After the put: the object itself is there, and every other one is where it was. */
  lemma AfterPut(env: Env, sh: Shard, b: Obj, e: Event, page: nat, a: Obj)
    requires Ordered(sh) && Fresh(sh, page) && e.Version? && (a == b || Current(sh, a).Some?)
    ensures var after := Organize(env, Append(sh, b, e), page);
            && Current(after, a).Some? && after.latest[a] == (if a == b then End(sh) else sh.latest[a])
  {
    var next := Append(sh, b, e);
    assert page !in next.blocks;
    if a != b { EndIsLast(sh, sh.latest[a]); }
  }

  /** A transaction of one read is legal wherever the read is valid. */
  lemma OneReadIsLegal(env: Env, shards: Shards, e: Entry)
    requires e.id.Some? && |e.ops| == 1 && !e.ops[0].Mutate? && OpValid(env, shards, e.isolation, e.ops[0])
    requires e.rot == map[] && e.recorded == {} && e.produced == {}
    ensures EntryLegal(env, shards, e) && WellKept(env, e)
  {
    assert e.ops[..0] == [];
    assert {} + NewIds(env, shards, e.ops[0], e.id) == {};
    NothingWritten(env, shards, e.ops);
  }

  lemma NothingWritten(env: Env, shards: Shards, ops: seq<Op>)
    requires forall i | 0 <= i < |ops| :: !ops[i].Mutate?
    ensures Predict(env, shards, ops) == {}
  {
    forall x | x in Predict(env, shards, ops) ensures false {
      PredictIs(env, shards, ops, x);
      NoWritesOn(env, ops, x.shard);
    }
  }

  lemma OneEntry(env: Env, init: Shards, e: Entry)
    requires EntryLegal(env, init, e) && WellKept(env, e)
    ensures IsLog(env, init, [e]) && Serial(env, init, [e]) == RunEntry(env, init, e)
  {
    EmptyIsLog(env, init);
    LogsGrowIff(env, init, [], e);
    SerialSnoc(env, init, [], e);
    assert [] + [e] == [e];
  }

  lemma NextEntry(env: Env, init: Shards, e1: Entry, e2: Entry)
    requires IsLog(env, init, [e1]) && EntryLegal(env, Serial(env, init, [e1]), e2) && WellKept(env, e2)
    requires e2.id.Some? ==> e1.id != e2.id
    ensures IsLog(env, init, [e1, e2]) && Serial(env, init, [e1, e2]) == RunEntry(env, Serial(env, init, [e1]), e2)
  {
    assert [e1] + [e2] == [e1, e2];
    LogsGrowIff(env, init, [e1], e2);
    SerialSnoc(env, init, [e1], e2);
  }

  lemma SingletonsInOrder(b1: Bounds, b2: Bounds, x: EventId, y: EventId)
    requires AreBounds(b1, {x}) && AreBounds(b2, {y}) && x.shard == y.shard && Before(y.pos, x.pos)
    ensures OrderBounds(b1, b2).NewerThan?
  {
    OneRange(b1, {x}, x.shard);
    OneRange(b2, {y}, x.shard);
    SharedDecides(b1, b2, x.shard);
  }

  /**
   In every ledger there is a run in which a transaction puts a new object and commits, then another
   one reads that object, or any older one of the shard, and commits, and the bounds of what they
   recorded say that the writer came later.
   */
  lemma LaterReaderLooksOlder(env: Env, init: Shards, a: Obj, b: Obj, fields: Fields, t: TxId, u: TxId, page: nat)
    requires AllOrdered(init) && !Exists(env, init, b) && ValidKey(b.key) && Fresh(init[env.shardOf(b)], page) && t != u
    requires a == b || (Exists(env, init, a) && env.shardOf(a) == env.shardOf(b))
    requires Length(init[env.shardOf(b)]) + 1 < INDEX_SPACE
    ensures var s := env.shardOf(b);
            var seen := EventId(s, if a == b then End(init[s]) else init[s].latest[a]);
            var log := [Writer(env, init, b, fields, t, page), Reader(a, seen, u)];
            && IsLog(env, init, log)
            && forall b1, b2 | AreBounds(b1, log[0].recorded) && AreBounds(b2, ReadSet(log[1].ops)) :: OrderBounds(b1, b2).NewerThan?
  {
    var s := env.shardOf(b);
    var seen := EventId(s, if a == b then End(init[s]) else init[s].latest[a]);
    var e1, e2 := Writer(env, init, b, fields, t, page), Reader(a, seen, u);
    WriterIsLegal(env, init, b, fields, t, page);
    AfterPut(env, init[s], b, Version(None, fields, INITIAL_VERSION_NO, Some(t)), page, a);
    OneReadIsLegal(env, RunEntry(env, init, e1), e2);
    OneEntry(env, init, e1);
    NextEntry(env, init, e1, e2);
    LooksOlder(init, s, a, seen, e1.recorded, e2.ops);
  }

  lemma LooksOlder(init: Shards, s: ShardId, a: Obj, seen: EventId, recorded: set<EventId>, ops: seq<Op>)
    requires Ordered(init[s]) && Length(init[s]) + 1 < INDEX_SPACE && seen.shard == s
    requires seen.pos == End(init[s]) || At(init[s], seen.pos).Some?
    requires recorded == {NextId(init, s, 0)} && ops == [Get(a, seen)]
    ensures forall b1, b2 | AreBounds(b1, recorded) && AreBounds(b2, ReadSet(ops)) :: OrderBounds(b1, b2).NewerThan?
  {
    OneRead(a, seen);
    if seen.pos != End(init[s]) { EndIsLast(init[s], seen.pos); }
    forall b1, b2 | AreBounds(b1, recorded) && AreBounds(b2, ReadSet(ops)) ensures OrderBounds(b1, b2).NewerThan? {
      SingletonsInOrder(b1, b2, NextId(init, s, 0), seen);
    }
  }

  lemma OneRead(a: Obj, seen: EventId)
    ensures ReadSet([Get(a, seen)]) == {seen}
  {
    var ops := [Get(a, seen)];
    assert ops[..0] == [] && ReadsAsked(ops) == [seen] && [seen][..0] == [];
    assert EidSet([]) == {} && EidSet([seen]) == {} + {seen};
  }

  // ------------------------------------------------------------------ a phantom

  function Query(c: string, q: string, k: string, x: EventId, k': string, t: TxId): Entry {
    Entry(Some(t), Serializable, [Find(c, q, [(k, x)], [k'])], map[], {}, {})
  }

  lemma DirectIsLegal(env: Env, shards: Shards, w: Write, page: nat)
    requires ValidKey(w.obj.key) && Fresh(shards[env.shardOf(w.obj)], page)
    ensures EntryLegal(env, shards, DirectEntry(env, shards, w, page)) && WellKept(env, DirectEntry(env, shards, w, page))
    ensures var s := env.shardOf(w.obj);
            RunEntry(env, shards, DirectEntry(env, shards, w, page)) ==
              shards[s := Organize(env, ApplyWrite(env, shards[s], w, None).0, page)]
  {
    var e, s := DirectEntry(env, shards, w, page), env.shardOf(w.obj);
    DirectIsWellKept(env, shards, w, page);
    DirectProduces(env, shards, w);
    SingleWrite(env, shards, e, w);
    WritesStartNoBlock(env, shards, e.ops, e.id, s);
  }

  lemma DirectProduces(env: Env, shards: Shards, w: Write)
    ensures Produced(env, shards, [Mutate(w)], None) == NewIds(env, shards, Mutate(w), None)
  {
    assert [Mutate(w)][..0] == [];
    assert {} + NewIds(env, shards, Mutate(w), None) == NewIds(env, shards, Mutate(w), None);
  }

  /** A write and the start of a block change no other object of the shard. */
  lemma OthersKept(env: Env, sh: Shard, w: Write, page: nat, o: Obj)
    requires Ordered(sh) && Fresh(sh, page) && o != w.obj
    ensures var after := Organize(env, ApplyWrite(env, sh, w, None).0, page);
            Current(after, o) == Current(sh, o) && (o in after.latest <==> o in sh.latest)
  {
    var next := ApplyWrite(env, sh, w, None).0;
    assert page !in next.blocks;
    if o in sh.latest { EndIsLast(sh, sh.latest[o]); }
  }

  lemma RemovedIsGone(env: Env, sh: Shard, o: Obj, page: nat)
    requires Ordered(sh) && Fresh(sh, page)
    ensures Current(Organize(env, ApplyWrite(env, sh, Write(Remove, o, "", Invalid), None).0, page), o).None?
  {
    assert page !in ApplyWrite(env, sh, Write(Remove, o, "", Invalid), None).0.blocks;
  }

  lemma PutIsThere(env: Env, sh: Shard, o: Obj, fields: Fields, page: nat)
    requires Fresh(sh, page) && Current(sh, o).None?
    ensures var after := Organize(env, ApplyWrite(env, sh, Write(Put, o, "", Doc(fields)), None).0, page);
            && Current(after, o).Some? && Current(after, o).value.fields == fields && after.latest[o] == End(sh)
  {
    assert page !in ApplyWrite(env, sh, Write(Put, o, "", Doc(fields)), None).0.blocks;
  }

  /** One object goes, another comes on a different shard. */
  function Removal(env: Env, init: Shards, x: Obj, page: nat): Entry {
    DirectEntry(env, init, Write(Remove, x, "", Invalid), page)
  }

  function Insertion(env: Env, shards: Shards, z: Obj, fields: Fields, page: nat): Entry {
    DirectEntry(env, shards, Write(Put, z, "", Doc(fields)), page)
  }

  function Swapped(env: Env, init: Shards, x: Obj, z: Obj, fields: Fields, p1: nat, p2: nat): Shards {
    var between := RunEntry(env, init, Removal(env, init, x, p1));
    RunEntry(env, between, Insertion(env, between, z, fields, p2))
  }

  ghost predicate CanSwap(env: Env, init: Shards, x: Obj, z: Obj, p1: nat, p2: nat) {
    && AllOrdered(init) && !Exists(env, init, z) && env.shardOf(x) != env.shardOf(z)
    && ValidKey(x.key) && ValidKey(z.key) && Fresh(init[env.shardOf(x)], p1) && Fresh(init[env.shardOf(z)], p2)
  }

  lemma SwappedIs(env: Env, init: Shards, x: Obj, z: Obj, fields: Fields, p1: nat, p2: nat, s: ShardId)
    requires CanSwap(env, init, x, z, p1, p2)
    ensures Swapped(env, init, x, z, fields, p1, p2)[s] ==
            if s == env.shardOf(x) then Organize(env, ApplyWrite(env, init[s], Write(Remove, x, "", Invalid), None).0, p1)
            else if s == env.shardOf(z) then Organize(env, ApplyWrite(env, init[s], Write(Put, z, "", Doc(fields)), None).0, p2)
            else init[s]
  {
    DirectIsLegal(env, init, Write(Remove, x, "", Invalid), p1);
    var between := RunEntry(env, init, Removal(env, init, x, p1));
    assert between[env.shardOf(z)] == init[env.shardOf(z)];
    DirectIsLegal(env, between, Write(Put, z, "", Doc(fields)), p2);
  }

  lemma SwappedCurrent(env: Env, init: Shards, x: Obj, z: Obj, fields: Fields, p1: nat, p2: nat, o: Obj)
    requires CanSwap(env, init, x, z, p1, p2)
    ensures var before, after := init[env.shardOf(o)], Swapped(env, init, x, z, fields, p1, p2)[env.shardOf(o)];
            && (o == x ==> Current(after, o).None?)
            && (o == z ==> Current(after, o).Some? && Current(after, o).value.fields == fields && after.latest[o] == End(before))
            && (o != x && o != z ==> Current(after, o) == Current(before, o))
  {
    var s := env.shardOf(o);
    SwappedIs(env, init, x, z, fields, p1, p2, s);
    if o == x {
      RemovedIsGone(env, init[s], x, p1);
    } else if o == z {
      PutIsThere(env, init[s], z, fields, p2);
    } else if s == env.shardOf(x) {
      OthersKept(env, init[s], Write(Remove, x, "", Invalid), p1, o);
    } else if s == env.shardOf(z) {
      OthersKept(env, init[s], Write(Put, z, "", Doc(fields)), p2, o);
    }
  }

  /** The one key the query answers. */
  ghost predicate OnlyKey(env: Env, shards: Shards, c: string, q: string, k: string) {
    forall k' :: IsAnswer(env, shards, c, q, k') <==> k' == k
  }

  lemma SwappedKey(env: Env, init: Shards, c: string, q: string, kx: string, kz: string, fields: Fields, p1: nat, p2: nat, k: string)
    requires CanSwap(env, init, Obj(c, kx), Obj(c, kz), p1, p2) && env.matches(q, fields)
    requires IsAnswer(env, init, c, q, k) ==> k == kx
    ensures IsAnswer(env, Swapped(env, init, Obj(c, kx), Obj(c, kz), fields, p1, p2), c, q, k) <==> k == kz
  {
    SwappedCurrent(env, init, Obj(c, kx), Obj(c, kz), fields, p1, p2, Obj(c, k));
  }

  /** If `kx` was the only answer, `kz` is now. */
  lemma SwappedAnswers(env: Env, init: Shards, c: string, q: string, kx: string, kz: string, fields: Fields, p1: nat, p2: nat)
    requires CanSwap(env, init, Obj(c, kx), Obj(c, kz), p1, p2) && env.matches(q, fields)
    requires OnlyKey(env, init, c, q, kx)
    ensures OnlyKey(env, Swapped(env, init, Obj(c, kx), Obj(c, kz), fields, p1, p2), c, q, kz)
  {
    var after := Swapped(env, init, Obj(c, kx), Obj(c, kz), fields, p1, p2);
    forall k ensures IsAnswer(env, after, c, q, k) <==> k == kz { SwappedKey(env, init, c, q, kx, kz, fields, p1, p2, k); }
  }

  lemma OnlyAnswer(env: Env, shards: Shards, c: string, q: string, k: string)
    requires OnlyKey(env, shards, c, q, k)
    ensures IsAnswer(env, shards, c, q, k) && AnswersAt(env, shards, c, q, {AnswerId(env, shards, c, k)})
  {
    assert IsAnswer(env, shards, c, q, k);
    var x := AnswerId(env, shards, c, k);
    MatchedIsAnswer(env, shards, c, q, k, x);
    forall k', x' | Matched(env, shards, c, q, k', x') ensures x' in {x} { MatchedIsAnswer(env, shards, c, q, k', x'); }
  }

  lemma QueryStillPasses(env: Env, after: Shards, c: string, q: string, kx: string, x: EventId, kz: string, t: TxId)
    requires OnlyKey(env, after, c, q, kz) && x.shard != env.shardOf(Obj(c, kz))
    ensures EntryLegal(env, after, Query(c, q, kx, x, kz, t)) && WellKept(env, Query(c, q, kx, x, kz, t))
  {
    var order, e := [kz], Query(c, q, kx, x, kz, t);
    assert IsAnswer(env, after, c, q, kz);
    var z := AnswerId(env, after, c, kz);
    assert order[1..] == [];
    assert ListAnswers(env, after, c, q, order) == [z] + ListAnswers(env, after, c, q, []);
    assert [z] + [] == [z] && RecordedIds([(kx, x)]) == [x];
    PhantomAccepted(x, z);
    OneReadIsLegal(env, after, e);
  }

  /** After any log that leaves the query one answer, a transaction that recorded one of another shard commits. */
  lemma WrongQueryCommits(env: Env, init: Shards, log: seq<Entry>, c: string, q: string, kx: string, x: EventId, kz: string, t: TxId)
    requires IsLog(env, init, log) && t !in Logged(log)
    requires OnlyKey(env, Serial(env, init, log), c, q, kz) && x.shard != env.shardOf(Obj(c, kz))
    ensures IsLog(env, init, log + [Query(c, q, kx, x, kz, t)])
  {
    QueryStillPasses(env, Serial(env, init, log), c, q, kx, x, kz, t);
    LogsGrowIff(env, init, log, Query(c, q, kx, x, kz, t));
  }

  function SwapLog(env: Env, init: Shards, x: Obj, z: Obj, fields: Fields, p1: nat, p2: nat): seq<Entry> {
    var removal := Removal(env, init, x, p1);
    [removal, Insertion(env, RunEntry(env, init, removal), z, fields, p2)]
  }

  lemma TwoOutside(env: Env, init: Shards, e1: Entry, e2: Entry)
    requires EntryLegal(env, init, e1) && WellKept(env, e1) && EntryLegal(env, RunEntry(env, init, e1), e2) && WellKept(env, e2)
    requires e1.id.None? && e2.id.None?
    ensures IsLog(env, init, [e1, e2])
    ensures Serial(env, init, [e1, e2]) == RunEntry(env, RunEntry(env, init, e1), e2)
  {
    OneEntry(env, init, e1);
    NextEntry(env, init, e1, e2);
  }

  lemma SwapIsLegal(env: Env, init: Shards, x: Obj, z: Obj, fields: Fields, p1: nat, p2: nat)
    requires CanSwap(env, init, x, z, p1, p2)
    ensures var removal := Removal(env, init, x, p1);
            var insertion := Insertion(env, RunEntry(env, init, removal), z, fields, p2);
            && EntryLegal(env, init, removal) && WellKept(env, removal)
            && EntryLegal(env, RunEntry(env, init, removal), insertion) && WellKept(env, insertion)
  {
    DirectIsLegal(env, init, Write(Remove, x, "", Invalid), p1);
    var between := RunEntry(env, init, Removal(env, init, x, p1));
    assert between[env.shardOf(z)] == init[env.shardOf(z)];
    DirectIsLegal(env, between, Write(Put, z, "", Doc(fields)), p2);
  }

  lemma SwapHasNoTransaction(env: Env, init: Shards, x: Obj, z: Obj, fields: Fields, p1: nat, p2: nat)
    ensures Logged(SwapLog(env, init, x, z, fields, p1, p2)) == {}
  {
  }

  lemma SwapIsLog(env: Env, init: Shards, x: Obj, z: Obj, fields: Fields, p1: nat, p2: nat)
    requires CanSwap(env, init, x, z, p1, p2)
    ensures var log := SwapLog(env, init, x, z, fields, p1, p2);
            IsLog(env, init, log) && Serial(env, init, log) == Swapped(env, init, x, z, fields, p1, p2)
  {
    var removal := Removal(env, init, x, p1);
    SwapIsLegal(env, init, x, z, fields, p1, p2);
    TwoOutside(env, init, removal, Insertion(env, RunEntry(env, init, removal), z, fields, p2));
  }

  /**
   A run with a phantom: the query's one answer, recorded by a serializable transaction, is removed
   and another object that matches is put on another shard; then the transaction commits, although
   its answer is gone and the only answer at its place in the serial order was never seen.
   */
  lemma PhantomCommitted(env: Env, init: Shards, c: string, q: string, kx: string, kz: string, fields: Fields, t: TxId, p1: nat, p2: nat)
    requires CanSwap(env, init, Obj(c, kx), Obj(c, kz), p1, p2) && env.matches(q, fields)
    requires OnlyKey(env, init, c, q, kx) && IsAnswer(env, init, c, q, kx)
    ensures var x, z := AnswerId(env, init, c, kx), EventId(env.shardOf(Obj(c, kz)), End(init[env.shardOf(Obj(c, kz))]));
            var swap := SwapLog(env, init, Obj(c, kx), Obj(c, kz), fields, p1, p2);
            && AnswersAt(env, init, c, q, {x})
            && IsLog(env, init, swap + [Query(c, q, kx, x, kz, t)])
            && AnswersAt(env, Serial(env, init, swap), c, q, {z}) && x != z
  {
    var x, after := AnswerId(env, init, c, kx), Swapped(env, init, Obj(c, kx), Obj(c, kz), fields, p1, p2);
    SwapIsLog(env, init, Obj(c, kx), Obj(c, kz), fields, p1, p2);
    SwapHasNoTransaction(env, init, Obj(c, kx), Obj(c, kz), fields, p1, p2);
    SwappedAnswers(env, init, c, q, kx, kz, fields, p1, p2);
    WrongQueryCommits(env, init, SwapLog(env, init, Obj(c, kx), Obj(c, kz), fields, p1, p2), c, q, kx, x, kz, t);
    SwappedCurrent(env, init, Obj(c, kx), Obj(c, kz), fields, p1, p2, Obj(c, kz));
    OnlyAnswer(env, init, c, q, kx);
    OnlyAnswer(env, after, c, q, kz);
  }
}
