/**
 The event ids a transaction records for its writes before it makes them, compared with the
 ids its writes then make.

 The recorded ids count from one past the length of the pending block, where the first new
 event takes the place at the length, and they are kept in a set that holds ids of one shard
 only.  So they are the ids of the smallest shard written to, each one place too far.
 */
module Prediction {
  import opened EventLog
  import opened FindValidation
  import opened Transactions
  import opened Serializability

  /** The `i`-th operation, if a write, changed the ledger. */
  predicate TookEffect(env: Env, shards: Shards, ops: seq<Op>, id: Option<TxId>, i: nat)
    requires i < |ops|
  {
    ops[i].Mutate? ==> NewIds(env, DoOps(env, shards, ops[..i], id), ops[i], id) != {}
  }

  /** How many events the operations add to shard `s`. */
  function EffectsOn(env: Env, shards: Shards, ops: seq<Op>, id: Option<TxId>, s: ShardId): nat {
    if ops == [] then 0
    else
      var before, op := ops[..|ops| - 1], ops[|ops| - 1];
      EffectsOn(env, shards, before, id, s) +
        if WritesTo(env, op, s) && NewIds(env, DoOps(env, shards, before, id), op, id) != {} then 1 else 0
  }

  function Length(sh: Shard): nat { |sh.blocks[sh.pending]| }

  /** The operations append to the pending block and nowhere else. */
  lemma {:induction false} WritesAppend(env: Env, shards: Shards, ops: seq<Op>, id: Option<TxId>, s: ShardId)
    ensures var sh := DoOps(env, shards, ops, id)[s];
            && sh.pending == shards[s].pending && sh.blocks.Keys == shards[s].blocks.Keys
            && Length(sh) == Length(shards[s]) + EffectsOn(env, shards, ops, id, s)
  {
    if ops != [] { WritesAppend(env, shards, ops[..|ops| - 1], id, s); }
  }

  /** The new events of a shard are numbered without gaps from its old length on. */
  lemma {:induction false} ProducedIs(env: Env, shards: Shards, ops: seq<Op>, id: Option<TxId>, x: EventId)
    ensures x in Produced(env, shards, ops, id) <==>
              && x.pos.block == shards[x.shard].pending
              && Length(shards[x.shard]) <= x.pos.index
              && x.pos.index < Length(shards[x.shard]) + EffectsOn(env, shards, ops, id, x.shard)
  {
    if ops != [] {
      var before, op := ops[..|ops| - 1], ops[|ops| - 1];
      ProducedIs(env, shards, before, id, x);
      if op.Mutate? { WritesAppend(env, shards, before, id, ShardOf(env, op)); }
      var now := DoOps(env, shards, before, id);
      assert x in Produced(env, shards, ops, id) <==>
        x in Produced(env, shards, before, id) || x in NewIds(env, now, op, id);
      if op.Mutate? && ApplyWrite(env, now[ShardOf(env, op)], op.w, id).1.Some? {
        assert NewIds(env, now, op, id) == {EventId(ShardOf(env, op), End(now[ShardOf(env, op)]))};
      } else {
        assert NewIds(env, now, op, id) == {};
      }
    }
  }

  lemma {:induction false} EffectsAtMostWrites(env: Env, shards: Shards, ops: seq<Op>, id: Option<TxId>, s: ShardId)
    ensures EffectsOn(env, shards, ops, id, s) <= WritesOn(env, ops, s)
  {
    if ops != [] { EffectsAtMostWrites(env, shards, ops[..|ops| - 1], id, s); }
  }

  // --------------------------------------------------- which writes will take effect

  /** The guards of `apply_write`, for an object that is there or not. */
  predicate Guard(there: bool, w: Write) {
    if there then w.kind.Remove? || w.kind.Add? || w.path != "" || w.doc.Doc?
    else w.path == "" && !w.kind.Remove? && w.doc.Doc?
  }

  /** Is the object there after the operations?  Told from their kinds, paths and documents alone. */
  predicate There(env: Env, shards: Shards, ops: seq<Op>, obj: Obj) {
    if ops == [] then Exists(env, shards, obj)
    else
      var before, op := There(env, shards, ops[..|ops| - 1], obj), ops[|ops| - 1];
      if op.Mutate? && op.w.obj == obj then !op.w.kind.Remove? && (before || Guard(before, op.w)) else before
  }

  /** The `i`-th operation, if a write, passes the guards when its turn comes. */
  predicate Expected(env: Env, shards: Shards, ops: seq<Op>, i: nat)
    requires i < |ops|
  {
    ops[i].Mutate? ==> Guard(There(env, shards, ops[..i], ops[i].w.obj), ops[i].w)
  }

  /** How many writes to shard `s` pass the guards. */
  function ExpectedOn(env: Env, shards: Shards, ops: seq<Op>, s: ShardId): nat {
    if ops == [] then 0
    else
      var n := |ops| - 1;
      ExpectedOn(env, shards, ops[..n], s) + if WritesTo(env, ops[n], s) && Expected(env, shards, ops, n) then 1 else 0
  }

  lemma {:induction false} WritesKeepOrdered(env: Env, shards: Shards, ops: seq<Op>, id: Option<TxId>)
    requires AllOrdered(shards)
    ensures AllOrdered(DoOps(env, shards, ops, id))
  {
    if ops != [] {
      var before, op := ops[..|ops| - 1], ops[|ops| - 1];
      WritesKeepOrdered(env, shards, before, id);
      if op.Mutate? { WriteKeepsOrdered(env, DoOps(env, shards, before, id)[ShardOf(env, op)], op.w, id); }
    }
  }

  /** What one write does to the existence of any object of its shard. */
  lemma ExistenceAfter(env: Env, sh: Shard, w: Write, id: Option<TxId>, obj: Obj)
    requires Ordered(sh)
    ensures var there := Current(sh, w.obj).Some?;
            && (ApplyWrite(env, sh, w, id).1.Some? <==> Guard(there, w))
            && (Current(ApplyWrite(env, sh, w, id).0, obj).Some? <==>
                if obj == w.obj then !w.kind.Remove? && (there || Guard(there, w)) else Current(sh, obj).Some?)
  {
  }

  /** The fold over the guards tells which objects are there. */
  lemma {:induction false} ThereIs(env: Env, shards: Shards, ops: seq<Op>, id: Option<TxId>, obj: Obj)
    requires AllOrdered(shards)
    ensures Exists(env, DoOps(env, shards, ops, id), obj) <==> There(env, shards, ops, obj)
  {
    if ops != [] {
      var before, op := ops[..|ops| - 1], ops[|ops| - 1];
      var now := DoOps(env, shards, before, id);
      ThereIs(env, shards, before, id, obj);
      if op.Mutate? {
        WritesKeepOrdered(env, shards, before, id);
        ExistenceAfter(env, now[ShardOf(env, op)], op.w, id, obj);
      }
    }
  }

  /** A write takes effect exactly when the guards expect it to. */
  lemma EffectIsExpected(env: Env, shards: Shards, ops: seq<Op>, id: Option<TxId>, i: nat)
    requires AllOrdered(shards) && i < |ops|
    ensures TookEffect(env, shards, ops, id, i) <==> Expected(env, shards, ops, i)
  {
    if ops[i].Mutate? {
      var w, now := ops[i].w, DoOps(env, shards, ops[..i], id);
      WritesKeepOrdered(env, shards, ops[..i], id);
      ExistenceAfter(env, now[ShardOf(env, ops[i])], w, id, w.obj);
      ThereIs(env, shards, ops[..i], id, w.obj);
    }
  }

  lemma {:induction false} EffectsAreExpected(env: Env, shards: Shards, ops: seq<Op>, id: Option<TxId>, s: ShardId)
    requires AllOrdered(shards)
    ensures EffectsOn(env, shards, ops, id, s) == ExpectedOn(env, shards, ops, s)
  {
    if ops != [] {
      EffectsAreExpected(env, shards, ops[..|ops| - 1], id, s);
      EffectIsExpected(env, shards, ops, id, |ops| - 1);
    }
  }

  // --------------------------------------------------------------------- what is recorded

  /** The smallest shard for which ids are asked. */
  ghost predicate FirstCounted(env: Env, ops: seq<Op>, s: ShardId) {
    CountOn(env, ops, s) > 0 && forall u: ShardId | u < s :: CountOn(env, ops, u) == 0
  }

  ghost predicate NoneCounted(env: Env, ops: seq<Op>, n: nat) {
    forall u: ShardId | u < n :: CountOn(env, ops, u) == 0
  }

  /** Is `x` one of the `k` indexes from `n` on, counted modulo the index space? */
  predicate InWrapped(x: nat, n: nat, k: nat) { x < 65536 && (x - n) % 65536 < k }

  predicate InPlain(x: nat, n: nat, k: nat) { n <= x < n + k }

  lemma WrappedIndex(x: nat, n: nat, i: nat)
    requires i < INDEX_SPACE
    ensures x == (n + i) % INDEX_SPACE <==> x < INDEX_SPACE && (x - n) % INDEX_SPACE == i
  {
  }

  /** The ids asked for on one shard. */
  lemma NextIdsAre(shards: Shards, s: ShardId, k: nat, x: EventId)
    requires k < INDEX_SPACE
    ensures x in NextIds(shards, s, k) <==>
              x.shard == s && x.pos.block == shards[s].pending && InWrapped(x.pos.index, Length(shards[s]) + 1, k)
  {
    var n, ids := Length(shards[s]) + 1, NextIds(shards, s, k);
    if x in ids {
      var i :| 0 <= i < k && ids[i] == x;
      WrappedIndex(x.pos.index, n, i);
    }
    if x.shard == s && x.pos.block == shards[s].pending && InWrapped(x.pos.index, n, k) {
      var i := (x.pos.index - n) % INDEX_SPACE;
      WrappedIndex(x.pos.index, n, i);
      assert ids[i] == x;
    }
  }

  lemma {:induction false} AskedAre(env: Env, shards: Shards, ops: seq<Op>, n: nat, x: EventId)
    requires n <= NUM_SHARDS
    ensures x in IdsAsked(env, shards, ops, n) <==> x.shard < n && x in NextIds(shards, x.shard, CountOn(env, ops, x.shard))
  {
    if n > 0 {
      AskedAre(env, shards, ops, n - 1, x);
      NextIdsAre(shards, n - 1, CountOn(env, ops, n - 1), x);
    }
  }

  /** The first id asked for is of the smallest shard counted. */
  lemma {:induction false} FirstAsked(env: Env, shards: Shards, ops: seq<Op>, n: nat)
    requires n <= NUM_SHARDS
    ensures IdsAsked(env, shards, ops, n) == [] <==> NoneCounted(env, ops, n)
    ensures IdsAsked(env, shards, ops, n) != [] ==> FirstCounted(env, ops, IdsAsked(env, shards, ops, n)[0].shard)
  {
    if n > 0 {
      FirstAsked(env, shards, ops, n - 1);
      assert |NextIds(shards, n - 1, CountOn(env, ops, n - 1))| == CountOn(env, ops, n - 1);
      if NoneCounted(env, ops, n - 1) && CountOn(env, ops, n - 1) > 0 {
        assert IdsAsked(env, shards, ops, n)[0] == NextId(shards, n - 1, 0);
      }
    }
  }

  /** The recorded write set: the ids asked for on the smallest shard counted, and no others. */
  lemma PredictIs(env: Env, shards: Shards, ops: seq<Op>, x: EventId)
    ensures x in Predict(env, shards, ops) <==>
              && FirstCounted(env, ops, x.shard) && x.pos.block == shards[x.shard].pending
              && InWrapped(x.pos.index, Length(shards[x.shard]) + 1, CountOn(env, ops, x.shard))
  {
    var asked := IdsAsked(env, shards, ops, NUM_SHARDS);
    FirstAsked(env, shards, ops, NUM_SHARDS);
    AskedAre(env, shards, ops, NUM_SHARDS, x);
    NextIdsAre(shards, x.shard, CountOn(env, ops, x.shard), x);
    if asked != [] { EidSetIs(asked); }
  }

  lemma FirstIsRecorded(env: Env, shards: Shards, ops: seq<Op>, s: ShardId)
    requires FirstCounted(env, ops, s)
    ensures NextId(shards, s, 0) in Predict(env, shards, ops)
  {
    PredictIs(env, shards, ops, NextId(shards, s, 0));
    WrappedIndex(NextId(shards, s, 0).pos.index, Length(shards[s]) + 1, 0);
  }

  lemma {:induction false} SomeFirstCounted(env: Env, ops: seq<Op>, s: ShardId) returns (u: ShardId)
    requires CountOn(env, ops, s) > 0
    ensures FirstCounted(env, ops, u) && u <= s
    decreases s
  {
    u := s;
    if !FirstCounted(env, ops, s) {
      var v: ShardId :| v < s && CountOn(env, ops, v) > 0;
      u := SomeFirstCounted(env, ops, v);
    }
  }

  // -------------------------------------------------------------- recorded and produced

  /** Nothing is counted and nothing will take effect. */
  ghost predicate Idle(env: Env, shards: Shards, ops: seq<Op>) {
    forall s: ShardId :: CountOn(env, ops, s) == 0 && ExpectedOn(env, shards, ops, s) == 0
  }

  /** The new events of shard `s`. */
  lemma ProducedOn(env: Env, shards: Shards, ops: seq<Op>, id: Option<TxId>, x: EventId)
    requires AllOrdered(shards)
    ensures x in Produced(env, shards, ops, id) <==>
              && x.pos.block == shards[x.shard].pending
              && InPlain(x.pos.index, Length(shards[x.shard]), ExpectedOn(env, shards, ops, x.shard))
  {
    ProducedIs(env, shards, ops, id, x);
    EffectsAreExpected(env, shards, ops, id, x.shard);
  }

  /**
   The ids recorded for a commit are the ids its writes make if and only if none is counted and
   none is made: the first recorded id is never a new event, and the first new event of the shard
   is never recorded.
   */
  lemma PredictionIsExactIff(env: Env, shards: Shards, ops: seq<Op>, id: Option<TxId>)
    requires AllOrdered(shards)
    ensures Predict(env, shards, ops) == Produced(env, shards, ops, id) <==> Idle(env, shards, ops)
  {
    if s: ShardId :| CountOn(env, ops, s) > 0 {
      var u := SomeFirstCounted(env, ops, s);
      var first, place := NextId(shards, u, 0), EventId(u, End(shards[u]));
      FirstIsRecorded(env, shards, ops, u);
      ProducedOn(env, shards, ops, id, first);
      ProducedOn(env, shards, ops, id, place);
      PredictIs(env, shards, ops, place);
    } else if s: ShardId :| ExpectedOn(env, shards, ops, s) > 0 {
      var place := EventId(s, End(shards[s]));
      ProducedOn(env, shards, ops, id, place);
      PredictIs(env, shards, ops, place);
    } else {
      forall x: EventId ensures x !in Predict(env, shards, ops) && x !in Produced(env, shards, ops, id) {
        PredictIs(env, shards, ops, x);
        ProducedOn(env, shards, ops, id, x);
      }
    }
  }

  /** The recorded ids of the shard are its new events, each one place further on. */
  ghost predicate Shifted(recorded: set<EventId>, produced: set<EventId>, s: ShardId) {
    forall x: EventId | x.shard == s :: ShiftedAt(recorded, produced, x)
  }

  ghost predicate ShiftedAt(recorded: set<EventId>, produced: set<EventId>, x: EventId) {
    x in recorded <==> x.pos.index > 0 && EventId(x.shard, Pos(x.pos.block, x.pos.index - 1)) in produced
  }

  /** All writes counted on the shard pass their guards, and no index of theirs wraps. */
  predicate Fits(env: Env, shards: Shards, ops: seq<Op>, s: ShardId) {
    ExpectedOn(env, shards, ops, s) == CountOn(env, ops, s) && Length(shards[s]) + CountOn(env, ops, s) < INDEX_SPACE
  }

  /** A stretch of indexes that wraps and one that does not agree exactly when they are as long and neither wraps. */
  lemma StretchesEqualIff(n: nat, wraps: nat, plain: nat)
    requires wraps < INDEX_SPACE
    ensures (forall x: nat :: InPlain(x, n, plain) <==> InWrapped(x, n, wraps)) <==>
            plain == wraps && (plain == 0 || n + plain <= INDEX_SPACE)
  {
    if plain == wraps && (plain == 0 || n + plain <= INDEX_SPACE) {
    } else if plain > 0 && n + plain > INDEX_SPACE {
      assert InPlain(n + plain - 1, n, plain) && !InWrapped(n + plain - 1, n, wraps);
    } else if wraps < plain {
      assert InPlain(n + wraps, n, plain) && !InWrapped(n + wraps, n, wraps);
    } else {
      var x := (n + plain) % INDEX_SPACE;
      WrappedIndex(x, n, plain);
      assert !InPlain(x, n, plain) && InWrapped(x, n, wraps);
    }
  }

  /**
   What the recorded ids are good for: on the smallest shard counted they are the new events, each
   one place too far, if and only if the writes that pass their guards are as many as the 16-bit
   count and no index wraps.
   */
  lemma PredictionIsShiftedIff(env: Env, shards: Shards, ops: seq<Op>, id: Option<TxId>, s: ShardId)
    requires AllOrdered(shards) && FirstCounted(env, ops, s)
    ensures Shifted(Predict(env, shards, ops), Produced(env, shards, ops, id), s) <==> Fits(env, shards, ops, s)
  {
    var recorded, produced := Predict(env, shards, ops), Produced(env, shards, ops, id);
    var n, k, e := Length(shards[s]) + 1, CountOn(env, ops, s), ExpectedOn(env, shards, ops, s);
    forall x: EventId | x.shard == s
      ensures ShiftedAt(recorded, produced, x) <==> x.pos.block != shards[s].pending || (InPlain(x.pos.index, n, e) <==> InWrapped(x.pos.index, n, k))
    {
      PredictIs(env, shards, ops, x);
      if x.pos.index > 0 { ProducedOn(env, shards, ops, id, EventId(s, Pos(x.pos.block, x.pos.index - 1))); }
    }
    StretchesEqualIff(n, k, e);
    if Shifted(recorded, produced, s) {
      forall i: nat ensures InPlain(i, n, e) <==> InWrapped(i, n, k) {
        assert ShiftedAt(recorded, produced, EventId(s, Pos(shards[s].pending, i)));
      }
    }
  }

  /** Ids of a second shard are forgotten. */
  lemma OtherShardsForgotten(env: Env, shards: Shards, ops: seq<Op>, s: ShardId, x: EventId)
    requires FirstCounted(env, ops, s) && x.shard != s
    ensures x !in Predict(env, shards, ops)
  {
    PredictIs(env, shards, ops, x);
  }

  lemma OneWriteCounts(env: Env, w: Write, s: ShardId)
    ensures CountOn(env, [Mutate(w)], s) == if s == env.shardOf(w.obj) then 1 else 0
    ensures env.shardOf(w.obj) == s ==> FirstCounted(env, [Mutate(w)], s)
  {
    var ops := [Mutate(w)];
    assert ops[..0] == [];
    forall u: ShardId ensures WritesOn(env, ops, u) == if u == env.shardOf(w.obj) then 1 else 0 {
      assert WritesOn(env, ops, u) == WritesOn(env, ops[..0], u) + if WritesTo(env, ops[0], u) then 1 else 0;
    }
  }

  /** Recorded for one write: the place after the next one. */
  lemma OneWriteRecords(env: Env, shards: Shards, w: Write)
    ensures Predict(env, shards, [Mutate(w)]) == {NextId(shards, env.shardOf(w.obj), 0)}
  {
    var ops, s := [Mutate(w)], env.shardOf(w.obj);
    forall u: ShardId ensures CountOn(env, ops, u) == if u == s then 1 else 0 { OneWriteCounts(env, w, u); }
    forall x: EventId ensures x in Predict(env, shards, ops) <==> x == NextId(shards, s, 0) {
      PredictIs(env, shards, ops, x);
      WrappedIndex(x.pos.index, Length(shards[x.shard]) + 1, 0);
    }
  }

  /** One put of a new object: its event is not the one recorded. */
  lemma OnePutMispredicted(env: Env, shards: Shards, obj: Obj, fields: Fields, id: Option<TxId>)
    requires !Exists(env, shards, obj)
    ensures var ops, s := [Mutate(Write(Put, obj, "", Doc(fields)))], env.shardOf(obj);
            && Produced(env, shards, ops, id) == {EventId(s, End(shards[s]))}
            && Predict(env, shards, ops) == {NextId(shards, s, 0)}
            && NextId(shards, s, 0) != EventId(s, End(shards[s]))
  {
    var w := Write(Put, obj, "", Doc(fields));
    assert [Mutate(w)][..0] == [];
    OneWriteRecords(env, shards, w);
    assert Produced(env, shards, [Mutate(w)], id) == {} + NewIds(env, shards, Mutate(w), id);
  }

  /** Removing an object that is not there: an id is recorded and none is made. */
  lemma AbsentRemovalMispredicted(env: Env, shards: Shards, obj: Obj, id: Option<TxId>)
    requires !Exists(env, shards, obj)
    ensures var ops := [Mutate(Write(Remove, obj, "", Invalid))];
            Produced(env, shards, ops, id) == {} && Predict(env, shards, ops) == {NextId(shards, env.shardOf(obj), 0)}
  {
    var w := Write(Remove, obj, "", Invalid);
    assert [Mutate(w)][..0] == [];
    OneWriteRecords(env, shards, w);
    assert Produced(env, shards, [Mutate(w)], id) == {} + NewIds(env, shards, Mutate(w), id);
  }

  // ------------------------------------------------------------ what is counted and reported

  /** Which of the first `n` operations write to an object of the shard. */
  ghost function Writers(env: Env, ops: seq<Op>, s: ShardId, n: nat): set<nat>
    requires n <= |ops|
  {
    set j: nat | j < n && ops[j].Mutate? && env.shardOf(ops[j].w.obj) == s
  }

  lemma {:induction false} WritersNext(env: Env, ops: seq<Op>, s: ShardId, n: nat)
    requires n < |ops|
    ensures |Writers(env, ops, s, n + 1)| == |Writers(env, ops, s, n)| + if ops[n].Mutate? && env.shardOf(ops[n].w.obj) == s then 1 else 0
  {
    var before, after := Writers(env, ops, s, n), Writers(env, ops, s, n + 1);
    forall j: nat ensures j in after <==> j in before || (j == n && ops[n].Mutate? && env.shardOf(ops[n].w.obj) == s) {}
    if n in after {
      assert after == before + {n};
    } else {
      assert after == before;
    }
  }

  lemma {:induction false} WritesCounted(env: Env, ops: seq<Op>, s: ShardId, n: nat)
    requires n <= |ops|
    ensures WritesOn(env, ops[..n], s) == |Writers(env, ops, s, n)|
  {
    if n > 0 {
      WritesCounted(env, ops, s, n - 1);
      WritersNext(env, ops, s, n - 1);
      assert ops[..n][..n - 1] == ops[..n - 1] && ops[..n][n - 1] == ops[n - 1];
    }
  }

  /** The writes counted on a shard are the operations that write to an object of it, and the count has 16 bits. */
  lemma WritesOnIs(env: Env, ops: seq<Op>, s: ShardId)
    ensures WritesOn(env, ops, s) == |Writers(env, ops, s, |ops|)| && CountOn(env, ops, s) == |Writers(env, ops, s, |ops|)| % 65536
  {
    WritesCounted(env, ops, s, |ops|);
    assert ops[..|ops|] == ops;
  }

  /** The operation has seen the event. */
  ghost predicate Saw(op: Op, x: EventId) {
    (op.Get? && op.eid == x) || (op.Find? && exists i :: 0 <= i < |op.results| && op.results[i].1 == x)
  }

  lemma ReadsAreSeen(op: Op, x: EventId)
    ensures x in ReadsOf(op) <==> Saw(op, x)
  {
    if op.Find? && x in ReadsOf(op) {
      var i :| 0 <= i < |ReadsOf(op)| && ReadsOf(op)[i] == x;
      assert op.results[i].1 == x;
    }
    if op.Find? && Saw(op, x) {
      var i :| 0 <= i < |op.results| && op.results[i].1 == x;
      assert ReadsOf(op)[i] == x;
    }
  }

  lemma {:induction false} AskedIsSeen(ops: seq<Op>, x: EventId)
    ensures x in ReadsAsked(ops) <==> exists j | 0 <= j < |ops| :: Saw(ops[j], x)
  {
    if ops != [] {
      var n := |ops| - 1;
      AskedIsSeen(ops[..n], x);
      ReadsAreSeen(ops[n], x);
      if j :| 0 <= j < |ops| && Saw(ops[j], x) {
        assert j < n ==> ops[..n][j] == ops[j];
      }
      if j :| 0 <= j < |ops[..n]| && Saw(ops[..n][j], x) {
        assert ops[..n][j] == ops[j];
      }
    }
  }

  /** Operation `j` is the first that has seen any event, and `f` is the first it has seen. */
  ghost predicate FirstSeen(ops: seq<Op>, j: nat, f: EventId) {
    && j < |ops| && (forall i | 0 <= i < j :: forall x :: !Saw(ops[i], x))
    && ((ops[j].Get? && ops[j].eid == f) || (ops[j].Find? && ops[j].results != [] && ops[j].results[0].1 == f))
  }

  lemma {:induction false} FirstAskedIsFirstSeen(ops: seq<Op>) returns (j: nat)
    requires ReadsAsked(ops) != []
    ensures FirstSeen(ops, j, ReadsAsked(ops)[0])
  {
    var n := |ops| - 1;
    var front := ops[..n];
    if ReadsAsked(front) != [] {
      j := FirstAskedIsFirstSeen(front);
      assert forall i | 0 <= i <= j :: front[i] == ops[i];
    } else {
      j := n;
      forall i, x | 0 <= i < n ensures !Saw(ops[i], x) {
        AskedIsSeen(front, x);
        assert front[i] == ops[i];
      }
      assert ReadsAsked(ops) == ReadsOf(ops[n]);
    }
  }

  /** The recorded read set: of the events seen, those of the shard of the first one. */
  lemma ReadSetIs(ops: seq<Op>)
    ensures (forall j, x | 0 <= j < |ops| :: !Saw(ops[j], x)) ==> ReadSet(ops) == {}
    ensures (exists j, x | 0 <= j < |ops| :: Saw(ops[j], x)) ==>
              exists j, f :: FirstSeen(ops, j, f) && forall x :: x in ReadSet(ops) <==> x.shard == f.shard && exists i | 0 <= i < |ops| :: Saw(ops[i], x)
  {
    var asked := ReadsAsked(ops);
    if asked == [] {
      forall j, x | 0 <= j < |ops| ensures !Saw(ops[j], x) { AskedIsSeen(ops, x); }
    } else {
      AskedIsSeen(ops, asked[0]);
      var j := FirstAskedIsFirstSeen(ops);
      EidSetIs(asked);
      forall x ensures x in ReadSet(ops) <==> x.shard == asked[0].shard && exists i | 0 <= i < |ops| :: Saw(ops[i], x) { AskedIsSeen(ops, x); }
      assert FirstSeen(ops, j, asked[0]);
    }
  }
}
