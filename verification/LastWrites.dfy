/**
 What a run leaves of an object: the last write to it in commit order decides, whichever
 transactions ran in between and however they were interleaved.
 */
module LastWrites {
  import opened EventLog
  import opened Transactions
  import opened Serializability
  import opened Prediction
  import opened CommitOrder

  /** The operation does not write to the object. */
  predicate Spares(op: Op, obj: Obj) {
    op.Mutate? ==> op.w.obj != obj
  }

  ghost predicate AllSpare(ops: seq<Op>, obj: Obj) {
    forall k | 0 <= k < |ops| :: Spares(ops[k], obj)
  }

  /** The object's present version, if it has one. */
  function NowIn(env: Env, shards: Shards, obj: Obj): Option<Event> {
    Current(shards[env.shardOf(obj)], obj)
  }

  lemma OpSpares(env: Env, shards: Shards, op: Op, id: Option<TxId>, obj: Obj)
    requires AllOrdered(shards) && Spares(op, obj)
    ensures NowIn(env, DoOp(env, shards, op, id), obj) == NowIn(env, shards, obj)
  {
    if op.Mutate? {
      var s := env.shardOf(op.w.obj);
      assert Ordered(shards[s]);
      WriteEffect(env, shards[s], op.w, id);
    }
  }

  lemma {:induction false} OpsSpare(env: Env, shards: Shards, ops: seq<Op>, id: Option<TxId>, from: nat, obj: Obj)
    requires AllOrdered(shards) && from <= |ops| && AllSpare(ops[from..], obj)
    ensures NowIn(env, DoOps(env, shards, ops, id), obj) == NowIn(env, DoOps(env, shards, ops[..from], id), obj)
    decreases |ops|
  {
    if from == |ops| {
      assert ops[..from] == ops;
    } else {
      var front := ops[..|ops| - 1];
      assert front[from..] == ops[from..|ops| - 1] && front[..from] == ops[..from];
      assert forall k | 0 <= k < |front[from..]| :: front[from..][k] == ops[from..][k];
      OpsSpare(env, shards, front, id, from, obj);
      WritesKeepOrdered(env, shards, front, id);
      assert Spares(ops[from..][|ops| - 1 - from], obj);
      OpSpares(env, DoOps(env, shards, front, id), ops[|ops| - 1], id, obj);
    }
  }

  /** Starting new blocks changes no object. */
  lemma BlocksSpare(env: Env, shards: Shards, rot: map<ShardId, nat>, obj: Obj)
    requires AllOrdered(shards) && forall s | s in rot :: Fresh(shards[s], rot[s])
    ensures NowIn(env, OrganizeAll(env, shards, rot), obj) == NowIn(env, shards, obj)
  {
    var s := env.shardOf(obj);
    assert Ordered(shards[s]);
    if s in rot { OrganizeEffect(env, shards[s], rot[s]); }
  }

  lemma EntrySpares(env: Env, shards: Shards, e: Entry, from: nat, obj: Obj)
    requires AllOrdered(shards) && EntryLegal(env, shards, e) && from <= |e.ops| && AllSpare(e.ops[from..], obj)
    ensures NowIn(env, RunEntry(env, shards, e), obj) == NowIn(env, DoOps(env, shards, e.ops[..from], e.id), obj)
  {
    WritesKeepOrdered(env, shards, e.ops, e.id);
    OpsSpare(env, shards, e.ops, e.id, from, obj);
    BlocksSpare(env, DoOps(env, shards, e.ops, e.id), e.rot, obj);
  }

  lemma {:induction false} NextSpares(env: Env, init: Shards, log: seq<Entry>, k: nat, obj: Obj)
    requires LegalSerial(env, init, log) && AllOrdered(init) && k < |log| && AllSpare(log[k].ops, obj)
    ensures NowIn(env, Serial(env, init, log[..k + 1]), obj) == NowIn(env, Serial(env, init, log[..k]), obj)
  {
    var e, shards := log[k], Serial(env, init, log[..k]);
    PrefixIsOrdered(env, init, log, k);
    EntryIsLegal(env, init, log, k);
    SerialPrefix(env, init, log, k);
    assert e.ops[0..] == e.ops && e.ops[..0] == [];
    EntrySpares(env, shards, e, 0, obj);
  }

  /** The entries from `i` up to `n` do not write to the object. */
  ghost predicate SparedBetween(log: seq<Entry>, i: nat, n: nat, obj: Obj) {
    n <= |log| && forall k {:trigger AllSpare(log[k].ops, obj)} | i <= k < n :: AllSpare(log[k].ops, obj)
  }

  lemma {:induction false} NeverChanges(shown: seq<Option<Event>>, i: nat, n: nat)
    requires i <= n < |shown| && forall k | i <= k < n :: shown[k] == shown[k + 1]
    ensures shown[n] == shown[i]
    decreases n - i
  {
    if i < n { NeverChanges(shown, i, n - 1); }
  }

  /** Then they leave it as it was. */
  lemma LogSpares(env: Env, init: Shards, log: seq<Entry>, i: nat, n: nat, obj: Obj)
    requires LegalSerial(env, init, log) && AllOrdered(init) && i <= n && SparedBetween(log, i, n, obj)
    ensures NowIn(env, Serial(env, init, log[..n]), obj) == NowIn(env, Serial(env, init, log[..i]), obj)
  {
    var shown := seq(|log| + 1, k requires 0 <= k <= |log| => NowIn(env, Serial(env, init, log[..k]), obj));
    forall k | i <= k < n ensures shown[k] == shown[k + 1] {
      assert AllSpare(log[k].ops, obj);
      NextSpares(env, init, log, k, obj);
    }
    NeverChanges(shown, i, n);
  }

  /** The last write to the object in entry `i` is its operation `j`. */
  ghost predicate LastWriteIn(e: Entry, j: nat, obj: Obj) {
    j < |e.ops| && e.ops[j].Mutate? && e.ops[j].w.obj == obj && AllSpare(e.ops[j + 1..], obj)
  }

  /** Where the object's shard stands just before that write. */
  ghost function JustBefore(env: Env, init: Shards, log: seq<Entry>, i: nat, j: nat, obj: Obj): Shard
    requires i < |log| && j < |log[i].ops|
  {
    DoOps(env, Serial(env, init, log[..i]), log[i].ops[..j], log[i].id)[env.shardOf(obj)]
  }

  lemma {:induction false} EntryDecides(env: Env, shards: Shards, e: Entry, j: nat, obj: Obj)
    requires AllOrdered(shards) && EntryLegal(env, shards, e) && LastWriteIn(e, j, obj)
    ensures var before := DoOps(env, shards, e.ops[..j], e.id)[env.shardOf(obj)];
            && Ordered(before)
            && NowIn(env, RunEntry(env, shards, e), obj) == Current(ApplyWrite(env, before, e.ops[j].w, e.id).0, obj)
  {
    EntrySpares(env, shards, e, j + 1, obj);
    WritesKeepOrdered(env, shards, e.ops[..j], e.id);
    assert e.ops[..j + 1][..j] == e.ops[..j];
  }

  lemma {:induction false} WriteDecides(env: Env, init: Shards, log: seq<Entry>, i: nat, j: nat, n: nat, obj: Obj)
    requires LegalSerial(env, init, log) && AllOrdered(init) && i < n && i < |log| && LastWriteIn(log[i], j, obj) && SparedBetween(log, i + 1, n, obj)
    ensures var before := JustBefore(env, init, log, i, j, obj);
            && Ordered(before) && n <= |log|
            && NowIn(env, Serial(env, init, log[..n]), obj) == Current(ApplyWrite(env, before, log[i].ops[j].w, log[i].id).0, obj)
  {
    PrefixIsOrdered(env, init, log, i);
    EntryIsLegal(env, init, log, i);
    EntryDecides(env, Serial(env, init, log[..i]), log[i], j, obj);
    SerialPrefix(env, init, log, i);
    LogSpares(env, init, log, i + 1, n, obj);
  }

  /**
   For every run: after the last write to an object, by entry `i` of the log, every later state in
   commit order shows what that write says.  A whole document put is the document; after a removal
   there is none; an addition or a put at a path is made to the version just before it.
   */
  lemma LastWriteDecides(env: Env, init: Shards, steps: seq<Step>, i: nat, j: nat, n: nat, obj: Obj)
    requires Runs(env, InitSys(init), steps) && AllOrdered(init)
    requires var log := Exec(env, InitSys(init), steps).log;
             i < n <= |log| && LastWriteIn(log[i], j, obj) && SparedBetween(log, i + 1, n, obj)
    ensures var log := Exec(env, InitSys(init), steps).log;
            var w, now, was := log[i].ops[j].w, NowIn(env, Serial(env, init, log[..n]), obj), Current(JustBefore(env, init, log, i, j, obj), obj);
            && (w.kind == Remove ==> now == None)
            && (w.kind == Put && w.path == "" && w.doc.Doc? ==> now.Some? && now.value.fields == w.doc.fields)
            && (w.kind == Put && w.path != "" && was.Some? ==> now.Some? && now.value.fields == env.insertAt(was.value.fields, w.path, w.doc))
            && (w.kind == Add && was.Some? ==> now.Some? && now.value.fields == env.addTo(was.value.fields, w.path, w.doc))
            && (w.kind != Remove && was.Some? && now != was ==> now.Some? && now.value.number == was.value.number + 1 && now.value.tx == log[i].id)
            && (was.None? && w.path != "" ==> now == None)
  {
    CommitOrderIsSerial(env, init, steps);
    var log := Exec(env, InitSys(init), steps).log;
    WriteDecides(env, init, log, i, j, n, obj);
    WriteEffect(env, JustBefore(env, init, log, i, j, obj), log[i].ops[j].w, log[i].id);
  }

  /** For every run: an object nobody has written to is as it was at the start. */
  lemma UnwrittenStays(env: Env, init: Shards, steps: seq<Step>, n: nat, obj: Obj)
    requires Runs(env, InitSys(init), steps) && AllOrdered(init)
    requires var log := Exec(env, InitSys(init), steps).log;
             n <= |log| && SparedBetween(log, 0, n, obj)
    ensures NowIn(env, Serial(env, init, Exec(env, InitSys(init), steps).log[..n]), obj) == NowIn(env, init, obj)
  {
    CommitOrderIsSerial(env, init, steps);
    LogSpares(env, init, Exec(env, InitSys(init), steps).log, 0, n, obj);
  }
}
