/**
 What every step of the transaction system keeps, and what follows for whole runs:
 the committed transactions behave as if run one at a time in commit order.
 */
module Serializability {
  import opened EventLog
  import opened RWLock
  import opened Transactions
  import opened Characters
  import opened FindValidation

  // --------------------------------------------------- one shard of a serial run

  function StepShard(env: Env, sh: Shard, s: ShardId, op: Op, id: Option<TxId>): Shard {
    if WritesTo(env, op, s) then ApplyWrite(env, sh, op.w, id).0 else sh
  }

  function ShardOps(env: Env, sh: Shard, s: ShardId, ops: seq<Op>, id: Option<TxId>): Shard {
    if ops == [] then sh
    else StepShard(env, ShardOps(env, sh, s, ops[..|ops| - 1], id), s, ops[|ops| - 1], id)
  }

  /** A shard sees only the operations on it. */
  lemma {:induction false} DoOpsAt(env: Env, shards: Shards, ops: seq<Op>, id: Option<TxId>, s: ShardId)
    ensures DoOps(env, shards, ops, id)[s] == ShardOps(env, shards[s], s, ops, id)
  {
    if ops != [] { DoOpsAt(env, shards, ops[..|ops| - 1], id, s); }
  }

  /** A shard no operation writes to does not change. */
  lemma {:induction false} ShardOpsUntouched(env: Env, sh: Shard, s: ShardId, ops: seq<Op>, id: Option<TxId>)
    requires forall i | 0 <= i < |ops| :: !WritesTo(env, ops[i], s)
    ensures ShardOps(env, sh, s, ops, id) == sh
  {
    if ops != [] { ShardOpsUntouched(env, sh, s, ops[..|ops| - 1], id); }
  }

  lemma {:induction false} NoWritesOn(env: Env, ops: seq<Op>, s: ShardId)
    requires forall i | 0 <= i < |ops| :: !WritesTo(env, ops[i], s)
    ensures WritesOn(env, ops, s) == 0
  {
    if ops != [] { NoWritesOn(env, ops[..|ops| - 1], s); }
  }

  /** Two ledgers agree on every shard the operations write to. */
  ghost predicate SameWhereWritten(env: Env, x: Shards, y: Shards, ops: seq<Op>) {
    forall i | 0 <= i < |ops| && ops[i].Mutate? :: x[ShardOf(env, ops[i])] == y[ShardOf(env, ops[i])]
  }

  lemma {:induction false} SameProduced(env: Env, x: Shards, y: Shards, ops: seq<Op>, id: Option<TxId>)
    requires SameWhereWritten(env, x, y, ops)
    ensures Produced(env, x, ops, id) == Produced(env, y, ops, id)
  {
    if ops != [] {
      var before, op := ops[..|ops| - 1], ops[|ops| - 1];
      SameProduced(env, x, y, before, id);
      if op.Mutate? {
        DoOpsAt(env, x, before, id, ShardOf(env, op));
        DoOpsAt(env, y, before, id, ShardOf(env, op));
      }
    }
  }

  lemma SamePredicted(env: Env, x: Shards, y: Shards, ops: seq<Op>)
    requires SameWhereWritten(env, x, y, ops)
    ensures Predict(env, x, ops) == Predict(env, y, ops)
  {
    SameAsked(env, x, y, ops, NUM_SHARDS);
  }

  lemma {:induction false} SameAsked(env: Env, x: Shards, y: Shards, ops: seq<Op>, n: nat)
    requires SameWhereWritten(env, x, y, ops) && n <= NUM_SHARDS
    ensures IdsAsked(env, x, ops, n) == IdsAsked(env, y, ops, n)
  {
    if n > 0 {
      var s := n - 1;
      SameAsked(env, x, y, ops, s);
      if forall k | 0 <= k < |ops| :: !WritesTo(env, ops[k], s) { NoWritesOn(env, ops, s); }
      assert NextIds(x, s, CountOn(env, ops, s)) == NextIds(y, s, CountOn(env, ops, s));
    }
  }

  // -------------------------------------------------------------------- invariant

  function Holders(txs: map<TxId, Tx>, s: ShardId): map<TxId, Mode> {
    map t | t in txs && s in txs[t].held :: txs[t].held[s]
  }

  ghost predicate LocksOk(a: Sys) {
    forall s: ShardId {:trigger Holders(a.txs, s)} :: Agrees(a.locks[s], Holders(a.txs, s))
  }

  /** What a transaction record may look like when `serial` is the outcome of the log. */
  ghost predicate TxOk(env: Env, serial: Shards, tx: Tx) {
    && Strongest(env, tx.isolation, tx.plan, tx.ops)
    && match tx.pc
       case Idle => tx.state.Pending? && tx.held == map[] && tx.produced == {}
       case Locking(todo) =>
         tx.state.Pending? && todo <= tx.plan.Keys && tx.held == tx.plan - todo && tx.produced == {}
       case Validating(k) =>
         && tx.state.Pending? && tx.held == tx.plan && k <= |tx.ops| && tx.produced == {}
         && Validates(env, serial, tx.isolation, tx.ops[..k])
       case Ready =>
         && tx.state.Prepared? && tx.held == tx.plan && tx.produced == {}
         && Validates(env, serial, tx.isolation, tx.ops)
       case Writing(k) =>
         && tx.state.Prepared? && tx.held == tx.plan && k <= |tx.ops|
         && Validates(env, serial, tx.isolation, tx.ops)
         && tx.recorded == Predict(env, serial, tx.ops)
         && tx.produced == Produced(env, serial, tx.ops[..k], Some(tx.id))
       case Organizing(todo) =>
         && tx.state.Committed? && tx.held == tx.plan
         && todo <= tx.rot.Keys == WriteShards(tx.plan)
       case Releasing => tx.state.Committed? || tx.state.Aborted?
       case Done => (tx.state.Committed? || tx.state.Aborted?) && tx.held == map[]
  }

  ghost predicate TxsOk(env: Env, serial: Shards, a: Sys) {
    forall t {:trigger TxOk(env, serial, a.txs[t])} | t in a.txs :: a.txs[t].id == t && TxOk(env, serial, a.txs[t])
  }

  /** Has `tx` a write on shard `s` that the log does not account for exactly? */
  predicate Dirty(tx: Tx, s: ShardId) {
    && s in tx.held && tx.held[s].Write?
    && (tx.pc.Writing? || (tx.pc.Organizing? && s in tx.pc.todo))
  }

  ghost predicate Clean(txs: map<TxId, Tx>, s: ShardId) {
    forall t | t in txs :: !Dirty(txs[t], s)
  }

  /** How a shard written by `t` differs from the serial outcome. */
  ghost predicate DirtyOk(env: Env, base: Shard, sh: Shard, t: TxId, tx: Tx, s: ShardId) {
    && (tx.pc.Writing? ==> tx.pc.k <= |tx.ops| && sh == ShardOps(env, base, s, tx.ops[..tx.pc.k], Some(t)))
    && (tx.pc.Organizing? ==> s in tx.rot && Organize(env, sh, tx.rot[s]) == base)
  }

  /** A shard is as the log says, up to what its writer has done so far. */
  ghost predicate ShardOkAt(env: Env, base: Shard, txs: map<TxId, Tx>, sh: Shard, s: ShardId) {
    && (forall t | t in txs && Dirty(txs[t], s) :: DirtyOk(env, base, sh, t, txs[t], s))
    && (Clean(txs, s) ==> sh == base)
  }

  ghost predicate ShardOk(env: Env, serial: Shards, a: Sys, s: ShardId) {
    ShardOkAt(env, serial[s], a.txs, a.shards[s], s)
  }

  ghost predicate ShardsOk(env: Env, serial: Shards, a: Sys) {
    forall s: ShardId {:trigger ShardOk(env, serial, a, s)} :: ShardOk(env, serial, a, s)
  }

  /** The transactions the log lists. */
  ghost function Logged(log: seq<Entry>): set<TxId> {
    set i | 0 <= i < |log| && log[i].id.Some? :: log[i].id.value
  }

  /** An entry of the log records what its transaction did. */
  ghost predicate EntryOk(txs: map<TxId, Tx>, e: Entry) {
    e.id.Some? ==>
      && e.id.value in txs && txs[e.id.value].state.Committed?
      && e.ops == txs[e.id.value].ops && e.isolation == txs[e.id.value].isolation
  }

  /** The log lists exactly the committed transactions, each once. */
  ghost predicate LogOk(a: Sys) {
    && (forall t | t in a.txs && a.txs[t].state.Committed? :: t in Logged(a.log))
    && (forall i | 0 <= i < |a.log| :: EntryOk(a.txs, a.log[i]))
    && (forall i, j | 0 <= i < j < |a.log| && a.log[i].id.Some? :: a.log[i].id != a.log[j].id)
  }

  /** A transaction is registered until its cleanup is over. */
  ghost predicate RegistryOk(a: Sys) {
    forall t :: t in a.registry <==> t in a.txs && !a.txs[t].pc.Done?
  }

  ghost predicate Inv(env: Env, init: Shards, a: Sys) {
    && LocksOk(a)
    && TxsOk(env, Serial(env, init, a.log), a)
    && ShardsOk(env, Serial(env, init, a.log), a)
    && LegalSerial(env, init, a.log)
    && LogOk(a)
    && RegistryOk(a)
  }

  // ------------------------------------------------------------------ small facts

  lemma Exclusive(a: Sys, s: ShardId, t: TxId, u: TxId)
    requires LocksOk(a)
    requires t in a.txs && u in a.txs && s in a.txs[t].held && s in a.txs[u].held && a.txs[t].held[s].Write?
    ensures t == u
  {
    WriterIsAlone(a.locks[s], Holders(a.txs, s), t, u);
  }

  /** A shard nobody holds is as the log says. */
  lemma UnlockedIsSerial(env: Env, serial: Shards, a: Sys, s: ShardId)
    requires LocksOk(a) && ShardsOk(env, serial, a) && !a.locks[s].Writer?
    ensures Clean(a.txs, s) && a.shards[s] == serial[s]
    ensures a.locks[s].Free? ==> forall t | t in a.txs :: s !in a.txs[t].held
  {
    assert ShardOk(env, serial, a, s);
    assert Agrees(a.locks[s], Holders(a.txs, s));
    assert forall t | t in a.txs && s in a.txs[t].held :: t in Holders(a.txs, s);
  }

  /** A shard some transaction holds and has not dirtied is as the log says. */
  lemma HeldIsSerial(env: Env, serial: Shards, a: Sys, t: TxId, s: ShardId)
    requires LocksOk(a) && ShardsOk(env, serial, a)
    requires t in a.txs && s in a.txs[t].held && !Dirty(a.txs[t], s)
    ensures a.shards[s] == serial[s]
  {
    assert ShardOk(env, serial, a, s);
    forall u | u in a.txs ensures !Dirty(a.txs[u], s) {
      if Dirty(a.txs[u], s) { Exclusive(a, s, u, t); }
    }
  }

  lemma TouchedSnoc(env: Env, isolation: Isolation, ops: seq<Op>, op: Op, s: ShardId)
    ensures (exists i | 0 <= i < |ops + [op]| :: s in Touched(env, isolation, (ops + [op])[i])) <==>
            (exists i | 0 <= i < |ops| :: s in Touched(env, isolation, ops[i])) || s in Touched(env, isolation, op)
  {
    var next := ops + [op];
    assert next[|ops|] == op;
    if i :| 0 <= i < |ops| && s in Touched(env, isolation, ops[i]) { assert next[i] == ops[i]; }
  }

  lemma WrittenSnoc(env: Env, ops: seq<Op>, op: Op, s: ShardId)
    ensures (exists i | 0 <= i < |ops + [op]| :: WritesTo(env, (ops + [op])[i], s)) <==>
            (exists i | 0 <= i < |ops| :: WritesTo(env, ops[i], s)) || WritesTo(env, op, s)
  {
    var next := ops + [op];
    assert next[|ops|] == op;
    if i :| 0 <= i < |ops| && WritesTo(env, ops[i], s) { assert next[i] == ops[i]; }
  }

  lemma WrittenIsTouched(env: Env, isolation: Isolation, op: Op, s: ShardId)
    requires WritesTo(env, op, s)
    ensures s in Touched(env, isolation, op)
  {
  }

  lemma PlanIsStrongest(env: Env, isolation: Isolation, plan: map<ShardId, Mode>, ops: seq<Op>, op: Op)
    requires Strongest(env, isolation, plan, ops)
    ensures Strongest(env, isolation, Plan(env, isolation, plan, op), ops + [op])
  {
    var next, plan' := ops + [op], Plan(env, isolation, plan, op);
    forall s: ShardId ensures s in plan' <==> exists i | 0 <= i < |next| :: s in Touched(env, isolation, next[i]) {
      TouchedSnoc(env, isolation, ops, op, s);
    }
    forall s | s in plan' ensures plan'[s].Write? <==> exists i | 0 <= i < |next| :: WritesTo(env, next[i], s) {
      WrittenSnoc(env, ops, op, s);
      if i :| 0 <= i < |ops| && WritesTo(env, ops[i], s) {
        WrittenIsTouched(env, isolation, ops[i], s);
        assert s in plan;
      }
    }
  }

  /** Validation looks only at the shards the operation touches. */
  lemma ValidFrame(env: Env, x: Shards, y: Shards, isolation: Isolation, op: Op)
    requires OpValid(env, x, isolation, op) && forall s | s in Touched(env, isolation, op) :: x[s] == y[s]
    ensures OpValid(env, y, isolation, op)
  {
    if op.Find? {
      if isolation.Serializable? {
        forall s | 0 <= s < NUM_SHARDS ensures x[s] == y[s] { assert s in Touched(env, isolation, op); }
        assert x == y;
      } else {
        forall i | 0 <= i < |op.results| ensures env.shardOf(Obj(op.collection, op.results[i].0)) in Touched(env, isolation, op) {}
      }
    } else {
      assert ShardOf(env, op) in Touched(env, isolation, op);
    }
  }

  // ------------------------------------------------------------- locks, step by step

  lemma HoldersAfter(txs: map<TxId, Tx>, t: TxId, tx: Tx, s: ShardId)
    requires t in txs
    ensures s in tx.held ==> Holders(txs[t := tx], s) == Holders(txs, s)[t := tx.held[s]]
    ensures s !in tx.held ==> Holders(txs[t := tx], s) == Holders(txs, s) - {t}
  {
  }

  /** Only taking or giving back the shard's own lock changes the hold on it. */
  lemma HoldKept(env: Env, a: Sys, tx: Tx, act: Act, s: ShardId)
    requires CanAct(env, a, tx, act) && act != Acquire(s) && act != ReleaseOne(s)
    ensures var tx' := NextTx(env, a, tx, act);
            && (s in tx'.held <==> s in tx.held) && (s in tx.held ==> tx'.held[s] == tx.held[s])
            && NextLocks(env, a, tx, act)[s] == a.locks[s]
  {
  }

  lemma AcquiresNew(env: Env, serial: Shards, a: Sys, tx: Tx, s: ShardId)
    requires TxOk(env, serial, tx) && CanAct(env, a, tx, Acquire(s))
    ensures s !in tx.held
  {
  }

  lemma LockKept(env: Env, a: Sys, t: TxId, act: Act, s: ShardId)
    requires Agrees(a.locks[s], Holders(a.txs, s)) && t in a.txs
    requires CanAct(env, a, a.txs[t], act) && (act == Acquire(s) ==> s !in a.txs[t].held)
    ensures Agrees(NextLocks(env, a, a.txs[t], act)[s], Holders(a.txs[t := NextTx(env, a, a.txs[t], act)], s))
  {
    var tx, h := a.txs[t], Holders(a.txs, s);
    var tx' := NextTx(env, a, tx, act);
    if act == Acquire(s) {
      HoldersAfter(a.txs, t, tx', s);
      GrabAgrees(a.locks[s], h, t, tx.plan[s]);
    } else if act == ReleaseOne(s) {
      HoldersAfter(a.txs, t, tx', s);
      DropAgrees(a.locks[s], h, t);
    } else {
      HoldKept(env, a, tx, act, s);
      HoldersSame(a.txs, t, tx', s);
    }
  }

  lemma HoldersSame(txs: map<TxId, Tx>, t: TxId, tx: Tx, s: ShardId)
    requires t in txs && (s in tx.held <==> s in txs[t].held) && (s in tx.held ==> tx.held[s] == txs[t].held[s])
    ensures Holders(txs[t := tx], s) == Holders(txs, s)
  {
  }

  lemma LockAfterOwn(env: Env, serial: Shards, a: Sys, t: TxId, act: Act, s: ShardId)
    requires Agrees(a.locks[s], Holders(a.txs, s)) && t in a.txs && CanAct(env, a, a.txs[t], act) && TxOk(env, serial, a.txs[t])
    ensures Agrees(Do(env, a, Own(t, act)).locks[s], Holders(Do(env, a, Own(t, act)).txs, s))
  {
    if act == Acquire(s) { AcquiresNew(env, serial, a, a.txs[t], s); }
    LockKept(env, a, t, act, s);
  }

  lemma LockAfterStep(env: Env, serial: Shards, a: Sys, step: Step, s: ShardId)
    requires Agrees(a.locks[s], Holders(a.txs, s)) && Enabled(env, a, step)
    requires step.Own? ==> TxOk(env, serial, a.txs[step.t])
    ensures Agrees(Do(env, a, step).locks[s], Holders(Do(env, a, step).txs, s))
  {
    if step.Own? {
      LockAfterOwn(env, serial, a, step.t, step.act, s);
    } else {
      LockAfterOther(env, a, step, s);
    }
  }

  /** A transaction that begins holds nothing, and a write outside transactions takes no lock. */
  lemma LockAfterOther(env: Env, a: Sys, step: Step, s: ShardId)
    requires Agrees(a.locks[s], Holders(a.txs, s)) && Enabled(env, a, step) && !step.Own?
    ensures Agrees(Do(env, a, step).locks[s], Holders(Do(env, a, step).txs, s))
  {
    if step.Begin? {
      HoldersNew(a.txs, step.t, Do(env, a, step).txs[step.t], s);
    }
  }

  lemma HoldersNew(txs: map<TxId, Tx>, t: TxId, tx: Tx, s: ShardId)
    requires t !in txs && s !in tx.held
    ensures Holders(txs[t := tx], s) == Holders(txs, s)
  {
  }

  lemma LocksKept(env: Env, serial: Shards, a: Sys, step: Step)
    requires LocksOk(a) && TxsOk(env, serial, a) && Enabled(env, a, step)
    ensures LocksOk(Do(env, a, step))
  {
    var b := Do(env, a, step);
    if step.Own? { assert TxOk(env, serial, a.txs[step.t]); }
    forall s: ShardId ensures Agrees(b.locks[s], Holders(b.txs, s)) {
      assert Agrees(a.locks[s], Holders(a.txs, s));
      LockAfterStep(env, serial, a, step, s);
    }
  }

  // --------------------------------------------- transaction records, step by step

  /** The ids a write produces in the ledger are those it produces after the same writes in the serial run. */
  lemma NewIdsKept(env: Env, serial: Shards, a: Sys, t: TxId)
    requires ShardsOk(env, serial, a)
    requires t in a.txs && a.txs[t].id == t && TxOk(env, serial, a.txs[t]) && CanAct(env, a, a.txs[t], WriteOne)
    ensures var tx := a.txs[t];
            NewIds(env, a.shards, tx.ops[tx.pc.k], Some(t)) ==
            NewIds(env, DoOps(env, serial, tx.ops[..tx.pc.k], Some(t)), tx.ops[tx.pc.k], Some(t))
  {
    var tx := a.txs[t];
    var op := tx.ops[tx.pc.k];
    if op.Mutate? {
      var s := ShardOf(env, op);
      DoOpsAt(env, serial, tx.ops[..tx.pc.k], Some(t), s);
      assert WritesTo(env, op, s) && s in Touched(env, tx.isolation, op);
      assert s in tx.plan && tx.plan[s].Write?;
      assert ShardOk(env, serial, a, s) && Dirty(tx, s);
    }
  }

  lemma ProducedKept(env: Env, serial: Shards, a: Sys, t: TxId)
    requires ShardsOk(env, serial, a)
    requires t in a.txs && a.txs[t].id == t && TxOk(env, serial, a.txs[t]) && CanAct(env, a, a.txs[t], WriteOne)
    ensures var tx := NextTx(env, a, a.txs[t], WriteOne);
            tx.produced == Produced(env, serial, tx.ops[..tx.pc.k], Some(t))
  {
    NewIdsKept(env, serial, a, t);
    ProducedSnoc(env, serial, a.txs[t].ops, a.txs[t].pc.k, Some(t));
  }

  lemma ProducedSnoc(env: Env, shards: Shards, ops: seq<Op>, k: nat, id: Option<TxId>)
    requires k < |ops|
    ensures Produced(env, shards, ops[..k + 1], id) ==
            Produced(env, shards, ops[..k], id) + NewIds(env, DoOps(env, shards, ops[..k], id), ops[k], id)
  {
    assert ops[..k + 1][..k] == ops[..k];
  }

  lemma OwnTxKept(env: Env, serial: Shards, a: Sys, t: TxId, act: Act)
    requires LocksOk(a) && ShardsOk(env, serial, a)
    requires t in a.txs && a.txs[t].id == t && CanAct(env, a, a.txs[t], act)
    requires TxOk(env, serial, a.txs[t]) && !act.CommitPoint?
    ensures TxOk(env, serial, NextTx(env, a, a.txs[t], act))
  {
    var tx := a.txs[t];
    match act
    case Register(op) =>
      PlanIsStrongest(env, tx.isolation, tx.plan, tx.ops, op);
    case ValidateOne =>
      var op := tx.ops[tx.pc.k];
      forall s | s in Touched(env, tx.isolation, op) ensures a.shards[s] == serial[s] {
        assert s in tx.plan;
        HeldIsSerial(env, serial, a, t, s);
      }
      ValidFrame(env, a.shards, serial, tx.isolation, op);
      assert tx.ops[..tx.pc.k + 1] == tx.ops[..tx.pc.k] + [op];
    case FinishPrepare =>
      assert tx.ops[..tx.pc.k] == tx.ops;
    case StartCommit =>
      forall i | 0 <= i < |tx.ops| && tx.ops[i].Mutate?
        ensures a.shards[ShardOf(env, tx.ops[i])] == serial[ShardOf(env, tx.ops[i])]
      {
        assert ShardOf(env, tx.ops[i]) in Touched(env, tx.isolation, tx.ops[i]);
        assert ShardOf(env, tx.ops[i]) in tx.plan;
        HeldIsSerial(env, serial, a, t, ShardOf(env, tx.ops[i]));
      }
      SamePredicted(env, a.shards, serial, tx.ops);
      assert tx.ops[..0] == [];
    case WriteOne =>
      ProducedKept(env, serial, a, t);
    case _ =>
  }

  // ------------------------------------------------------------ shards, step by step

  /** Only the stepping transaction decides whether the shard becomes clean. */
  lemma CleanAfter(txs: map<TxId, Tx>, t: TxId, tx: Tx, s: ShardId)
    requires t in txs
    ensures Clean(txs[t := tx], s) && !Dirty(txs[t], s) ==> Clean(txs, s)
    ensures Clean(txs, s) && !Dirty(tx, s) ==> Clean(txs[t := tx], s)
  {
    var next := txs[t := tx];
    if Clean(next, s) && !Dirty(txs[t], s) {
      forall u | u in txs ensures !Dirty(txs[u], s) { assert u != t ==> !Dirty(next[u], s); }
    }
  }

  /** A step that changes neither the shard, nor the log, nor who has dirtied the shard. */
  lemma ShardKept(env: Env, serial: Shards, a: Sys, t: TxId, act: Act, s: ShardId)
    requires LocksOk(a) && ShardsOk(env, serial, a)
    requires t in a.txs && CanAct(env, a, a.txs[t], act) && TxOk(env, serial, a.txs[t])
    requires !act.CommitPoint? && !act.WriteOne? && act != OrganizeOne(s)
    ensures ShardOk(env, serial, Do(env, a, Own(t, act)), s)
  {
    var b := Do(env, a, Own(t, act));
    assert ShardOk(env, serial, a, s);
    CleanAfter(a.txs, t, b.txs[t], s);
    if act.StartCommit? && Dirty(b.txs[t], s) {
      HeldIsSerial(env, serial, a, t, s);
      assert b.txs[t].ops[..0] == [];
    } else {
      DirtyKept(env, serial, a, t, act, s);
    }
  }

  lemma DirtyKept(env: Env, serial: Shards, a: Sys, t: TxId, act: Act, s: ShardId)
    requires t in a.txs && CanAct(env, a, a.txs[t], act) && TxOk(env, serial, a.txs[t])
    requires !act.CommitPoint? && !act.WriteOne? && act != OrganizeOne(s)
    requires !(act.StartCommit? && Dirty(NextTx(env, a, a.txs[t], act), s))
    ensures var tx := NextTx(env, a, a.txs[t], act);
            && (Dirty(tx, s) <==> Dirty(a.txs[t], s))
            && (Dirty(tx, s) ==> tx.ops == a.txs[t].ops && tx.rot == a.txs[t].rot)
            && (Dirty(tx, s) ==> if tx.pc.Writing? then a.txs[t].pc == tx.pc else a.txs[t].pc.Organizing?)
            && NextShards(env, a, t, a.txs[t], act)[s] == a.shards[s]
  {
  }

  /** Nobody but `t` has dirtied the shard. */
  ghost predicate OnlyDirty(txs: map<TxId, Tx>, t: TxId, s: ShardId) {
    forall u | u in txs && Dirty(txs[u], s) :: u == t
  }

  lemma DirtyAlone(a: Sys, t: TxId, s: ShardId)
    requires LocksOk(a) && t in a.txs && Dirty(a.txs[t], s)
    ensures OnlyDirty(a.txs, t, s)
  {
    forall u | u in a.txs && Dirty(a.txs[u], s) ensures u == t { Exclusive(a, s, t, u); }
  }

  /** One more write of a transaction, seen from one shard. */
  lemma WriteKeptAt(env: Env, base: Shard, txs: map<TxId, Tx>, sh: Shard, t: TxId, s: ShardId, tx: Tx)
    requires ShardOkAt(env, base, txs, sh, s) && t in txs && txs[t].pc.Writing? && txs[t].pc.k < |txs[t].ops|
    requires tx == txs[t].(pc := Writing(txs[t].pc.k + 1), produced := tx.produced)
    requires var op := tx.ops[txs[t].pc.k]; WritesTo(env, op, s) ==> Dirty(txs[t], s)
    requires Dirty(txs[t], s) ==> OnlyDirty(txs, t, s)
    ensures ShardOkAt(env, base, txs[t := tx], StepShard(env, sh, s, tx.ops[txs[t].pc.k], Some(t)), s)
  {
    var k := txs[t].pc.k;
    var txs', sh' := txs[t := tx], StepShard(env, sh, s, tx.ops[k], Some(t));
    assert tx.ops[..k + 1][..k] == tx.ops[..k];
    CleanAfter(txs, t, tx, s);
    forall u | u in txs' && Dirty(txs'[u], s) ensures DirtyOk(env, base, sh', u, txs'[u], s) {
      assert Dirty(txs[u], s);
      assert DirtyOk(env, base, sh, u, txs[u], s);
    }
    if Clean(txs', s) {
      assert !Dirty(txs'[t], s);
      assert !Dirty(txs[t], s);
    }
  }

  /** A write reaches only shards the transaction has locked for writing. */
  lemma WritesOwnShard(env: Env, serial: Shards, a: Sys, t: TxId, s: ShardId)
    requires t in a.txs && CanAct(env, a, a.txs[t], WriteOne) && TxOk(env, serial, a.txs[t])
    ensures var op := a.txs[t].ops[a.txs[t].pc.k];
            && Do(env, a, Own(t, WriteOne)).shards[s] == StepShard(env, a.shards[s], s, op, Some(t))
            && (WritesTo(env, op, s) ==> Dirty(a.txs[t], s))
  {
    var tx := a.txs[t];
    var op := tx.ops[tx.pc.k];
    if WritesTo(env, op, s) { assert s in Touched(env, tx.isolation, op) && s in tx.plan && tx.plan[s].Write?; }
  }

  lemma WriteAdvances(env: Env, a: Sys, t: TxId)
    requires t in a.txs && CanAct(env, a, a.txs[t], WriteOne)
    ensures var tx, b := a.txs[t], Do(env, a, Own(t, WriteOne));
            t in b.txs && b.txs == a.txs[t := b.txs[t]] && b.txs[t] == tx.(pc := Writing(tx.pc.k + 1), produced := b.txs[t].produced)
  {
  }

  lemma WriteKept(env: Env, serial: Shards, a: Sys, t: TxId, s: ShardId)
    requires LocksOk(a) && ShardsOk(env, serial, a)
    requires t in a.txs && CanAct(env, a, a.txs[t], WriteOne) && TxOk(env, serial, a.txs[t])
    ensures ShardOk(env, serial, Do(env, a, Own(t, WriteOne)), s)
  {
    assert ShardOk(env, serial, a, s);
    WritesOwnShard(env, serial, a, t, s);
    WriteAdvances(env, a, t);
    WriteKeptOn(env, serial, a, t, s, Do(env, a, Own(t, WriteOne)));
  }

  lemma WriteKeptOn(env: Env, serial: Shards, a: Sys, t: TxId, s: ShardId, b: Sys)
    requires LocksOk(a) && ShardOk(env, serial, a, s) && t in a.txs && t in b.txs && b.txs == a.txs[t := b.txs[t]]
    requires a.txs[t].pc.Writing? && a.txs[t].pc.k < |a.txs[t].ops|
    requires b.txs[t] == a.txs[t].(pc := Writing(a.txs[t].pc.k + 1), produced := b.txs[t].produced)
    requires var op := a.txs[t].ops[a.txs[t].pc.k];
             b.shards[s] == StepShard(env, a.shards[s], s, op, Some(t)) && (WritesTo(env, op, s) ==> Dirty(a.txs[t], s))
    ensures ShardOk(env, serial, b, s)
  {
    if Dirty(a.txs[t], s) { DirtyAlone(a, t, s); }
    WriteKeptAt(env, serial[s], a.txs, a.shards[s], t, s, b.txs[t]);
  }

  lemma OrganizeKeptAt(env: Env, base: Shard, txs: map<TxId, Tx>, sh: Shard, t: TxId, s: ShardId, tx: Tx)
    requires ShardOkAt(env, base, txs, sh, s) && t in txs && txs[t].pc.Organizing? && Dirty(txs[t], s)
    requires OnlyDirty(txs, t, s) && !Dirty(tx, s)
    ensures s in txs[t].rot && ShardOkAt(env, base, txs[t := tx], Organize(env, sh, txs[t].rot[s]), s)
  {
  }

  lemma OrganizeKept(env: Env, serial: Shards, a: Sys, t: TxId, s: ShardId)
    requires LocksOk(a) && ShardsOk(env, serial, a)
    requires t in a.txs && CanAct(env, a, a.txs[t], OrganizeOne(s)) && TxOk(env, serial, a.txs[t])
    ensures ShardOk(env, serial, Do(env, a, Own(t, OrganizeOne(s))), s)
  {
    assert ShardOk(env, serial, a, s);
    assert Dirty(a.txs[t], s);
    DirtyAlone(a, t, s);
    OrganizeKeptAt(env, serial[s], a.txs, a.shards[s], t, s, NextTx(env, a, a.txs[t], OrganizeOne(s)));
  }

  lemma ShardsKept(env: Env, serial: Shards, a: Sys, step: Step)
    requires LocksOk(a) && TxsOk(env, serial, a) && ShardsOk(env, serial, a)
    requires Enabled(env, a, step) && !step.Direct? && !(step.Own? && step.act.CommitPoint?)
    ensures ShardsOk(env, serial, Do(env, a, step))
  {
    var b := Do(env, a, step);
    forall s: ShardId ensures ShardOk(env, serial, b, s) {
      if step.Begin? {
        assert ShardOk(env, serial, a, s);
        assert Clean(b.txs, s) ==> Clean(a.txs, s) by {
          assert forall t | t in a.txs :: b.txs[t] == a.txs[t];
        }
      } else if step.act.WriteOne? {
        WriteKept(env, serial, a, step.t, s);
      } else if step.act == OrganizeOne(s) {
        OrganizeKept(env, serial, a, step.t, s);
      } else {
        ShardKept(env, serial, a, step.t, step.act, s);
      }
    }
  }

  // ----------------------------------------------------- steps that add to the log

  lemma SerialSnoc(env: Env, init: Shards, log: seq<Entry>, e: Entry)
    ensures Serial(env, init, log + [e]) == RunEntry(env, Serial(env, init, log), e)
    ensures LegalSerial(env, init, log) && EntryLegal(env, Serial(env, init, log), e)
            ==> LegalSerial(env, init, log + [e])
  {
    var next := log + [e];
    assert next[..|log|] == log;
    assert forall i | 0 <= i < |log| :: next[..i] == log[..i] && next[i] == log[i];
  }

  /** What an entry does to one shard. */
  lemma EntryAt(env: Env, shards: Shards, e: Entry, s: ShardId)
    ensures var sh := ShardOps(env, shards[s], s, e.ops, e.id);
            RunEntry(env, shards, e)[s] == if s in e.rot then Organize(env, sh, e.rot[s]) else sh
  {
    DoOpsAt(env, shards, e.ops, e.id, s);
  }

  /** A transaction does not notice changes of shards it does not hold. */
  lemma TxStable(env: Env, serial: Shards, serial': Shards, tx: Tx)
    requires TxOk(env, serial, tx)
    requires forall s | s in tx.held :: serial'[s] == serial[s]
    ensures TxOk(env, serial', tx)
  {
    if tx.pc.Validating? || tx.pc.Ready? || tx.pc.Writing? {
      var ops := if tx.pc.Validating? then tx.ops[..tx.pc.k] else tx.ops;
      forall j | 0 <= j < |ops| ensures OpValid(env, serial', tx.isolation, ops[j]) {
        assert ops[j] == tx.ops[j];
        assert OpValid(env, serial, tx.isolation, ops[j]);
        assert forall s | s in Touched(env, tx.isolation, tx.ops[j]) :: s in tx.plan;
        ValidFrame(env, serial, serial', tx.isolation, ops[j]);
      }
    }
    if tx.pc.Writing? {
      forall i | 0 <= i < |tx.ops| && tx.ops[i].Mutate? ensures ShardOf(env, tx.ops[i]) in tx.plan {
        assert ShardOf(env, tx.ops[i]) in Touched(env, tx.isolation, tx.ops[i]);
      }
      SamePredicted(env, serial, serial', tx.ops);
      SameProduced(env, serial, serial', tx.ops[..tx.pc.k], Some(tx.id));
    }
  }

  lemma WrittenAtCommit(env: Env, serial: Shards, a: Sys, t: TxId, rot: map<ShardId, nat>, s: ShardId)
    requires ShardOk(env, serial, a, s) && s in rot
    requires t in a.txs && CanAct(env, a, a.txs[t], CommitPoint(rot)) && TxOk(env, serial, a.txs[t])
    ensures Dirty(a.txs[t], s) && a.shards[s] == ShardOps(env, serial[s], s, a.txs[t].ops, Some(t))
  {
    var tx := a.txs[t];
    assert tx.ops[..tx.pc.k] == tx.ops;
    assert s in tx.held && Dirty(tx, s);
    assert DirtyOk(env, serial[s], a.shards[s], t, tx, s);
  }

  /** A written shard at the commit point needs only its new block to be as the log then says. */
  lemma CommitBase(env: Env, serial: Shards, a: Sys, t: TxId, rot: map<ShardId, nat>, s: ShardId)
    requires ShardOk(env, serial, a, s) && s in rot
    requires t in a.txs && CanAct(env, a, a.txs[t], CommitPoint(rot)) && TxOk(env, serial, a.txs[t]) && a.txs[t].id == t
    ensures Dirty(a.txs[t], s)
    ensures RunEntry(env, serial, TxEntry(a.txs[t], rot))[s] == Organize(env, a.shards[s], rot[s])
  {
    WrittenAtCommit(env, serial, a, t, rot, s);
    EntryAt(env, serial, TxEntry(a.txs[t], rot), s);
  }

  lemma CommitWrittenAt(env: Env, base: Shard, txs: map<TxId, Tx>, sh: Shard, t: TxId, s: ShardId, tx: Tx)
    requires t in txs && OnlyDirty(txs, t, s) && Dirty(tx, s) && tx.pc.Organizing?
    requires s in tx.rot && base == Organize(env, sh, tx.rot[s])
    ensures ShardOkAt(env, base, txs[t := tx], sh, s)
  {
    assert Dirty(txs[t := tx][t], s);
  }

  lemma CommitAdvances(env: Env, a: Sys, t: TxId, rot: map<ShardId, nat>, s: ShardId)
    requires t in a.txs && CanAct(env, a, a.txs[t], CommitPoint(rot)) && Dirty(a.txs[t], s) && s in rot
    ensures var b := Do(env, a, Own(t, CommitPoint(rot)));
            && t in b.txs && b.txs == a.txs[t := b.txs[t]] && b.shards == a.shards
            && Dirty(b.txs[t], s) && b.txs[t].pc.Organizing? && b.txs[t].rot == rot
  {
  }

  lemma CommitWritten(env: Env, serial: Shards, a: Sys, t: TxId, rot: map<ShardId, nat>, s: ShardId)
    requires LocksOk(a) && ShardOk(env, serial, a, s) && s in rot
    requires t in a.txs && CanAct(env, a, a.txs[t], CommitPoint(rot)) && TxOk(env, serial, a.txs[t]) && a.txs[t].id == t
    ensures ShardOk(env, RunEntry(env, serial, TxEntry(a.txs[t], rot)), Do(env, a, Own(t, CommitPoint(rot))), s)
  {
    CommitBase(env, serial, a, t, rot, s);
    DirtyAlone(a, t, s);
    CommitAdvances(env, a, t, rot, s);
    CommitWrittenAt(env, RunEntry(env, serial, TxEntry(a.txs[t], rot))[s], a.txs, a.shards[s], t, s,
                    Do(env, a, Own(t, CommitPoint(rot))).txs[t]);
  }

  lemma CommitUnwritten(env: Env, serial: Shards, a: Sys, t: TxId, rot: map<ShardId, nat>, s: ShardId)
    requires ShardOk(env, serial, a, s) && s !in rot
    requires t in a.txs && CanAct(env, a, a.txs[t], CommitPoint(rot)) && TxOk(env, serial, a.txs[t]) && a.txs[t].id == t
    ensures var serial' := RunEntry(env, serial, TxEntry(a.txs[t], rot));
            serial'[s] == serial[s] && ShardOk(env, serial', Do(env, a, Own(t, CommitPoint(rot))), s)
  {
    var tx := a.txs[t];
    var b := Do(env, a, Own(t, CommitPoint(rot)));
    EntryAt(env, serial, TxEntry(tx, rot), s);
    assert forall i | 0 <= i < |tx.ops| :: !WritesTo(env, tx.ops[i], s);
    ShardOpsUntouched(env, serial[s], s, tx.ops, Some(t));
    CleanAfter(a.txs, t, b.txs[t], s);
  }

  lemma CommitShard(env: Env, serial: Shards, a: Sys, t: TxId, rot: map<ShardId, nat>, s: ShardId)
    requires LocksOk(a) && TxsOk(env, serial, a) && ShardsOk(env, serial, a)
    requires t in a.txs && CanAct(env, a, a.txs[t], CommitPoint(rot))
    ensures var e := TxEntry(a.txs[t], rot);
            && ShardOk(env, RunEntry(env, serial, e), Do(env, a, Own(t, CommitPoint(rot))), s)
            && (s !in rot ==> RunEntry(env, serial, e)[s] == serial[s])
  {
    assert TxOk(env, serial, a.txs[t]) && ShardOk(env, serial, a, s);
    if s in rot {
      CommitWritten(env, serial, a, t, rot, s);
    } else {
      CommitUnwritten(env, serial, a, t, rot, s);
    }
  }

  lemma CommitTxKept(env: Env, serial: Shards, a: Sys, t: TxId, rot: map<ShardId, nat>, u: TxId)
    requires LocksOk(a) && TxsOk(env, serial, a) && ShardsOk(env, serial, a)
    requires t in a.txs && u in a.txs && CanAct(env, a, a.txs[t], CommitPoint(rot))
    ensures var tx := Do(env, a, Own(t, CommitPoint(rot))).txs[u];
            tx.id == u && TxOk(env, RunEntry(env, serial, TxEntry(a.txs[t], rot)), tx)
  {
    var serial' := RunEntry(env, serial, TxEntry(a.txs[t], rot));
    assert TxOk(env, serial, a.txs[t]) && TxOk(env, serial, a.txs[u]);
    if u != t {
      forall s | s in a.txs[u].held ensures serial'[s] == serial[s] {
        CommitShard(env, serial, a, t, rot, s);
        if s in rot { Exclusive(a, s, t, u); }
      }
      TxStable(env, serial, serial', a.txs[u]);
    }
  }

  lemma CommitKept(env: Env, serial: Shards, a: Sys, t: TxId, rot: map<ShardId, nat>)
    requires LocksOk(a) && TxsOk(env, serial, a) && ShardsOk(env, serial, a)
    requires t in a.txs && CanAct(env, a, a.txs[t], CommitPoint(rot))
    ensures var serial' := RunEntry(env, serial, TxEntry(a.txs[t], rot));
            var b := Do(env, a, Own(t, CommitPoint(rot)));
            TxsOk(env, serial', b) && ShardsOk(env, serial', b)
  {
    var serial' := RunEntry(env, serial, TxEntry(a.txs[t], rot));
    var b := Do(env, a, Own(t, CommitPoint(rot)));
    forall s: ShardId ensures ShardOk(env, serial', b, s) {
      CommitShard(env, serial, a, t, rot, s);
    }
    forall u | u in b.txs ensures b.txs[u].id == u && TxOk(env, serial', b.txs[u]) {
      CommitTxKept(env, serial, a, t, rot, u);
    }
  }

  lemma DirectShard(env: Env, serial: Shards, a: Sys, w: Write, newId: nat, s: ShardId)
    requires LocksOk(a) && ShardsOk(env, serial, a) && Enabled(env, a, Direct(w, newId))
    ensures var serial' := RunEntry(env, serial, DirectEntry(env, a.shards, w, newId));
            && ShardOk(env, serial', Do(env, a, Direct(w, newId)), s)
            && (s != env.shardOf(w.obj) ==> serial'[s] == serial[s])
  {
    var e := DirectEntry(env, a.shards, w, newId);
    UnlockedIsSerial(env, serial, a, env.shardOf(w.obj));
    EntryAt(env, serial, e, s);
    assert e.ops[..0] == [];
    assert ShardOk(env, serial, a, s);
  }

  lemma DirectTxKept(env: Env, serial: Shards, a: Sys, w: Write, newId: nat, u: TxId)
    requires LocksOk(a) && TxsOk(env, serial, a) && ShardsOk(env, serial, a)
    requires Enabled(env, a, Direct(w, newId)) && u in a.txs
    ensures a.txs[u].id == u && TxOk(env, RunEntry(env, serial, DirectEntry(env, a.shards, w, newId)), a.txs[u])
  {
    var serial' := RunEntry(env, serial, DirectEntry(env, a.shards, w, newId));
    assert TxOk(env, serial, a.txs[u]);
    UnlockedIsSerial(env, serial, a, env.shardOf(w.obj));
    forall s | s in a.txs[u].held ensures serial'[s] == serial[s] {
      DirectShard(env, serial, a, w, newId, s);
    }
    TxStable(env, serial, serial', a.txs[u]);
  }

  lemma DirectKept(env: Env, serial: Shards, a: Sys, w: Write, newId: nat)
    requires LocksOk(a) && TxsOk(env, serial, a) && ShardsOk(env, serial, a)
    requires Enabled(env, a, Direct(w, newId))
    ensures var e := DirectEntry(env, a.shards, w, newId);
            var b := Do(env, a, Direct(w, newId));
            TxsOk(env, RunEntry(env, serial, e), b) && ShardsOk(env, RunEntry(env, serial, e), b)
  {
    var b := Do(env, a, Direct(w, newId));
    var serial' := RunEntry(env, serial, DirectEntry(env, a.shards, w, newId));
    forall s: ShardId ensures ShardOk(env, serial', b, s) {
      DirectShard(env, serial, a, w, newId, s);
    }
    forall u | u in b.txs ensures b.txs[u].id == u && TxOk(env, serial', b.txs[u]) {
      DirectTxKept(env, serial, a, w, newId, u);
    }
  }

  lemma LoggedSnoc(log: seq<Entry>, e: Entry)
    ensures Logged(log + [e]) == Logged(log) + (if e.id.Some? then {e.id.value} else {})
  {
    var next := log + [e];
    assert next[|log|] == e;
    assert forall i | 0 <= i < |log| :: next[i] == log[i];
    forall t | t in Logged(log) ensures t in Logged(next) {
      var i :| 0 <= i < |log| && log[i].id == Some(t);
      assert next[i].id == Some(t);
    }
  }

  /** A record that keeps its operations and its committed flag does not disturb the log. */
  lemma LogKept(a: Sys, t: TxId, tx: Tx)
    requires LogOk(a) && t in a.txs
    requires tx.state.Committed? <==> a.txs[t].state.Committed?
    requires tx.state.Committed? ==> tx.ops == a.txs[t].ops && tx.isolation == a.txs[t].isolation
    ensures LogOk(a.(txs := a.txs[t := tx]))
  {
    forall i | 0 <= i < |a.log| ensures EntryOk(a.txs[t := tx], a.log[i]) {
      assert EntryOk(a.txs, a.log[i]);
    }
  }

  lemma LogGrows(a: Sys, b: Sys, e: Entry)
    requires LogOk(a) && b.log == a.log + [e] && a.txs.Keys <= b.txs.Keys
    requires EntryOk(b.txs, e) && (e.id.Some? ==> e.id.value in a.txs && !a.txs[e.id.value].state.Committed?)
    requires forall t | t in b.txs && e.id != Some(t) :: t in a.txs && b.txs[t] == a.txs[t]
    ensures LogOk(b)
  {
    LoggedSnoc(a.log, e);
    forall i | 0 <= i < |b.log| ensures EntryOk(b.txs, b.log[i]) {
      if i < |a.log| { assert EntryOk(a.txs, a.log[i]); }
    }
    forall i, j | 0 <= i < j < |b.log| && b.log[i].id.Some? ensures b.log[i].id != b.log[j].id {
      assert EntryOk(a.txs, a.log[i]);
    }
  }

  lemma LogStep(env: Env, serial: Shards, a: Sys, step: Step)
    requires TxsOk(env, serial, a) && LogOk(a) && Enabled(env, a, step)
    ensures LogOk(Do(env, a, step))
  {
    var b := Do(env, a, step);
    if step.Begin? {
      forall i | 0 <= i < |a.log| ensures EntryOk(b.txs, b.log[i]) { assert EntryOk(a.txs, a.log[i]); }
    } else if step.Direct? {
      LogGrows(a, b, DirectEntry(env, a.shards, step.w, step.newId));
    } else {
      assert TxOk(env, serial, a.txs[step.t]);
      if step.act.CommitPoint? {
        LogGrows(a, b, TxEntry(a.txs[step.t], step.act.rot));
      } else {
        LogKept(a, step.t, b.txs[step.t]);
      }
    }
  }

  /** Only the last step of a transaction ends its registration. */
  lemma DoneOnlyAtEnd(env: Env, a: Sys, tx: Tx, act: Act)
    requires CanAct(env, a, tx, act)
    ensures !tx.pc.Done? && (NextTx(env, a, tx, act).pc.Done? <==> act.Unregister?)
  {
  }

  lemma RegistryKept(env: Env, serial: Shards, a: Sys, step: Step)
    requires RegistryOk(a) && Enabled(env, a, step)
    ensures RegistryOk(Do(env, a, step))
  {
    if step.Own? { DoneOnlyAtEnd(env, a, a.txs[step.t], step.act); }
  }

  // ------------------------------------------------------------------ whole runs

  lemma TxsKept(env: Env, serial: Shards, a: Sys, step: Step)
    requires LocksOk(a) && TxsOk(env, serial, a) && ShardsOk(env, serial, a)
    requires Enabled(env, a, step) && !step.Direct? && !(step.Own? && step.act.CommitPoint?)
    ensures TxsOk(env, serial, Do(env, a, step))
  {
    var b := Do(env, a, step);
    if step.Own? {
      assert TxOk(env, serial, a.txs[step.t]);
      OwnTxKept(env, serial, a, step.t, step.act);
    }
    forall t | t in b.txs ensures TxOk(env, serial, b.txs[t]) {
      if t != step.t { assert TxOk(env, serial, a.txs[t]); }
    }
  }

  lemma TxLegal(env: Env, serial: Shards, a: Sys, t: TxId, rot: map<ShardId, nat>)
    requires TxsOk(env, serial, a) && ShardsOk(env, serial, a)
    requires t in a.txs && CanAct(env, a, a.txs[t], CommitPoint(rot))
    ensures EntryLegal(env, serial, TxEntry(a.txs[t], rot))
  {
    var tx := a.txs[t];
    assert TxOk(env, serial, tx) && tx.ops[..tx.pc.k] == tx.ops;
    forall s | s in rot ensures Fresh(DoOps(env, serial, tx.ops, Some(t))[s], rot[s]) {
      assert ShardOk(env, serial, a, s);
      assert Dirty(tx, s);
      DoOpsAt(env, serial, tx.ops, Some(t), s);
    }
  }

  lemma DirectLegal(env: Env, serial: Shards, a: Sys, w: Write, newId: nat)
    requires LocksOk(a) && ShardsOk(env, serial, a) && Enabled(env, a, Direct(w, newId))
    ensures EntryLegal(env, serial, DirectEntry(env, a.shards, w, newId))
  {
    var s := env.shardOf(w.obj);
    UnlockedIsSerial(env, serial, a, s);
    var ops := [Mutate(w)];
    assert ops[..0] == [];
    assert DoOps(env, serial, ops, None) == DoOp(env, DoOps(env, serial, [], None), ops[0], None);
    assert Produced(env, serial, ops, None) == Produced(env, serial, [], None) + NewIds(env, DoOps(env, serial, [], None), ops[0], None);
  }

  /** Records, shards and serial history across a step that adds to the log. */
  lemma HistoryGrows(env: Env, init: Shards, a: Sys, step: Step)
    requires LocksOk(a) && LegalSerial(env, init, a.log) && Enabled(env, a, step)
    requires TxsOk(env, Serial(env, init, a.log), a) && ShardsOk(env, Serial(env, init, a.log), a)
    requires step.Direct? || (step.Own? && step.act.CommitPoint?)
    ensures var b := Do(env, a, step);
            && LegalSerial(env, init, b.log)
            && TxsOk(env, Serial(env, init, b.log), b) && ShardsOk(env, Serial(env, init, b.log), b)
  {
    var serial := Serial(env, init, a.log);
    var e := if step.Direct?
      then DirectEntry(env, a.shards, step.w, step.newId)
      else TxEntry(a.txs[step.t], step.act.rot);
    assert Do(env, a, step).log == a.log + [e];
    if step.Direct? { DirectLegal(env, serial, a, step.w, step.newId); } else { TxLegal(env, serial, a, step.t, step.act.rot); }
    SerialSnoc(env, init, a.log, e);
    if step.Direct? {
      DirectKept(env, serial, a, step.w, step.newId);
    } else {
      CommitKept(env, serial, a, step.t, step.act.rot);
    }
  }

  lemma StepKeepsInv(env: Env, init: Shards, a: Sys, step: Step)
    requires Inv(env, init, a) && Enabled(env, a, step)
    ensures Inv(env, init, Do(env, a, step))
  {
    var serial := Serial(env, init, a.log);
    LocksKept(env, serial, a, step);
    LogStep(env, serial, a, step);
    RegistryKept(env, serial, a, step);
    if step.Direct? || (step.Own? && step.act.CommitPoint?) {
      HistoryGrows(env, init, a, step);
    } else {
      ShardsKept(env, serial, a, step);
      TxsKept(env, serial, a, step);
    }
  }

  lemma InitInv(env: Env, shards: Shards)
    ensures Inv(env, shards, InitSys(shards))
  {
    var a := InitSys(shards);
    forall s: ShardId ensures Agrees(a.locks[s], Holders(a.txs, s)) {
      assert Holders(a.txs, s) == map[];
    }
  }

  lemma {:induction false} RunKeepsInv(env: Env, init: Shards, a: Sys, steps: seq<Step>)
    requires Inv(env, init, a) && Runs(env, a, steps)
    ensures Inv(env, init, Exec(env, a, steps))
    decreases |steps|
  {
    if steps != [] {
      StepKeepsInv(env, init, a, steps[0]);
      RunKeepsInv(env, init, Do(env, a, steps[0]), steps[1..]);
    }
  }

  /**
   Serializability, for every interleaving: the log holds each committed transaction
   exactly once; run serially in that order every validation succeeds again; and every
   shard no writer holds is exactly as the serial run leaves it, at every moment.
   */
  lemma CommitOrderIsSerial(env: Env, init: Shards, steps: seq<Step>)
    requires Runs(env, InitSys(init), steps)
    ensures var b := Exec(env, InitSys(init), steps);
            && LegalSerial(env, init, b.log)
            && (forall s: ShardId | !b.locks[s].Writer? :: b.shards[s] == Serial(env, init, b.log)[s])
            && (forall t | t in b.txs :: b.txs[t].state.Committed? <==> t in Logged(b.log))
            && (forall i, j | 0 <= i < j < |b.log| && b.log[i].id.Some? :: b.log[i].id != b.log[j].id)
            && (forall i | 0 <= i < |b.log| :: EntryOk(b.txs, b.log[i]))
  {
    InitInv(env, init);
    RunKeepsInv(env, init, InitSys(init), steps);
    var b := Exec(env, InitSys(init), steps);
    forall s: ShardId | !b.locks[s].Writer? ensures b.shards[s] == Serial(env, init, b.log)[s] {
      UnlockedIsSerial(env, Serial(env, init, b.log), b, s);
    }
    forall t | t in Logged(b.log) ensures t in b.txs && b.txs[t].state.Committed? {
      var i :| 0 <= i < |b.log| && b.log[i].id == Some(t);
      assert EntryOk(b.txs, b.log[i]);
    }
  }

  /** Nobody is in the middle of a commit. */
  ghost predicate NoCommitUnderWay(b: Sys) {
    forall t | t in b.txs :: !b.txs[t].pc.Writing? && !b.txs[t].pc.Organizing?
  }

  lemma RestingShard(env: Env, serial: Shards, b: Sys, s: ShardId)
    requires ShardsOk(env, serial, b)
    requires NoCommitUnderWay(b)
    ensures b.shards[s] == serial[s]
  {
    assert ShardOk(env, serial, b, s);
    assert Clean(b.txs, s);
  }

  lemma RestingLedger(env: Env, serial: Shards, b: Sys)
    requires ShardsOk(env, serial, b)
    requires NoCommitUnderWay(b)
    ensures b.shards == serial
  {
    forall s | 0 <= s < NUM_SHARDS ensures b.shards[s] == serial[s] {
      RestingShard(env, serial, b, s);
    }
  }

  /** Once nobody is in the middle of a commit, the whole ledger is the serial one. */
  lemma QuiescentLedgerIsSerial(env: Env, init: Shards, steps: seq<Step>)
    requires Runs(env, InitSys(init), steps)
    requires NoCommitUnderWay(Exec(env, InitSys(init), steps))
    ensures var b := Exec(env, InitSys(init), steps);
            b.shards == Serial(env, init, b.log)
  {
    InitInv(env, init);
    RunKeepsInv(env, init, InitSys(init), steps);
    var b := Exec(env, InitSys(init), steps);
    assert ShardsOk(env, Serial(env, init, b.log), b);
    RestingLedger(env, Serial(env, init, b.log), b);
  }

  // --------------------------------------------------------------------- the order of locking

  /** While it takes its locks, a transaction holds the smallest of its planned shards. */
  predicate InOrder(tx: Tx) {
    tx.pc.Locking? ==> forall s, u | s in tx.held && u in tx.pc.todo :: s < u
  }

  ghost predicate AllInOrder(a: Sys) {
    forall t | t in a.txs :: InOrder(a.txs[t])
  }

  lemma StepKeepsOrder(env: Env, init: Shards, a: Sys, step: Step)
    requires Inv(env, init, a) && AllInOrder(a) && Enabled(env, a, step)
    ensures AllInOrder(Do(env, a, step))
  {
    if step.Own? { OwnKeepsOrder(env, Serial(env, init, a.log), a, step.t, step.act); }
  }

  lemma OwnKeepsOrder(env: Env, serial: Shards, a: Sys, t: TxId, act: Act)
    requires t in a.txs && CanAct(env, a, a.txs[t], act) && TxsOk(env, serial, a) && InOrder(a.txs[t])
    ensures InOrder(NextTx(env, a, a.txs[t], act))
  {
    assert TxOk(env, serial, a.txs[t]);
  }

  lemma {:induction false} RunKeepsOrder(env: Env, init: Shards, a: Sys, steps: seq<Step>)
    requires Inv(env, init, a) && AllInOrder(a) && Runs(env, a, steps)
    ensures AllInOrder(Exec(env, a, steps))
    decreases |steps|
  {
    if steps != [] {
      StepKeepsInv(env, init, a, steps[0]);
      StepKeepsOrder(env, init, a, steps[0]);
      RunKeepsOrder(env, init, Do(env, a, steps[0]), steps[1..]);
    }
  }

  /**
   In every run locks are taken from the smallest shard up.  So no two transactions on their way
   each hold a shard that the other one has still to take.
   */
  lemma LocksAreTakenInOrder(env: Env, init: Shards, steps: seq<Step>, t: TxId, u: TxId)
    requires Runs(env, InitSys(init), steps)
    requires var b := Exec(env, InitSys(init), steps);
             t in b.txs && u in b.txs && b.txs[t].pc.Locking? && b.txs[u].pc.Locking?
    ensures var b := Exec(env, InitSys(init), steps);
            && (forall s, r | s in b.txs[t].held && r in b.txs[t].pc.todo :: s < r)
            && !exists s, r :: s in b.txs[t].held && s in b.txs[u].pc.todo && r in b.txs[u].held && r in b.txs[t].pc.todo
  {
    InitInv(env, init);
    RunKeepsOrder(env, init, InitSys(init), steps);
    var b := Exec(env, InitSys(init), steps);
    assert InOrder(b.txs[t]) && InOrder(b.txs[u]);
  }

  // -------------------------------------------------------------- what validation amounts to

  lemma KeyIsValidIff(k: string)
    ensures ValidKey(k) <==> |k| > 0 && forall i | 0 <= i < |k| :: k[i] in KEY_CHARS
  {
    forall i | 0 <= i < |k|
      ensures k[i] in KEY_CHARS <==> 'a' <= k[i] <= 'z' || 'A' <= k[i] <= 'Z' || '0' <= k[i] <= '9' || k[i] == '_'
    {
      RangesAreLetters(k[i]);
      InFour(k[i], UPPER, LOWER, DIGITS, "_");
    }
  }

  lemma InFour(x: char, a: string, b: string, c: string, d: string)
    ensures x in a + b + c + d <==> x in a || x in b || x in c || x in d
  {
  }

  /** An operation is valid exactly if, asked again, it still gets its answer. */
  lemma ValidIffAnswers(env: Env, shards: Shards, isolation: Isolation, op: Op)
    ensures OpValid(env, shards, isolation, op) <==> StillAnswers(env, shards, isolation, op)
  {
    if op.Mutate? { KeyIsValidIff(op.w.obj.key); }
    if op.Find? { FindValidIffAnswers(env, shards, isolation, op); }
  }

  lemma FindValidIffAnswers(env: Env, shards: Shards, isolation: Isolation, op: Op)
    requires op.Find?
    ensures OpValid(env, shards, isolation, op) <==> StillAnswers(env, shards, isolation, op)
  {
    forall i | 0 <= i < |op.results|
      ensures var o := Obj(op.collection, op.results[i].0);
              && (Exists(env, shards, o) <==> Current(shards[env.shardOf(o)], o).Some?)
              && (StillAt(env, shards, o, op.results[i].1) <==> Latest(env, shards, o, op.results[i].1)) {}
  }

  ghost predicate AllAnswer(env: Env, shards: Shards, isolation: Isolation, ops: seq<Op>) {
    forall j | 0 <= j < |ops| :: StillAnswers(env, shards, isolation, ops[j])
  }

  lemma ValidatesIffAnswers(env: Env, shards: Shards, isolation: Isolation, ops: seq<Op>)
    ensures Validates(env, shards, isolation, ops) <==> AllAnswer(env, shards, isolation, ops)
  {
    forall j | 0 <= j < |ops| ensures OpValid(env, shards, isolation, ops[j]) <==> StillAnswers(env, shards, isolation, ops[j]) {
      ValidIffAnswers(env, shards, isolation, ops[j]);
    }
  }

  /** In every run, at its place in the serial order, every read of a committed transaction gets its recorded answer again. */
  lemma CommittedAnswersHold(env: Env, init: Shards, steps: seq<Step>, i: nat)
    requires Runs(env, InitSys(init), steps) && i < |Exec(env, InitSys(init), steps).log|
    ensures var log := Exec(env, InitSys(init), steps).log;
            AllAnswer(env, Serial(env, init, log[..i]), log[i].isolation, log[i].ops)
  {
    CommitOrderIsSerial(env, init, steps);
    var log := Exec(env, InitSys(init), steps).log;
    assert EntryLegal(env, Serial(env, init, log[..i]), log[i]);
    ValidatesIffAnswers(env, Serial(env, init, log[..i]), log[i].isolation, log[i].ops);
  }

  /** Whether an object is there: what a committed transaction saw is so at its place in the serial order. */
  lemma CommittedHasRepeats(env: Env, init: Shards, steps: seq<Step>, i: nat, j: nat)
    requires Runs(env, InitSys(init), steps)
    requires var log := Exec(env, InitSys(init), steps).log;
             i < |log| && j < |log[i].ops| && log[i].ops[j].Has?
    ensures var log := Exec(env, InitSys(init), steps).log;
            var op := log[i].ops[j];
            op.found <==> Current(Serial(env, init, log[..i])[env.shardOf(op.obj)], op.obj).Some?
  {
    CommittedAnswersHold(env, init, steps, i);
    var log := Exec(env, InitSys(init), steps).log;
    assert StillAnswers(env, Serial(env, init, log[..i]), log[i].isolation, log[i].ops[j]);
  }

  /** Every object a committed repeatable query found has the recorded event as its latest one. */
  lemma CommittedResultsRepeat(env: Env, init: Shards, steps: seq<Step>, i: nat, j: nat, k: nat)
    requires Runs(env, InitSys(init), steps)
    requires var log := Exec(env, InitSys(init), steps).log;
             i < |log| && j < |log[i].ops| && log[i].ops[j].Find? && k < |log[i].ops[j].results| && log[i].isolation != Serializable
    ensures var log := Exec(env, InitSys(init), steps).log;
            var o, eid := Obj(log[i].ops[j].collection, log[i].ops[j].results[k].0), log[i].ops[j].results[k].1;
            var sh := Serial(env, init, log[..i])[env.shardOf(o)];
            Current(sh, o).Some? && (log[i].isolation == RepeatableRead ==> eid == EventId(env.shardOf(o), sh.latest[o]))
  {
    CommittedAnswersHold(env, init, steps, i);
    var log := Exec(env, InitSys(init), steps).log;
    assert StillAnswers(env, Serial(env, init, log[..i]), log[i].isolation, log[i].ops[j]);
  }

  /** A transaction with an answer that is no longer right does not validate. */
  lemma StaleAnswerFails(env: Env, shards: Shards, isolation: Isolation, ops: seq<Op>, j: nat)
    requires j < |ops| && ops[j].Has? && ops[j].found != Current(shards[env.shardOf(ops[j].obj)], ops[j].obj).Some?
    ensures !AllAnswer(env, shards, isolation, ops)
  {
    assert !StillAnswers(env, shards, isolation, ops[j]);
  }

  /** The shards an operation needs: those of its objects, and all of them for a serializable query. */
  ghost predicate Needs(env: Env, isolation: Isolation, op: Op, s: ShardId) {
    match op
    case Get(obj, _) => env.shardOf(obj) == s
    case Has(obj, _) => env.shardOf(obj) == s
    case Find(c, _, results, _) => isolation == Serializable || exists i | 0 <= i < |results| :: env.shardOf(Obj(c, results[i].0)) == s
    case Mutate(w) => env.shardOf(w.obj) == s
  }

  lemma {:induction false} ShardsCount(n: nat)
    requires n <= NUM_SHARDS
    ensures |ShardsBelow(n)| == n
  {
    if n > 0 { ShardsCount(n - 1); }
  }

  /** A serializable query needs 64 shards. */
  lemma QueryNeedsAll(env: Env, op: Op)
    requires op.Find?
    ensures |Touched(env, Serializable, op)| == 64
  {
    ShardsCount(NUM_SHARDS);
  }

  lemma TouchedIs(env: Env, isolation: Isolation, op: Op, s: ShardId)
    ensures s in Touched(env, isolation, op) <==> Needs(env, isolation, op, s)
  {
  }

  /** In every run a transaction plans exactly the shards its operations need, for writing exactly where one writes. */
  lemma PlannedIff(env: Env, init: Shards, steps: seq<Step>, t: TxId, s: ShardId)
    requires Runs(env, InitSys(init), steps) && t in Exec(env, InitSys(init), steps).txs
    ensures var tx := Exec(env, InitSys(init), steps).txs[t];
            && (s in tx.plan <==> exists j | 0 <= j < |tx.ops| :: Needs(env, tx.isolation, tx.ops[j], s))
            && (s in tx.plan ==> (tx.plan[s] == Mode.Write <==> exists j | 0 <= j < |tx.ops| :: tx.ops[j].Mutate? && env.shardOf(tx.ops[j].w.obj) == s))
  {
    InitInv(env, init);
    RunKeepsInv(env, init, InitSys(init), steps);
    var b := Exec(env, InitSys(init), steps);
    var tx := b.txs[t];
    assert TxOk(env, Serial(env, init, b.log), tx);
    PlannedIn(env, tx, s);
  }

  lemma PlannedIn(env: Env, tx: Tx, s: ShardId)
    requires Strongest(env, tx.isolation, tx.plan, tx.ops)
    ensures s in tx.plan <==> exists j | 0 <= j < |tx.ops| :: Needs(env, tx.isolation, tx.ops[j], s)
    ensures s in tx.plan ==> (tx.plan[s] == Mode.Write <==> exists j | 0 <= j < |tx.ops| :: tx.ops[j].Mutate? && env.shardOf(tx.ops[j].w.obj) == s)
  {
    forall j | 0 <= j < |tx.ops| ensures s in Touched(env, tx.isolation, tx.ops[j]) <==> Needs(env, tx.isolation, tx.ops[j], s) {
      TouchedIs(env, tx.isolation, tx.ops[j], s);
    }
    if s in tx.plan {
      var j :| 0 <= j < |tx.ops| && s in Touched(env, tx.isolation, tx.ops[j]);
      assert Needs(env, tx.isolation, tx.ops[j], s);
      if j' :| 0 <= j' < |tx.ops| && tx.ops[j'].Mutate? && env.shardOf(tx.ops[j'].w.obj) == s {
        assert WritesTo(env, tx.ops[j'], s);
      }
    }
  }

  /** Nobody holds a planned shard in a way that excludes the plan. */
  ghost predicate NoConflict(a: Sys, plan: map<ShardId, Mode>) {
    forall u, s {:trigger a.txs[u], plan[s]} | u in a.txs && s in plan && s in a.txs[u].held :: plan[s] == Read && a.txs[u].held[s] == Read
  }

  lemma AvailableIffNoConflict(a: Sys, s: ShardId, m: Mode)
    requires LocksOk(a)
    ensures Available(a.locks[s], m) <==> forall u | u in a.txs && s in a.txs[u].held :: m == Read && a.txs[u].held[s] == Read
  {
    var h := Holders(a.txs, s);
    assert Agrees(a.locks[s], h);
    AvailableIff(a.locks[s], h, m);
    forall u | u in a.txs && s in a.txs[u].held ensures u in h && h[u] == a.txs[u].held[s] {}
    if Available(a.locks[s], m) {
      forall u | u in a.txs && s in a.txs[u].held ensures m == Read && a.txs[u].held[s] == Read { assert u in h; }
    } else if m == Read {
      var u :| u in h && h[u] != Read;
      assert u in a.txs && s in a.txs[u].held;
    } else {
      assert h != map[];
      var u :| u in h;
      assert u in a.txs && s in a.txs[u].held;
    }
  }

  /** The event a committed repeatable read recorded is the latest one in the serial run. */
  lemma RecordedReadsRepeat(env: Env, init: Shards, steps: seq<Step>, i: nat, j: nat)
    requires Runs(env, InitSys(init), steps)
    requires var log := Exec(env, InitSys(init), steps).log;
             i < |log| && j < |log[i].ops| && log[i].ops[j].Get? && log[i].isolation != ReadCommitted
    ensures var log := Exec(env, InitSys(init), steps).log;
            var op := log[i].ops[j];
            var sh := Serial(env, init, log[..i])[ShardOf(env, op)];
            Current(sh, op.obj).Some? && op.eid == EventId(ShardOf(env, op), sh.latest[op.obj])
  {
    CommitOrderIsSerial(env, init, steps);
    var log := Exec(env, InitSys(init), steps).log;
    assert EntryLegal(env, Serial(env, init, log[..i]), log[i]);
  }

  /** `x` is the latest event of the live object under the key, and the object's document matches the query. */
  ghost predicate Matched(env: Env, shards: Shards, c: string, q: string, k: string, x: EventId) {
    var o := Obj(c, k);
    var sh := shards[env.shardOf(o)];
    && Current(sh, o).Some? && env.matches(q, Current(sh, o).value.fields)
    && x == EventId(env.shardOf(o), sh.latest[o])
  }

  /** The answers of a query: the latest events of all live objects of the collection that match it. */
  ghost predicate AnswersAt(env: Env, shards: Shards, c: string, q: string, ids: set<EventId>) {
    && (forall k, x | Matched(env, shards, c, q, k, x) :: x in ids)
    && (forall x | x in ids :: exists k :: Matched(env, shards, c, q, k, x))
  }

  lemma MatchedIsAnswer(env: Env, shards: Shards, c: string, q: string, k: string, x: EventId)
    ensures Matched(env, shards, c, q, k, x) <==> IsAnswer(env, shards, c, q, k) && AnswerId(env, shards, c, k) == x
  {
  }

  /**
   No phantoms: at its place in the serial order, a committed serializable query recorded exactly
   the ids of all its answers, if and only if the recorded ids and the answers are of one shard.
   */
  lemma CommittedFindIsExactIff(env: Env, init: Shards, steps: seq<Step>, i: nat, j: nat, ids: set<EventId>)
    requires Runs(env, InitSys(init), steps)
    requires var log := Exec(env, InitSys(init), steps).log;
             && i < |log| && j < |log[i].ops| && log[i].ops[j].Find? && log[i].isolation == Serializable
             && AnswersAt(env, Serial(env, init, log[..i]), log[i].ops[j].collection, log[i].ops[j].query, ids)
    ensures var recorded := IdsOf(RecordedIds(Exec(env, InitSys(init), steps).log[i].ops[j].results));
            recorded == ids <==> OneShard(recorded + ids)
  {
    CommitOrderIsSerial(env, init, steps);
    var e := Exec(env, InitSys(init), steps).log[i];
    var op, shards := e.ops[j], Serial(env, init, Exec(env, InitSys(init), steps).log[..i]);
    assert EntryLegal(env, shards, e);
    assert OpValid(env, shards, e.isolation, op);
    ValidFindIsExactIff(env, shards, op, ids);
  }

  lemma ValidFindIsExactIff(env: Env, shards: Shards, op: Op, ids: set<EventId>)
    requires op.Find? && OpValid(env, shards, Serializable, op) && AnswersAt(env, shards, op.collection, op.query, ids)
    ensures var recorded := IdsOf(RecordedIds(op.results)); recorded == ids <==> OneShard(recorded + ids)
  {
    var listed := ListAnswers(env, shards, op.collection, op.query, op.order);
    ListIsAnswers(env, shards, op.collection, op.query, op.order);
    var all := Answers(env, shards, op.collection, op.query, op.order);
    forall x | x in ids ensures x in all {
      var k :| Matched(env, shards, op.collection, op.query, k, x);
      MatchedIsAnswer(env, shards, op.collection, op.query, k, x);
      CompleteCovers(env, shards, op.collection, op.query, op.order, k);
    }
    forall x | x in all ensures x in ids {
      var k :| k in op.order && IsAnswer(env, shards, op.collection, op.query, k) && AnswerId(env, shards, op.collection, k) == x;
      MatchedIsAnswer(env, shards, op.collection, op.query, k, x);
    }
    assert ids == all;
    AcceptedIsExactIff(RecordedIds(op.results), listed);
  }

  /**
   The registry holds the pending and prepared transactions (and those whose cleanup is
   under way); a prepared one holds every lock it needs, in the strongest mode any of its
   operations asked for; a finished one holds nothing.
   */
  lemma RegistryTracksTransactions(env: Env, init: Shards, steps: seq<Step>, t: TxId)
    requires Runs(env, InitSys(init), steps)
    ensures var b := Exec(env, InitSys(init), steps);
            && (t in b.registry ==> t in b.txs)
            && (t in b.txs ==>
                  var tx := b.txs[t];
                  && (!tx.pc.Organizing? && !tx.pc.Releasing? ==>
                        (t in b.registry <==> tx.state.Pending? || tx.state.Prepared?))
                  && (tx.state.Prepared? ==> Strongest(env, tx.isolation, tx.held, tx.ops))
                  && (tx.pc.Done? ==> tx.held == map[] && (tx.state.Committed? || tx.state.Aborted?)))
  {
    InitInv(env, init);
    RunKeepsInv(env, init, InitSys(init), steps);
    var b := Exec(env, InitSys(init), steps);
    if t in b.txs { assert TxOk(env, Serial(env, init, b.log), b.txs[t]); }
  }

  /** Some run from an initial state with the shards `init` ends in `a`. */
  ghost predicate Reachable(env: Env, init: Shards, a: Sys) {
    exists steps :: Runs(env, InitSys(init), steps) && Exec(env, InitSys(init), steps) == a
  }

  lemma {:induction false} RunSnoc(env: Env, a: Sys, steps: seq<Step>, step: Step)
    requires Runs(env, a, steps) && Enabled(env, Exec(env, a, steps), step)
    ensures Runs(env, a, steps + [step]) && Exec(env, a, steps + [step]) == Do(env, Exec(env, a, steps), step)
    decreases |steps|
  {
    if steps == [] {
      assert (steps + [step])[1..] == [];
    } else {
      RunSnoc(env, Do(env, a, steps[0]), steps[1..], step);
      assert (steps + [step])[1..] == steps[1..] + [step];
    }
  }

  lemma ReachableStep(env: Env, init: Shards, a: Sys, step: Step)
    requires Reachable(env, init, a) && Enabled(env, a, step)
    ensures Reachable(env, init, Do(env, a, step))
  {
    var steps :| Runs(env, InitSys(init), steps) && Exec(env, InitSys(init), steps) == a;
    RunSnoc(env, InitSys(init), steps, step);
  }

  lemma ReachableInit(env: Env, init: Shards)
    ensures Reachable(env, init, InitSys(init))
  {
    assert Runs(env, InitSys(init), []) && Exec(env, InitSys(init), []) == InitSys(init);
  }

  lemma ReachableInv(env: Env, init: Shards, a: Sys)
    requires Reachable(env, init, a)
    ensures Inv(env, init, a)
  {
    var steps :| Runs(env, InitSys(init), steps) && Exec(env, InitSys(init), steps) == a;
    InitInv(env, init);
    RunKeepsInv(env, init, InitSys(init), steps);
  }

  lemma ReachableLocks(env: Env, init: Shards, a: Sys)
    requires Reachable(env, init, a)
    ensures LocksOk(a)
  {
    ReachableInv(env, init, a);
  }

  /** Between calls, a transaction's state says where it stands and which locks it has. */
  lemma RestingRecord(env: Env, init: Shards, a: Sys, t: TxId)
    requires Reachable(env, init, a) && t in a.txs
    requires a.txs[t].pc.Idle? || a.txs[t].pc.Ready? || a.txs[t].pc.Done?
    ensures a.txs[t].id == t && (a.txs[t].pc.Ready? ==> a.txs[t].produced == {})
    ensures a.txs[t].pc.Idle? <==> a.txs[t].state.Pending?
    ensures a.txs[t].pc.Ready? <==> a.txs[t].state.Prepared?
    ensures a.txs[t].held == if a.txs[t].pc.Ready? then a.txs[t].plan else map[]
    ensures t in a.registry <==> !a.txs[t].pc.Done?
  {
    ReachableInv(env, init, a);
    assert TxOk(env, Serial(env, init, a.log), a.txs[t]);
  }

  lemma RegistryInTxs(env: Env, init: Shards, a: Sys)
    requires Reachable(env, init, a)
    ensures a.registry <= a.txs.Keys
  {
    ReachableInv(env, init, a);
  }

  /** Once no transaction is registered, no shard is locked. */
  lemma EmptyRegistryFreesLocks(env: Env, init: Shards, a: Sys)
    requires Reachable(env, init, a) && a.registry == {}
    ensures forall s: ShardId :: a.locks[s].Free?
  {
    ReachableInv(env, init, a);
    forall s: ShardId ensures a.locks[s].Free? {
      assert Agrees(a.locks[s], Holders(a.txs, s));
      forall t | t in a.txs ensures a.txs[t].held == map[] {
        assert TxOk(env, Serial(env, init, a.log), a.txs[t]);
      }
      assert Holders(a.txs, s) == map[];
    }
  }
}
