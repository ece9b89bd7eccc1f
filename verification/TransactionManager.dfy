/**
 The transaction manager and the calls on its transactions, each run to its end by one
 thread.  Every method moves the system by steps of the transition system only, so what
 is proved of its runs holds of these calls.
 */
module TransactionManager {
  import opened EventLog
  import opened RWLock
  import opened Transactions
  import Serializability

  /** Nobody is inside prepare, commit or cleanup of `tx`. */
  predicate Resting(tx: Tx) {
    tx.pc.Idle? || tx.pc.Ready? || tx.pc.Done?
  }

  datatype Outcome = Yes | No | InvalidState

  /** All locks of `held` given back. */
  function DropAll(locks: Locks, held: map<ShardId, Mode>): Locks {
    seq(NUM_SHARDS, s requires 0 <= s < NUM_SHARDS => if s in held then Drop(locks[s]) else locks[s])
  }

  function GrabAll(locks: Locks, held: map<ShardId, Mode>): Locks {
    seq(NUM_SHARDS, s requires 0 <= s < NUM_SHARDS =>
      if s in held && Available(locks[s], held[s]) then Grab(locks[s], held[s]) else locks[s])
  }

  /** Taking locks and giving them back again leaves no trace. */
  lemma DropUndoesGrab(a: Sys, held: map<ShardId, Mode>)
    requires Serializability.LocksOk(a)
    requires forall s | s in held :: Available(a.locks[s], held[s])
    ensures DropAll(GrabAll(a.locks, held), held) == a.locks
  {
    forall s: ShardId ensures DropAll(GrabAll(a.locks, held), held)[s] == a.locks[s] {
      assert Agrees(a.locks[s], Serializability.Holders(a.txs, s));
    }
  }

  /** The system after `t` has taken its planned locks except those of `todo`. */
  function Taken(a: Sys, t: TxId, todo: set<ShardId>): Sys
    requires t in a.txs
  {
    var tx := a.txs[t];
    a.(txs := a.txs[t := tx.(pc := Locking(todo), held := tx.plan - todo)],
       locks := GrabAll(a.locks, tx.plan - todo))
  }

  lemma TakenNext(a: Sys, t: TxId, todo: set<ShardId>, s: ShardId)
    requires t in a.txs && s in todo && s in a.txs[t].plan && Available(a.locks[s], a.txs[t].plan[s])
    ensures Taken(a, t, todo).locks[s] == a.locks[s]
    ensures var b, m := Taken(a, t, todo), a.txs[t].plan[s];
            Taken(a, t, todo - {s}) ==
              b.(txs := b.txs[t := b.txs[t].(pc := Locking(todo - {s}), held := b.txs[t].held[s := m])],
                 locks := b.locks[s := Grab(b.locks[s], m)])
  {
    var plan: map<ShardId, Mode> := a.txs[t].plan;
    assert plan - (todo - {s}) == (plan - todo)[s := plan[s]];
    assert GrabAll(a.locks, plan - (todo - {s})) == GrabAll(a.locks, plan - todo)[s := Grab(a.locks[s], plan[s])];
  }

  /** The system after `t` has validated its first `k` operations. */
  function Checked(a: Sys, t: TxId, k: nat): Sys
    requires t in a.txs
  {
    a.(txs := a.txs[t := a.txs[t].(pc := Validating(k))])
  }

  lemma CheckedNext(env: Env, a: Sys, t: TxId, k: nat)
    requires t in a.txs && k < |a.txs[t].ops|
    ensures var tx, b := a.txs[t], Checked(a, t, k);
            && b.shards == a.shards && b.txs[t] == tx.(pc := Validating(k))
            && b.(txs := b.txs[t := b.txs[t].(pc := Validating(k + 1))]) == Checked(a, t, k + 1)
            && b.(txs := b.txs[t := b.txs[t].(state := Aborted, pc := Releasing)]) ==
               a.(txs := a.txs[t := tx.(state := Aborted, pc := Releasing)])
            && (Validates(env, a.shards, tx.isolation, tx.ops[..k + 1]) <==>
                Validates(env, a.shards, tx.isolation, tx.ops[..k]) && OpValid(env, a.shards, tx.isolation, tx.ops[k]))
            && (!OpValid(env, a.shards, tx.isolation, tx.ops[k]) ==> !Validates(env, a.shards, tx.isolation, tx.ops))
  {
    var tx := a.txs[t];
    ValidatesNext(env, a.shards, tx.isolation, tx.ops, k);
  }

  lemma ValidatesNext(env: Env, shards: Shards, isolation: Isolation, ops: seq<Op>, k: nat)
    requires k < |ops|
    ensures Validates(env, shards, isolation, ops[..k + 1]) <==>
            Validates(env, shards, isolation, ops[..k]) && OpValid(env, shards, isolation, ops[k])
  {
    assert ops[..k + 1] == ops[..k] + [ops[k]];
    if Validates(env, shards, isolation, ops[..k + 1]) {
      assert ops[..k + 1][k] == ops[k];
      forall j | 0 <= j < k ensures OpValid(env, shards, isolation, ops[..k][j]) { assert ops[..k + 1][j] == ops[..k][j]; }
    }
  }

  lemma CheckedEnds(env: Env, a: Sys, t: TxId)
    requires t in a.txs && Validates(env, a.shards, a.txs[t].isolation, a.txs[t].ops[..|a.txs[t].ops|])
    ensures var tx, b := a.txs[t], Checked(a, t, |a.txs[t].ops|);
            && Validates(env, a.shards, tx.isolation, tx.ops) && b.txs[t] == tx.(pc := Validating(|tx.ops|))
            && b.(txs := b.txs[t := b.txs[t].(state := Prepared, pc := Ready)]) ==
               a.(txs := a.txs[t := tx.(state := Prepared, pc := Ready)])
  {
    assert a.txs[t].ops[..|a.txs[t].ops|] == a.txs[t].ops;
  }

  /** A transaction on its way out that still holds only the locks in `left`. */
  function LetGo(a: Sys, t: TxId, left: set<ShardId>): Sys
    requires t in a.txs
  {
    var tx := a.txs[t];
    a.(txs := a.txs[t := tx.(held := tx.held - (tx.held.Keys - left))], locks := DropAll(a.locks, tx.held - left))
  }

  lemma LetGoStart(a: Sys, t: TxId)
    requires t in a.txs
    ensures LetGo(a, t, a.txs[t].held.Keys) == a
  {
    var tx := a.txs[t];
    assert tx.held - (tx.held.Keys - tx.held.Keys) == tx.held && tx.held - tx.held.Keys == map[];
    assert DropAll(a.locks, map[]) == a.locks;
    assert a.txs[t := tx] == a.txs;
  }

  lemma LetGoNext(a: Sys, t: TxId, left: set<ShardId>, s: ShardId)
    requires t in a.txs && s in left && left <= a.txs[t].held.Keys
    ensures var b := LetGo(a, t, left);
            && s in b.txs[t].held && b.txs[t].pc == a.txs[t].pc
            && LetGo(a, t, left - {s}) ==
               b.(txs := b.txs[t := b.txs[t].(held := b.txs[t].held - {s})], locks := b.locks[s := Drop(b.locks[s])])
  {
    var held := a.txs[t].held;
    assert held - (held.Keys - (left - {s})) == held - (held.Keys - left) - {s};
    assert DropAll(a.locks, held - (left - {s})) == DropAll(a.locks, held - left)[s := Drop(DropAll(a.locks, held - left)[s])];
  }

  lemma LetGoEnd(a: Sys, t: TxId)
    requires t in a.txs
    ensures var b := LetGo(a, t, {});
            b.txs[t].held == map[] && b.txs[t].pc == a.txs[t].pc && b.locks == DropAll(a.locks, a.txs[t].held)
  {
    assert a.txs[t].held - {} == a.txs[t].held;
  }

  /** The system after `t` has given everything back and left the registry. */
  function Released(a: Sys, t: TxId): Sys
    requires t in a.txs
  {
    Sys(a.txs[t := a.txs[t].(held := map[], pc := Done)], a.registry - {t},
        DropAll(a.locks, a.txs[t].held), a.shards, a.log)
  }

  ghost predicate AllAvailable(locks: Locks, plan: map<ShardId, Mode>) {
    forall s | s in plan :: Available(locks[s], plan[s])
  }

  /** All planned locks are available exactly if no transaction holds one of them in a mode that excludes the plan. */
  lemma AllAvailableIff(a: Sys, plan: map<ShardId, Mode>)
    requires Serializability.LocksOk(a)
    ensures AllAvailable(a.locks, plan) <==> Serializability.NoConflict(a, plan)
  {
    forall s | s in plan
      ensures Available(a.locks[s], plan[s]) <==> forall u | u in a.txs && s in a.txs[u].held :: plan[s] == Read && a.txs[u].held[s] == Read
    {
      Serializability.AvailableIffNoConflict(a, s, plan[s]);
    }
  }

  /** All planned locks but those of `todo` are available. */
  ghost predicate AvailableBut(locks: Locks, plan: map<ShardId, Mode>, todo: set<ShardId>) {
    AllAvailable(locks, plan - todo)
  }

  lemma AvailableNext(locks: Locks, plan: map<ShardId, Mode>, todo: set<ShardId>, s: ShardId)
    requires AvailableBut(locks, plan, todo) && s in plan && Available(locks[s], plan[s])
    ensures AvailableBut(locks, plan, todo - {s})
  {
    forall u | u in plan - (todo - {s}) ensures Available(locks[u], plan[u]) {
      if u != s { assert u in plan - todo; }
    }
  }

  lemma TakenAt(a: Sys, t: TxId, todo: set<ShardId>, s: ShardId)
    requires t in a.txs && s in todo
    ensures var b := Taken(a, t, todo); b.locks[s] == a.locks[s] && b.txs[t].plan == a.txs[t].plan && b.txs[t].pc == Locking(todo)
  {
  }

  /** A transaction that fails to get a lock leaves no trace but its own record. */
  lemma TakenUndone(a: Sys, t: TxId, todo: set<ShardId>)
    requires t in a.txs && a.txs[t].held == map[] && Serializability.LocksOk(a)
    requires AvailableBut(a.locks, a.txs[t].plan, todo)
    ensures var b := Taken(a, t, todo);
            Released(b.(txs := b.txs[t := b.txs[t].(state := Aborted, pc := Releasing)]), t)
              == a.(txs := a.txs[t := a.txs[t].(state := Aborted, pc := Done)], registry := a.registry - {t})
  {
    DropUndoesGrab(a, a.txs[t].plan - todo);
  }

  /** The system after `t` has taken every planned lock. */
  function Locked(a: Sys, t: TxId): Sys
    requires t in a.txs
  {
    a.(txs := a.txs[t := a.txs[t].(pc := Locking({}), held := a.txs[t].plan)], locks := GrabAll(a.locks, a.txs[t].plan))
  }

  /** The system after `t` has prepared. */
  function PreparedBy(a: Sys, t: TxId): Sys
    requires t in a.txs
  {
    a.(txs := a.txs[t := a.txs[t].(state := Prepared, pc := Ready, held := a.txs[t].plan)], locks := GrabAll(a.locks, a.txs[t].plan))
  }

  /** The system after `t` has failed to prepare: only its record tells. */
  function Refused(a: Sys, t: TxId): Sys
    requires t in a.txs
  {
    a.(txs := a.txs[t := a.txs[t].(state := Aborted, pc := Done)], registry := a.registry - {t})
  }

  /** What validation makes of a transaction with all its locks. */
  function Judged(a: Sys, t: TxId, ok: bool): Sys
    requires t in a.txs
  {
    a.(txs := a.txs[t := if ok then a.txs[t].(state := Prepared, pc := Ready) else a.txs[t].(state := Aborted, pc := Releasing)])
  }

  lemma PreparedWhole(a: Sys, t: TxId)
    requires t in a.txs
    ensures var b := Locked(a, t);
            && b.txs[t].pc == Locking({}) && b.shards == a.shards && Judged(b, t, true) == PreparedBy(a, t)
            && b.txs[t].isolation == a.txs[t].isolation && b.txs[t].ops == a.txs[t].ops
  {
  }

  /** A transaction that has all its locks and fails validation leaves no trace but its own record. */
  lemma RefusedWhole(a: Sys, t: TxId)
    requires t in a.txs && Serializability.LocksOk(a) && AllAvailable(a.locks, a.txs[t].plan) && a.txs[t].held == map[]
    ensures var b := Judged(Locked(a, t), t, false); b.txs[t].pc.Releasing? && Released(b, t) == Refused(a, t)
  {
    DropUndoesGrab(a, a.txs[t].plan);
  }

  /** Writing never starts a block, so a fresh page number stays fresh until cleanup. */
  lemma {:induction false} WritesStartNoBlock(env: Env, shards: Shards, ops: seq<Op>, id: Option<TxId>, s: ShardId)
    ensures DoOps(env, shards, ops, id)[s].blocks.Keys == shards[s].blocks.Keys
  {
    if ops != [] { WritesStartNoBlock(env, shards, ops[..|ops| - 1], id, s); }
  }

  /** The system after `t` has organized its written shards except those of `todo`. */
  function Organized(env: Env, a: Sys, t: TxId, todo: set<ShardId>): Sys
    requires t in a.txs
  {
    a.(txs := a.txs[t := a.txs[t].(pc := Organizing(todo))],
       shards := OrganizeAll(env, a.shards, a.txs[t].rot - todo))
  }

  lemma OrganizeAllNext(env: Env, shards: Shards, rot: map<ShardId, nat>, todo: set<ShardId>, s: ShardId)
    requires s in todo && s in rot
    ensures OrganizeAll(env, shards, rot - todo)[s] == shards[s]
    ensures OrganizeAll(env, shards, rot - (todo - {s}))
         == OrganizeAll(env, shards, rot - todo)[s := Organize(env, shards[s], rot[s])]
  {
    var l := OrganizeAll(env, shards, rot - (todo - {s}));
    var r := OrganizeAll(env, shards, rot - todo)[s := Organize(env, shards[s], rot[s])];
    forall i | 0 <= i < NUM_SHARDS ensures l[i] == r[i] {
      OrganizeAllAt(env, shards, rot, todo, s, i);
    }
  }

  lemma OrganizeAllAt(env: Env, shards: Shards, rot: map<ShardId, nat>, todo: set<ShardId>, s: ShardId, i: ShardId)
    requires s in todo && s in rot
    ensures OrganizeAll(env, shards, rot - (todo - {s}))[i] ==
            if i == s then Organize(env, shards[s], rot[s]) else OrganizeAll(env, shards, rot - todo)[i]
  {
    assert i in rot - (todo - {s}) <==> i in rot && (i !in todo || i == s);
    assert i in rot - todo <==> i in rot && i !in todo;
  }

  lemma OrganizedNext(env: Env, a: Sys, t: TxId, todo: set<ShardId>, s: ShardId)
    requires t in a.txs && s in todo && s in a.txs[t].rot
    ensures var b := Organized(env, a, t, todo);
            Organized(env, a, t, todo - {s}) ==
              b.(txs := b.txs[t := b.txs[t].(pc := Organizing(todo - {s}))],
                 shards := b.shards[s := Organize(env, b.shards[s], a.txs[t].rot[s])])
  {
    OrganizeAllNext(env, a.shards, a.txs[t].rot, todo, s);
  }

  /** Nothing organized yet, and everything organized. */
  lemma OrganizedEnds(env: Env, a: Sys, t: TxId)
    requires t in a.txs && a.txs[t].pc == Organizing(a.txs[t].rot.Keys)
    ensures Organized(env, a, t, a.txs[t].rot.Keys) == a
    ensures var b := Organized(env, a, t, {});
            b.(txs := b.txs[t := b.txs[t].(pc := Releasing)]) == AllOrganized(env, a, t)
  {
    var rot: map<ShardId, nat> := a.txs[t].rot;
    assert rot - rot.Keys == map[] && OrganizeAll(env, a.shards, map[]) == a.shards;
    assert rot - {} == rot;
  }

  /** The system after the first `k` operations of `t`. */
  function WrittenTo(env: Env, a: Sys, t: TxId, k: nat): Sys
    requires t in a.txs && k <= |a.txs[t].ops|
  {
    var tx := a.txs[t];
    a.(txs := a.txs[t := tx.(pc := Writing(k), recorded := Predict(env, a.shards, tx.ops),
                             produced := Produced(env, a.shards, tx.ops[..k], Some(t)))],
       shards := DoOps(env, a.shards, tx.ops[..k], Some(t)))
  }

  lemma WrittenNext(env: Env, a: Sys, t: TxId, k: nat)
    requires t in a.txs && k < |a.txs[t].ops|
    ensures var b, op := WrittenTo(env, a, t, k), a.txs[t].ops[k];
            WrittenTo(env, a, t, k + 1) ==
              b.(txs := b.txs[t := b.txs[t].(pc := Writing(k + 1), produced := b.txs[t].produced + NewIds(env, b.shards, op, Some(t)))],
                 shards := DoOp(env, b.shards, op, Some(t)))
  {
    var ops := a.txs[t].ops;
    assert ops[..k + 1][..k] == ops[..k];
  }

  /** The system after the writes of `t`, at its commit point, organized, and cleaned up. */
  function Written(env: Env, a: Sys, t: TxId): Sys
    requires t in a.txs
  {
    WrittenTo(env, a, t, |a.txs[t].ops|)
  }

  function PastCommit(a: Sys, t: TxId, rot: map<ShardId, nat>): Sys
    requires t in a.txs
  {
    var tx := a.txs[t];
    a.(txs := a.txs[t := tx.(state := Committed, pc := Organizing(rot.Keys), rot := rot)],
       log := a.log + [TxEntry(tx, rot)])
  }

  function AllOrganized(env: Env, a: Sys, t: TxId): Sys
    requires t in a.txs
  {
    a.(txs := a.txs[t := a.txs[t].(pc := Releasing)], shards := OrganizeAll(env, a.shards, a.txs[t].rot))
  }

  /** The entry a commit of `t` adds to the log. */
  function CommitEntry(env: Env, a: Sys, t: TxId, rot: map<ShardId, nat>): Entry
    requires t in a.txs
  {
    var tx := a.txs[t];
    Entry(Some(t), tx.isolation, tx.ops, rot, Predict(env, a.shards, tx.ops),
          Produced(env, a.shards, tx.ops, Some(t)))
  }

  /** The four parts of a commit, put together. */
  lemma CommitWhole(env: Env, a: Sys, t: TxId, rot: map<ShardId, nat>)
    requires t in a.txs && a.txs[t].id == t
    ensures var e := CommitEntry(env, a, t, rot);
            Released(AllOrganized(env, PastCommit(Written(env, a, t), t, rot), t), t)
              == Sys(a.txs[t := a.txs[t].(state := Committed, pc := Done, held := map[], rot := rot,
                                          recorded := e.recorded, produced := e.produced)], a.registry - {t},
                     DropAll(a.locks, a.txs[t].held), RunEntry(env, a.shards, e), a.log + [e])
  {
    assert a.txs[t].ops[..|a.txs[t].ops|] == a.txs[t].ops;
  }

  method Least(todo: set<ShardId>) returns (s: ShardId)
    requires todo != {}
    ensures IsNext(todo, s)
  {
    s :| s in todo;
    var rest := todo - {s};
    while rest != {}
      invariant rest <= todo && s in todo
      invariant forall u | u in todo :: u in rest || s <= u
      decreases rest
    {
      var u :| u in rest;
      if u < s { s := u; }
      rest := rest - {u};
    }
  }

  /** Steps that touch no lock, no shard, not the log and not the registry. */
  predicate RecordOnly(act: Act) {
    !act.Acquire? && !act.ReleaseOne? && !act.WriteOne? && !act.OrganizeOne? && !act.CommitPoint? && !act.Unregister?
  }

  class Manager {
    const env: Env
    const uid: nat
    ghost const init: Shards
    var sys: Sys
    var nextLocal: nat
    var made: nat          // transactions made so far

    ghost predicate Valid()
      reads this
    {
      && Serializability.Reachable(env, init, sys)
      && forall t | t in sys.txs :: t.attempt < made
    }

    constructor (env: Env, uid: nat, shards: Shards)
      ensures Valid() && this.env == env && this.uid == uid && init == shards && sys == InitSys(shards)
    {
      this.env, this.uid, this.init := env, uid, shards;
      this.sys, this.nextLocal, this.made := InitSys(shards), 1, 0;
      new;
      Serializability.ReachableInit(env, shards);
    }

    /** One step of the calling thread. */
    method Step(step: Step)
      requires Valid() && Enabled(env, sys, step) && !step.Begin?
      modifies this`sys
      ensures Valid() && sys == Do(env, old(sys), step)
    {
      Serializability.ReachableStep(env, init, sys, step);
      sys := Do(env, sys, step);
    }

    method InitLocal(isolation: Isolation) returns (t: TxId)
      requires Valid()
      modifies this
      ensures Valid() && t !in old(sys.txs) && t.root == uid && t.local == old(nextLocal) && nextLocal == old(nextLocal) + 1
      ensures sys == Do(env, old(sys), Begin(t, isolation))
    {
      t := TxId(uid, nextLocal, made);
      nextLocal, made := nextLocal + 1, made + 1;
      Serializability.ReachableStep(env, init, sys, Begin(t, isolation));
      sys := Do(env, sys, Begin(t, isolation));
    }

    /** The registered transactions under a number. */
    function Registered(root: nat, local: nat): set<TxId>
      reads this
    {
      set t | t in sys.registry && t.root == root && t.local == local
    }

    /**
     A remote transaction that is registered is found, not created again; under a number that is
     not registered, or no longer, a new one begins, unless its root is unknown.
     */
    method InitRemote(root: nat, local: nat, isolation: Isolation, identities: set<nat>) returns (t: Option<TxId>)
      requires Valid()
      modifies this
      ensures Valid()
      ensures t.Some? ==> t.value in Registered(root, local)
      ensures old(Registered(root, local)) != {} ==> t.Some? && t.value in old(Registered(root, local)) && sys == old(sys)
      ensures old(Registered(root, local)) == {} && root !in identities ==> t.None? && sys == old(sys)
      ensures old(Registered(root, local)) == {} && root in identities ==>
                t.Some? && t.value !in old(sys.txs) && sys == Do(env, old(sys), Begin(t.value, isolation))
    {
      var found := Registered(root, local);
      if found != {} {
        var u :| u in found;
        return Some(u);
      }
      if root !in identities {
        return None;
      }
      var u := TxId(root, local, made);
      made := made + 1;
      Serializability.ReachableStep(env, init, sys, Begin(u, isolation));
      sys := Do(env, sys, Begin(u, isolation));
      t := Some(u);
    }

    method RegisterOperation(t: TxId, op: Op)
      requires Valid() && t in sys.txs && sys.txs[t].pc.Idle?
      modifies this`sys
      ensures Valid() && sys == Do(env, old(sys), Own(t, Register(op)))
    {
      Step(Own(t, Register(op)));
    }

    // ------------------------------------------- single steps, by what they change

    /** A step that changes nothing but the transaction's own record. */
    method NoteStep(t: TxId, act: Act)
      requires Valid() && t in sys.txs && CanAct(env, sys, sys.txs[t], act) && RecordOnly(act)
      modifies this`sys
      ensures Valid() && sys == old(sys).(txs := old(sys).txs[t := NextTx(env, old(sys), old(sys).txs[t], act)])
    {
      Step(Own(t, act));
    }

    method TakeLock(t: TxId, s: ShardId)
      requires Valid() && t in sys.txs && sys.txs[t].pc.Locking? && IsNext(sys.txs[t].pc.todo, s)
      requires s in sys.txs[t].plan && Available(sys.locks[s], sys.txs[t].plan[s])
      modifies this`sys
      ensures Valid()
      ensures var a, tx := old(sys), old(sys).txs[t];
              sys == a.(txs := a.txs[t := tx.(pc := Locking(tx.pc.todo - {s}), held := tx.held[s := tx.plan[s]])],
                        locks := a.locks[s := Grab(a.locks[s], tx.plan[s])])
    {
      Step(Own(t, Acquire(s)));
    }

    method ReleaseLock(t: TxId, s: ShardId)
      requires Valid() && t in sys.txs && sys.txs[t].pc.Releasing? && s in sys.txs[t].held
      modifies this`sys
      ensures Valid()
      ensures var a, tx := old(sys), old(sys).txs[t];
              sys == a.(txs := a.txs[t := tx.(held := tx.held - {s})], locks := a.locks[s := Drop(a.locks[s])])
    {
      Step(Own(t, ReleaseOne(s)));
    }

    method Leave(t: TxId)
      requires Valid() && t in sys.txs && sys.txs[t].pc.Releasing? && sys.txs[t].held == map[]
      modifies this`sys
      ensures Valid()
      ensures sys == old(sys).(txs := old(sys).txs[t := old(sys).txs[t].(pc := Done)], registry := old(sys).registry - {t})
    {
      Step(Own(t, Unregister));
    }

    method WriteNext(t: TxId, k: nat)
      requires Valid() && t in sys.txs && sys.txs[t].pc == Writing(k) && k < |sys.txs[t].ops|
      modifies this`sys
      ensures Valid()
      ensures var a, tx := old(sys), old(sys).txs[t];
              sys == a.(txs := a.txs[t := tx.(pc := Writing(k + 1),
                                              produced := tx.produced + NewIds(env, a.shards, tx.ops[k], Some(tx.id)))],
                        shards := DoOp(env, a.shards, tx.ops[k], Some(t)))
    {
      Step(Own(t, WriteOne));
    }

    method PassCommitPoint(t: TxId, rot: map<ShardId, nat>)
      requires Valid() && t in sys.txs && sys.txs[t].pc == Writing(|sys.txs[t].ops|)
      requires rot.Keys == WriteShards(sys.txs[t].plan) && forall s | s in rot :: Fresh(sys.shards[s], rot[s])
      modifies this`sys
      ensures Valid()
      ensures sys == PastCommit(old(sys), t, rot)
    {
      Step(Own(t, CommitPoint(rot)));
    }

    method OrganizeShard(t: TxId, s: ShardId)
      requires Valid() && t in sys.txs && sys.txs[t].pc.Organizing? && s in sys.txs[t].pc.todo && s in sys.txs[t].rot
      modifies this`sys
      ensures Valid()
      ensures var a, tx := old(sys), old(sys).txs[t];
              sys == a.(txs := a.txs[t := tx.(pc := Organizing(tx.pc.todo - {s}))],
                        shards := a.shards[s := Organize(env, a.shards[s], tx.rot[s])])
    {
      Step(Own(t, OrganizeOne(s)));
    }

    // --------------------------------------------------------------- whole calls

    /** The end of `cleanup`: give every lock back and leave the registry. */
    method Release(t: TxId)
      requires Valid() && t in sys.txs && sys.txs[t].pc.Releasing?
      modifies this`sys
      ensures Valid()
      ensures sys == Released(old(sys), t)
    {
      ghost var a := sys;
      var left := sys.txs[t].held.Keys;
      LetGoStart(a, t);
      while left != {}
        invariant Valid() && left <= a.txs[t].held.Keys && sys == LetGo(a, t, left)
        decreases left
      {
        var s :| s in left;
        LetGoNext(a, t, left, s);
        ReleaseLock(t, s);
        left := left - {s};
      }
      LetGoEnd(a, t);
      Leave(t);
    }

    /** `prepare`'s first loop: every planned lock, or none of the rest. */
    method TakeLocks(t: TxId) returns (ok: bool)
      requires Valid() && t in sys.txs && sys.txs[t].pc.Idle? && sys.txs[t].held == map[]
      modifies this`sys
      ensures Valid()
      ensures var a, tx := old(sys), old(sys).txs[t];
              && (ok <==> AllAvailable(a.locks, tx.plan))
              && sys == if ok then Locked(a, t) else Refused(a, t)
    {
      ghost var a := sys;
      ghost var plan: map<ShardId, Mode> := sys.txs[t].plan;
      NoteStep(t, StartPrepare);
      var todo := sys.txs[t].plan.Keys;
      assert plan - todo == map[] && GrabAll(a.locks, map[]) == a.locks;
      while todo != {}
        invariant Valid() && todo <= plan.Keys && sys == Taken(a, t, todo) && AvailableBut(a.locks, plan, todo)
        decreases todo
      {
        var s := Least(todo);
        TakenAt(a, t, todo, s);
        if !Available(sys.locks[s], sys.txs[t].plan[s]) {
          NoteStep(t, LockFail(s));
          Release(t);
          Serializability.ReachableLocks(env, init, a);
          TakenUndone(a, t, todo);
          return false;
        }
        AvailableNext(a.locks, plan, todo, s);
        TakenNext(a, t, todo, s);
        TakeLock(t, s);
        todo := todo - {s};
      }
      assert plan - {} == plan;
      return true;
    }

    /** `prepare`'s second loop: stop at the first operation that no longer holds. */
    method ValidateAll(t: TxId) returns (ok: bool)
      requires Valid() && t in sys.txs && sys.txs[t].pc == Locking({})
      modifies this`sys
      ensures Valid()
      ensures var a, tx := old(sys), old(sys).txs[t];
              && (ok <==> Serializability.AllAnswer(env, a.shards, tx.isolation, tx.ops))
              && sys == Judged(a, t, ok)
    {
      ghost var a := sys;
      NoteStep(t, StartValidate);
      var k, n := 0, |sys.txs[t].ops|;
      while k < n
        invariant Valid() && k <= n == |a.txs[t].ops| && sys == Checked(a, t, k)
        invariant Validates(env, a.shards, a.txs[t].isolation, a.txs[t].ops[..k])
      {
        CheckedNext(env, a, t, k);
        if !OpValid(env, sys.shards, sys.txs[t].isolation, sys.txs[t].ops[k]) {
          Serializability.ValidatesIffAnswers(env, a.shards, a.txs[t].isolation, a.txs[t].ops);
          NoteStep(t, ValidateFail);
          return false;
        }
        NoteStep(t, ValidateOne);
        k := k + 1;
      }
      CheckedEnds(env, a, t);
      Serializability.ValidatesIffAnswers(env, a.shards, a.txs[t].isolation, a.txs[t].ops);
      NoteStep(t, FinishPrepare);
      return true;
    }

    /**
     Prepare succeeds exactly when every lock is free enough and every recorded read still
     holds; when it does not, the transaction is gone and no lock has changed.
     */
    method Prepare(t: TxId) returns (r: Outcome)
      requires Valid() && t in sys.txs && Resting(sys.txs[t])
      modifies this`sys
      ensures Valid()
      ensures var a, tx := old(sys), old(sys).txs[t];
              && (r.InvalidState? <==> !tx.state.Pending?)
              && (r.Yes? <==> (&& tx.state.Pending?
                               && Serializability.NoConflict(a, tx.plan)
                               && Serializability.AllAnswer(env, a.shards, tx.isolation, tx.ops)))
              && (forall j | 0 <= j < |tx.ops| && tx.ops[j].Has? && r.Yes? ::
                    tx.ops[j].found <==> Current(a.shards[env.shardOf(tx.ops[j].obj)], tx.ops[j].obj).Some?)
              && (r.InvalidState? ==> sys == a)
              && (r.Yes? ==> sys == PreparedBy(a, t))
              && (r.No? ==> sys == Refused(a, t))
    {
      ghost var a := sys;
      Serializability.RestingRecord(env, init, a, t);
      if sys.txs[t].state != Pending {
        return InvalidState;
      }
      Serializability.ReachableLocks(env, init, a);
      AllAvailableIff(a, a.txs[t].plan);
      var locked := TakeLocks(t);
      if !locked {
        return No;
      }
      PreparedWhole(a, t);
      var valid := ValidateAll(t);
      if valid {
        forall j | 0 <= j < |a.txs[t].ops| && a.txs[t].ops[j].Has?
          ensures a.txs[t].ops[j].found <==> Current(a.shards[env.shardOf(a.txs[t].ops[j].obj)], a.txs[t].ops[j].obj).Some?
        {
          assert StillAnswers(env, a.shards, a.txs[t].isolation, a.txs[t].ops[j]);
        }
        return Yes;
      }
      Serializability.ReachableLocks(env, init, a);
      RefusedWhole(a, t);
      Release(t);
      return No;
    }

    /** `commit`'s loop over the operations. */
    method WriteAll(t: TxId)
      requires Valid() && t in sys.txs && sys.txs[t].pc.Ready? && sys.txs[t].id == t && sys.txs[t].produced == {}
      modifies this`sys
      ensures Valid()
      ensures sys == Written(env, old(sys), t)
    {
      ghost var a := sys;
      NoteStep(t, StartCommit);
      var k, n := 0, |sys.txs[t].ops|;
      assert a.txs[t].ops[..0] == [];
      while k < n
        invariant Valid() && k <= n == |a.txs[t].ops| && sys == WrittenTo(env, a, t, k)
      {
        WrittenNext(env, a, t, k);
        WriteNext(t, k);
        k := k + 1;
      }
    }

    /** The part of `cleanup` that starts new blocks on the written shards. */
    method OrganizeWritten(t: TxId)
      requires Valid() && t in sys.txs && sys.txs[t].pc == Organizing(sys.txs[t].rot.Keys)
      modifies this`sys
      ensures Valid()
      ensures sys == AllOrganized(env, old(sys), t)
    {
      ghost var a := sys;
      OrganizedEnds(env, a, t);
      var todo := sys.txs[t].rot.Keys;
      while todo != {}
        invariant Valid() && todo <= a.txs[t].rot.Keys && sys == Organized(env, a, t, todo)
        decreases todo
      {
        var s :| s in todo;
        OrganizedNext(env, a, t, todo, s);
        OrganizeShard(t, s);
        todo := todo - {s};
      }
      NoteStep(t, FinishOrganize);
    }

    /**
     Commit of a prepared transaction: the ledger moves as a serial run of the transaction
     would move it, the log gains its entry, every lock is given back.  `rot` supplies the
     page numbers new blocks will get.
     */
    method Commit(t: TxId, rot: map<ShardId, nat>) returns (r: Outcome)
      requires Valid() && t in sys.txs && Resting(sys.txs[t])
      requires rot.Keys == WriteShards(sys.txs[t].plan) && forall s | s in rot :: Fresh(sys.shards[s], rot[s])
      modifies this`sys
      ensures Valid() && !r.No?
      ensures r.InvalidState? <==> !old(sys).txs[t].state.Prepared?
      ensures r.InvalidState? ==> sys == old(sys)
      ensures r.Yes? ==>
                var a, tx := old(sys), old(sys).txs[t];
                var e := CommitEntry(env, a, t, rot);
                sys == Sys(a.txs[t := tx.(state := Committed, pc := Done, held := map[], rot := rot,
                                          recorded := e.recorded, produced := e.produced)], a.registry - {t},
                           DropAll(a.locks, tx.held), RunEntry(env, a.shards, e), a.log + [e])
    {
      ghost var a, tx := sys, sys.txs[t];
      Serializability.RestingRecord(env, init, sys, t);
      if sys.txs[t].state != TxState.Prepared {
        return InvalidState;
      }
      WriteAll(t);
      forall s | s in rot ensures Fresh(sys.shards[s], rot[s]) {
        assert tx.ops[..|tx.ops|] == tx.ops;
        WritesStartNoBlock(env, a.shards, tx.ops, Some(t), s);
      }
      PassCommitPoint(t, rot);
      OrganizeWritten(t);
      Release(t);
      CommitWhole(env, a, t, rot);
      return Yes;
    }

    /** Abort: nothing but the transaction's record, its locks and the registry changes. */
    method Abort(t: TxId) returns (r: Outcome)
      requires Valid() && t in sys.txs && Resting(sys.txs[t])
      modifies this`sys
      ensures Valid() && !r.No?
      ensures var a, tx := old(sys), old(sys).txs[t];
              && (r.InvalidState? <==> tx.state.Committed?)
              && (tx.state.Committed? || tx.state.Aborted? ==> sys == a)
              && (tx.state.Pending? || tx.state.Prepared? ==>
                    sys == Sys(a.txs[t := tx.(state := Aborted, pc := Done, held := map[])], a.registry - {t},
                               DropAll(a.locks, tx.held), a.shards, a.log))
    {
      Serializability.RestingRecord(env, init, sys, t);
      if sys.txs[t].state == TxState.Aborted {
        return Yes;
      } else if sys.txs[t].state == TxState.Committed {
        return InvalidState;
      }
      NoteStep(t, Act.Abort);
      Release(t);
      return Yes;
    }

    /**
     The destructor: abort whatever is registered until nothing is.  It ends, and then
     every shard lock is free and the ledger is the serial one.
     */
    method Shutdown()
      requires Valid() && forall t | t in sys.txs :: Resting(sys.txs[t])
      modifies this`sys
      ensures Valid() && sys.registry == {}
      ensures sys.shards == old(sys).shards && sys.log == old(sys).log
      ensures forall s: ShardId :: sys.locks[s].Free?
    {
      Serializability.RegistryInTxs(env, init, sys);
      while sys.registry != {}
        invariant Valid() && sys.registry <= sys.txs.Keys
        invariant forall t | t in sys.txs :: Resting(sys.txs[t])
        invariant sys.shards == old(sys).shards && sys.log == old(sys).log
        decreases sys.registry
      {
        var t :| t in sys.registry;
        Serializability.RestingRecord(env, init, sys, t);
        var _ := Abort(t);
      }
      Serializability.EmptyRegistryFreesLocks(env, init, sys);
    }
  }
}
