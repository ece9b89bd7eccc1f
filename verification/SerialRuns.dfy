/**
 Which logs the transition system can leave behind: exactly the legal serial ones.  One direction
 is serializability; for the other, every legal serial log is committed entry by entry.
 */
module SerialRuns {
  import opened EventLog
  import opened RWLock
  import opened Transactions
  import opened Serializability
  import opened TransactionManager

  // -------------------------------------------------------------------- well-kept records

  ghost predicate IsWrittenBy(env: Env, ops: seq<Op>, s: ShardId) {
    exists i | 0 <= i < |ops| :: WritesTo(env, ops[i], s)
  }

  /** Page numbers are recorded for the written shards; a write outside transactions is a single one. */
  ghost predicate WellKept(env: Env, e: Entry) {
    && (forall s: ShardId :: s in e.rot <==> IsWrittenBy(env, e.ops, s))
    && (e.id.None? ==> |e.ops| == 1 && e.ops[0].Mutate? && e.isolation.Serializable? && e.recorded == {})
  }

  ghost predicate WellKeptEach(env: Env, log: seq<Entry>) {
    forall i | 0 <= i < |log| :: WellKept(env, log[i])
  }

  ghost predicate AllWellKept(env: Env, log: seq<Entry>) {
    && WellKeptEach(env, log)
    && (forall i, j | 0 <= i < j < |log| && log[i].id.Some? :: log[i].id != log[j].id)
  }

  lemma CommitIsWellKept(env: Env, serial: Shards, a: Sys, t: TxId, rot: map<ShardId, nat>)
    requires t in a.txs && TxOk(env, serial, a.txs[t]) && CanAct(env, a, a.txs[t], CommitPoint(rot))
    ensures WellKept(env, TxEntry(a.txs[t], rot))
  {
    var tx := a.txs[t];
    forall s: ShardId ensures s in rot <==> IsWrittenBy(env, tx.ops, s) { WrittenIsPlanned(env, tx.isolation, tx.plan, tx.ops, s); }
  }

  lemma WrittenIsPlanned(env: Env, isolation: Isolation, plan: map<ShardId, Mode>, ops: seq<Op>, s: ShardId)
    requires Strongest(env, isolation, plan, ops)
    ensures s in WriteShards(plan) <==> IsWrittenBy(env, ops, s)
  {
    if IsWrittenBy(env, ops, s) {
      var i :| 0 <= i < |ops| && WritesTo(env, ops[i], s);
      assert s in Touched(env, isolation, ops[i]);
    }
  }

  lemma DirectIsWellKept(env: Env, shards: Shards, w: Write, newId: nat)
    ensures WellKept(env, DirectEntry(env, shards, w, newId))
  {
    assert DirectEntry(env, shards, w, newId).ops[0] == Mutate(w);
  }

  /** A step leaves the log as it is, or adds one well-kept record. */
  lemma StepKeepsRecords(env: Env, init: Shards, a: Sys, step: Step)
    requires Inv(env, init, a) && Enabled(env, a, step)
    ensures var log := Do(env, a, step).log;
            log == a.log || (|log| == |a.log| + 1 && log[..|a.log|] == a.log && WellKept(env, log[|a.log|]))
  {
    match step
    case Begin(_, _) =>
    case Own(t, act) =>
      if act.CommitPoint? {
        assert TxOk(env, Serial(env, init, a.log), a.txs[t]);
        CommitIsWellKept(env, Serial(env, init, a.log), a, t, act.rot);
      }
    case Direct(w, newId) => DirectIsWellKept(env, a.shards, w, newId);
  }

  lemma WellKeptSnoc(env: Env, log: seq<Entry>, longer: seq<Entry>)
    requires WellKeptEach(env, log)
    requires longer == log || (|longer| == |log| + 1 && longer[..|log|] == log && WellKept(env, longer[|log|]))
    ensures WellKeptEach(env, longer)
  {
    forall i | 0 <= i < |longer| ensures WellKept(env, longer[i]) {
      if i < |log| { assert longer[..|log|][i] == longer[i]; }
    }
  }

  lemma {:induction false} RunKeepsRecords(env: Env, init: Shards, a: Sys, steps: seq<Step>)
    requires Inv(env, init, a) && Runs(env, a, steps) && WellKeptEach(env, a.log)
    ensures WellKeptEach(env, Exec(env, a, steps).log)
    decreases |steps|
  {
    if steps != [] {
      var b := Do(env, a, steps[0]);
      StepKeepsInv(env, init, a, steps[0]);
      StepKeepsRecords(env, init, a, steps[0]);
      WellKeptSnoc(env, a.log, b.log);
      RunKeepsRecords(env, init, b, steps[1..]);
    }
  }

  // ------------------------------------------------------- one transaction, on its own

  /** A step that changes nothing but the transaction's own record. */
  lemma Notes(env: Env, init: Shards, a: Sys, t: TxId, act: Act)
    requires Reachable(env, init, a) && t in a.txs && CanAct(env, a, a.txs[t], act) && RecordOnly(act)
    ensures Reachable(env, init, a.(txs := a.txs[t := NextTx(env, a, a.txs[t], act)]))
  {
    ReachableStep(env, init, a, Own(t, act));
    assert Do(env, a, Own(t, act)) == a.(txs := a.txs[t := NextTx(env, a, a.txs[t], act)]);
  }

  /** The locks planned for `ops`, and a new transaction after it has registered them. */
  function PlanOf(env: Env, isolation: Isolation, ops: seq<Op>): map<ShardId, Mode> {
    if ops == [] then map[] else Plan(env, isolation, PlanOf(env, isolation, ops[..|ops| - 1]), ops[|ops| - 1])
  }

  function Opened(env: Env, a: Sys, t: TxId, isolation: Isolation, ops: seq<Op>): Sys {
    a.(txs := a.txs[t := Tx(t, isolation, ops, PlanOf(env, isolation, ops), Pending, Idle, map[], map[], {}, {})],
       registry := a.registry + {t})
  }

  lemma {:induction false} Opens(env: Env, init: Shards, a: Sys, t: TxId, isolation: Isolation, ops: seq<Op>)
    requires Reachable(env, init, a) && t !in a.txs
    ensures Reachable(env, init, Opened(env, a, t, isolation, ops))
  {
    if ops == [] {
      ReachableStep(env, init, a, Begin(t, isolation));
      assert Do(env, a, Begin(t, isolation)) == Opened(env, a, t, isolation, []);
    } else {
      var before, op := ops[..|ops| - 1], ops[|ops| - 1];
      Opens(env, init, a, t, isolation, before);
      var b := Opened(env, a, t, isolation, before);
      Notes(env, init, b, t, Register(op));
      assert before + [op] == ops;
      assert b.(txs := b.txs[t := NextTx(env, b, b.txs[t], Register(op))]) == Opened(env, a, t, isolation, ops);
    }
  }

  lemma {:induction false} LeastOf(todo: set<ShardId>, s: ShardId) returns (u: ShardId)
    requires s in todo
    ensures IsNext(todo, u)
    decreases s
  {
    u := s;
    if v :| v in todo && v < s { u := LeastOf(todo, v); }
  }

  lemma {:induction false} TakesLocks(env: Env, init: Shards, a: Sys, t: TxId, todo: set<ShardId>)
    requires t in a.txs && AllAvailable(a.locks, a.txs[t].plan) && todo <= a.txs[t].plan.Keys
    requires Reachable(env, init, Taken(a, t, todo))
    ensures Reachable(env, init, Taken(a, t, {}))
    decreases todo
  {
    if todo != {} {
      var s :| s in todo;
      var u := LeastOf(todo, s);
      var b := Taken(a, t, todo);
      TakenAt(a, t, todo, u);
      TakenNext(a, t, todo, u);
      ReachableStep(env, init, b, Own(t, Acquire(u)));
      assert Do(env, b, Own(t, Acquire(u))) == Taken(a, t, todo - {u});
      TakesLocks(env, init, a, t, todo - {u});
    }
  }

  lemma ChecksOne(env: Env, init: Shards, a: Sys, t: TxId, k: nat)
    requires t in a.txs && k < |a.txs[t].ops| && OpValid(env, a.shards, a.txs[t].isolation, a.txs[t].ops[k])
    requires Reachable(env, init, Checked(a, t, k))
    ensures Reachable(env, init, Checked(a, t, k + 1))
  {
    var b := Checked(a, t, k);
    Notes(env, init, b, t, ValidateOne);
    assert b.(txs := b.txs[t := NextTx(env, b, b.txs[t], ValidateOne)]) == Checked(a, t, k + 1);
  }

  lemma {:induction false} Checks(env: Env, init: Shards, a: Sys, t: TxId, k: nat)
    requires t in a.txs && k <= |a.txs[t].ops| && Validates(env, a.shards, a.txs[t].isolation, a.txs[t].ops)
    requires Reachable(env, init, Checked(a, t, k))
    ensures Reachable(env, init, Checked(a, t, |a.txs[t].ops|))
    decreases |a.txs[t].ops| - k
  {
    if k < |a.txs[t].ops| {
      ChecksOne(env, init, a, t, k);
      Checks(env, init, a, t, k + 1);
    }
  }

  lemma Prepares(env: Env, init: Shards, a: Sys, t: TxId)
    requires Reachable(env, init, a) && t in a.txs && a.txs[t].pc.Idle? && a.txs[t].held == map[]
    requires AllAvailable(a.locks, a.txs[t].plan) && Validates(env, a.shards, a.txs[t].isolation, a.txs[t].ops)
    ensures Reachable(env, init, PreparedBy(a, t))
  {
    var plan: map<ShardId, Mode> := a.txs[t].plan;
    assert plan - plan.Keys == map[] && plan - {} == plan && GrabAll(a.locks, map[]) == a.locks;
    ReachableStep(env, init, a, Own(t, StartPrepare));
    assert Do(env, a, Own(t, StartPrepare)) == Taken(a, t, plan.Keys);
    TakesLocks(env, init, a, t, plan.Keys);
    var b := Locked(a, t);
    assert Taken(a, t, {}) == b;
    ReachableStep(env, init, b, Own(t, StartValidate));
    assert Do(env, b, Own(t, StartValidate)) == Checked(b, t, 0);
    Checks(env, init, b, t, 0);
    Passes(env, init, a, b, t);
  }

  lemma Passes(env: Env, init: Shards, a: Sys, b: Sys, t: TxId)
    requires t in a.txs && b == Locked(a, t) && Reachable(env, init, Checked(b, t, |a.txs[t].ops|))
    ensures Reachable(env, init, PreparedBy(a, t))
  {
    var c := Checked(b, t, |a.txs[t].ops|);
    Notes(env, init, c, t, FinishPrepare);
    assert c.(txs := c.txs[t := NextTx(env, c, c.txs[t], FinishPrepare)]) == PreparedBy(a, t);
  }

  lemma {:induction false} Writes(env: Env, init: Shards, a: Sys, t: TxId, k: nat)
    requires t in a.txs && a.txs[t].id == t && k <= |a.txs[t].ops| && Reachable(env, init, WrittenTo(env, a, t, k))
    ensures Reachable(env, init, Written(env, a, t))
    decreases |a.txs[t].ops| - k
  {
    if k < |a.txs[t].ops| {
      WrittenNext(env, a, t, k);
      ReachableStep(env, init, WrittenTo(env, a, t, k), Own(t, WriteOne));
      assert Do(env, WrittenTo(env, a, t, k), Own(t, WriteOne)) == WrittenTo(env, a, t, k + 1);
      Writes(env, init, a, t, k + 1);
    }
  }

  lemma {:induction false} Organizes(env: Env, init: Shards, a: Sys, t: TxId, todo: set<ShardId>)
    requires t in a.txs && todo <= a.txs[t].rot.Keys && Reachable(env, init, Organized(env, a, t, todo))
    ensures Reachable(env, init, Organized(env, a, t, {}))
    decreases todo
  {
    if todo != {} {
      var s :| s in todo;
      OrganizedNext(env, a, t, todo, s);
      ReachableStep(env, init, Organized(env, a, t, todo), Own(t, OrganizeOne(s)));
      assert Do(env, Organized(env, a, t, todo), Own(t, OrganizeOne(s))) == Organized(env, a, t, todo - {s});
      Organizes(env, init, a, t, todo - {s});
    }
  }

  lemma {:induction false} LetsGo(env: Env, init: Shards, a: Sys, t: TxId, left: set<ShardId>)
    requires t in a.txs && a.txs[t].pc.Releasing? && left <= a.txs[t].held.Keys && Reachable(env, init, LetGo(a, t, left))
    ensures Reachable(env, init, LetGo(a, t, {}))
    decreases left
  {
    if left != {} {
      var s :| s in left;
      LetGoNext(a, t, left, s);
      ReachableStep(env, init, LetGo(a, t, left), Own(t, ReleaseOne(s)));
      assert Do(env, LetGo(a, t, left), Own(t, ReleaseOne(s))) == LetGo(a, t, left - {s});
      LetsGo(env, init, a, t, left - {s});
    }
  }

  lemma Releases(env: Env, init: Shards, a: Sys, t: TxId)
    requires t in a.txs && a.txs[t].pc.Releasing? && Reachable(env, init, a)
    ensures Reachable(env, init, Released(a, t))
  {
    LetGoStart(a, t);
    LetsGo(env, init, a, t, a.txs[t].held.Keys);
    LetGoEnd(a, t);
    ReachableStep(env, init, LetGo(a, t, {}), Own(t, Unregister));
    assert Do(env, LetGo(a, t, {}), Own(t, Unregister)) == Released(a, t);
  }

  lemma CleansUp(env: Env, init: Shards, a: Sys, t: TxId)
    requires t in a.txs && a.txs[t].pc == Organizing(a.txs[t].rot.Keys) && Reachable(env, init, a)
    ensures Reachable(env, init, Released(AllOrganized(env, a, t), t))
  {
    OrganizedEnds(env, a, t);
    Organizes(env, init, a, t, a.txs[t].rot.Keys);
    var b := Organized(env, a, t, {});
    ReachableStep(env, init, b, Own(t, FinishOrganize));
    assert Do(env, b, Own(t, FinishOrganize)) == AllOrganized(env, a, t);
    Releases(env, init, AllOrganized(env, a, t), t);
  }

  lemma Commits(env: Env, init: Shards, a: Sys, t: TxId, rot: map<ShardId, nat>)
    requires Reachable(env, init, a) && t in a.txs && a.txs[t].pc.Ready? && a.txs[t].id == t && a.txs[t].produced == {}
    requires rot.Keys == WriteShards(a.txs[t].plan) && forall s | s in rot :: Fresh(a.shards[s], rot[s])
    ensures Reachable(env, init, Released(AllOrganized(env, PastCommit(Written(env, a, t), t, rot), t), t))
  {
    var ops := a.txs[t].ops;
    ReachableStep(env, init, a, Own(t, StartCommit));
    assert ops[..0] == [];
    assert Do(env, a, Own(t, StartCommit)) == WrittenTo(env, a, t, 0);
    Writes(env, init, a, t, 0);
    var b := Written(env, a, t);
    forall s | s in rot ensures Fresh(b.shards[s], rot[s]) { WritesStartNoBlock(env, a.shards, ops[..|ops|], Some(t), s); }
    ReachableStep(env, init, b, Own(t, CommitPoint(rot)));
    assert Do(env, b, Own(t, CommitPoint(rot))) == PastCommit(b, t, rot);
    CleansUp(env, init, PastCommit(b, t, rot), t);
  }

  // -------------------------------------------------------------------- entry by entry

  /** All transactions are over and listed, and the ledger is the serial one. */
  ghost predicate Settled(env: Env, init: Shards, a: Sys) {
    && Reachable(env, init, a) && a.registry == {} && a.shards == Serial(env, init, a.log)
    && forall t | t in a.txs :: t in Logged(a.log)
  }

  lemma {:induction false} PlanOfIsStrongest(env: Env, isolation: Isolation, ops: seq<Op>)
    ensures Strongest(env, isolation, PlanOf(env, isolation, ops), ops)
  {
    if ops != [] {
      var before := ops[..|ops| - 1];
      PlanOfIsStrongest(env, isolation, before);
      PlanIsStrongest(env, isolation, PlanOf(env, isolation, before), before, ops[|ops| - 1]);
      assert before + [ops[|ops| - 1]] == ops;
    }
  }

  lemma CommitsEntry(env: Env, init: Shards, a: Sys, e: Entry) returns (b: Sys)
    requires Settled(env, init, a) && e.id.Some? && e.id.value !in Logged(a.log)
    requires EntryLegal(env, a.shards, e) && WellKept(env, e)
    ensures Settled(env, init, b) && b.log == a.log + [e]
  {
    var t := e.id.value;
    assert t !in a.txs;
    Opens(env, init, a, t, e.isolation, e.ops);
    var idle := Opened(env, a, t, e.isolation, e.ops);
    EmptyRegistryFreesLocks(env, init, a);
    Prepares(env, init, idle, t);
    var ready := PreparedBy(idle, t);
    RotIsPlanned(env, e);
    forall s | s in e.rot ensures Fresh(ready.shards[s], e.rot[s]) { WritesStartNoBlock(env, a.shards, e.ops, e.id, s); }
    Commits(env, init, ready, t, e.rot);
    CommitWhole(env, ready, t, e.rot);
    b := Released(AllOrganized(env, PastCommit(Written(env, ready, t), t, e.rot), t), t);
    assert CommitEntry(env, ready, t, e.rot) == e;
    Settles(env, init, a, b, e);
  }

  lemma RotIsPlanned(env: Env, e: Entry)
    requires WellKept(env, e)
    ensures e.rot.Keys == WriteShards(PlanOf(env, e.isolation, e.ops))
  {
    var plan := PlanOf(env, e.isolation, e.ops);
    PlanOfIsStrongest(env, e.isolation, e.ops);
    forall s: ShardId ensures s in e.rot <==> s in WriteShards(plan) { WrittenIsPlanned(env, e.isolation, plan, e.ops, s); }
  }

  lemma Settles(env: Env, init: Shards, a: Sys, b: Sys, e: Entry)
    requires Settled(env, init, a) && Reachable(env, init, b) && b.log == a.log + [e]
    requires b.registry == {} && b.shards == RunEntry(env, a.shards, e)
    requires forall t | t in b.txs :: t in a.txs || e.id == Some(t)
    ensures Settled(env, init, b)
  {
    SerialSnoc(env, init, a.log, e);
    LoggedSnoc(a.log, e);
  }

  lemma WritesDirectly(env: Env, init: Shards, a: Sys, e: Entry) returns (b: Sys)
    requires Settled(env, init, a) && e.id.None? && EntryLegal(env, a.shards, e) && WellKept(env, e)
    ensures Settled(env, init, b) && b.log == a.log + [e]
  {
    var w := e.ops[0].w;
    var s := env.shardOf(w.obj);
    assert WritesTo(env, e.ops[0], s) && IsWrittenBy(env, e.ops, s);
    WritesStartNoBlock(env, a.shards, e.ops, None, s);
    EmptyRegistryFreesLocks(env, init, a);
    var step := Direct(w, e.rot[s]);
    assert OpValid(env, a.shards, e.isolation, e.ops[0]);
    ReachableStep(env, init, a, step);
    b := Do(env, a, step);
    SingleWrite(env, a.shards, e, w);
    Settles(env, init, a, b, e);
  }

  lemma SingleWrite(env: Env, shards: Shards, e: Entry, w: Write)
    requires WellKept(env, e) && e.id.None? && e.ops[0] == Mutate(w) && e.produced == Produced(env, shards, e.ops, None)
    ensures var s := env.shardOf(w.obj);
            && s in e.rot && e == DirectEntry(env, shards, w, e.rot[s])
            && RunEntry(env, shards, e) == shards[s := Organize(env, ApplyWrite(env, shards[s], w, None).0, e.rot[s])]
  {
    var s := env.shardOf(w.obj);
    assert WritesTo(env, e.ops[0], s) && IsWrittenBy(env, e.ops, s);
    forall u: ShardId ensures u in e.rot <==> u == s { }
    assert e.rot == map[s := e.rot[s]];
    assert e.ops == [Mutate(w)] && e.ops[..0] == [];
    assert {} + NewIds(env, shards, Mutate(w), None) == NewIds(env, shards, Mutate(w), None);
  }

  /** What committing the entry after the first `n` takes. */
  ghost predicate CanFollow(env: Env, init: Shards, log: seq<Entry>, e: Entry) {
    && EntryLegal(env, Serial(env, init, log), e) && WellKept(env, e)
    && (e.id.Some? ==> e.id.value !in Logged(log))
  }

  lemma EachCanFollow(env: Env, init: Shards, log: seq<Entry>, n: nat)
    requires LegalSerial(env, init, log) && AllWellKept(env, log) && n < |log|
    ensures CanFollow(env, init, log[..n], log[n])
  {
    assert EntryLegal(env, Serial(env, init, log[..n]), log[n]);
  }

  lemma InitSettled(env: Env, init: Shards)
    ensures Settled(env, init, InitSys(init))
  {
    ReachableInit(env, init);
  }

  lemma EntryIsReached(env: Env, init: Shards, a: Sys, e: Entry) returns (b: Sys)
    requires Settled(env, init, a) && CanFollow(env, init, a.log, e)
    ensures Settled(env, init, b) && b.log == a.log + [e]
  {
    if e.id.Some? {
      b := CommitsEntry(env, init, a, e);
    } else {
      b := WritesDirectly(env, init, a, e);
    }
  }

  ghost predicate EachFollows(env: Env, init: Shards, log: seq<Entry>) {
    forall k {:trigger CanFollow(env, init, log[..k], log[k])} | 0 <= k < |log| :: CanFollow(env, init, log[..k], log[k])
  }

  lemma TakeNext(log: seq<Entry>, n: nat)
    requires n < |log|
    ensures log[..n] + [log[n]] == log[..n + 1]
  {
  }

  lemma {:induction false} PrefixIsReached(env: Env, init: Shards, log: seq<Entry>, n: nat) returns (a: Sys)
    requires n <= |log| && EachFollows(env, init, log)
    ensures Settled(env, init, a) && a.log == log[..n]
  {
    if n == 0 {
      InitSettled(env, init);
      a := InitSys(init);
    } else {
      var b := PrefixIsReached(env, init, log, n - 1);
      assert CanFollow(env, init, log[..n - 1], log[n - 1]);
      a := EntryIsReached(env, init, b, log[n - 1]);
      TakeNext(log, n - 1);
    }
  }

  lemma LegalLogIsReached(env: Env, init: Shards, log: seq<Entry>) returns (a: Sys)
    requires LegalSerial(env, init, log) && AllWellKept(env, log)
    ensures Settled(env, init, a) && a.log == log
  {
    forall k | 0 <= k < |log| ensures CanFollow(env, init, log[..k], log[k]) { EachCanFollow(env, init, log, k); }
    a := PrefixIsReached(env, init, log, |log|);
    assert log[..|log|] == log;
  }

  /** Some run leaves this log. */
  ghost predicate IsLog(env: Env, init: Shards, log: seq<Entry>) {
    exists steps :: Runs(env, InitSys(init), steps) && Exec(env, InitSys(init), steps).log == log
  }

  /**
   The logs of all runs are exactly the legal serial logs of distinct, well-kept records: no
   interleaving commits anything else, and every one of them comes about in some run.
   */
  lemma RunsAreExactlySerial(env: Env, init: Shards, log: seq<Entry>)
    ensures IsLog(env, init, log) <==> LegalSerial(env, init, log) && AllWellKept(env, log)
  {
    if IsLog(env, init, log) {
      var steps :| Runs(env, InitSys(init), steps) && Exec(env, InitSys(init), steps).log == log;
      CommitOrderIsSerial(env, init, steps);
      InitInv(env, init);
      RunKeepsRecords(env, init, InitSys(init), steps);
    }
    if LegalSerial(env, init, log) && AllWellKept(env, log) {
      var a := LegalLogIsReached(env, init, log);
      var steps :| Runs(env, InitSys(init), steps) && Exec(env, InitSys(init), steps) == a;
    }
  }

  /** A log is extended by exactly the entries that can follow it. */
  lemma LogsGrowIff(env: Env, init: Shards, log: seq<Entry>, e: Entry)
    requires IsLog(env, init, log)
    ensures IsLog(env, init, log + [e]) <==> CanFollow(env, init, log, e)
  {
    RunsAreExactlySerial(env, init, log);
    RunsAreExactlySerial(env, init, log + [e]);
    if IsLog(env, init, log + [e]) {
      EachCanFollow(env, init, log + [e], |log|);
      assert (log + [e])[..|log|] == log;
    }
    if CanFollow(env, init, log, e) {
      SnocIsLegal(env, init, log, e);
      SnocIsWellKept(env, init, log, e);
    }
  }

  lemma SnocIsLegal(env: Env, init: Shards, log: seq<Entry>, e: Entry)
    requires LegalSerial(env, init, log) && EntryLegal(env, Serial(env, init, log), e)
    ensures LegalSerial(env, init, log + [e])
  {
    var longer := log + [e];
    forall i | 0 <= i < |longer| ensures EntryLegal(env, Serial(env, init, longer[..i]), longer[i]) {
      assert longer[..i] == log[..i];
      if i < |log| { assert EntryLegal(env, Serial(env, init, log[..i]), log[i]); } else { assert log[..i] == log; }
    }
  }

  lemma SnocIsWellKept(env: Env, init: Shards, log: seq<Entry>, e: Entry)
    requires AllWellKept(env, log) && WellKept(env, e) && (e.id.Some? ==> e.id.value !in Logged(log))
    ensures AllWellKept(env, log + [e])
  {
    WellKeptSnoc(env, log, log + [e]);
  }

  lemma EmptyIsLog(env: Env, init: Shards)
    ensures IsLog(env, init, [])
  {
    assert Runs(env, InitSys(init), []) && Exec(env, InitSys(init), []).log == [];
  }
}
