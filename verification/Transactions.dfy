/**
 Transactions of one enclave as a labelled transition system.

 Every step of `Transaction::prepare`, `commit`, `abort` and `cleanup` that another
 thread can observe is a step of its own, so a run is an arbitrary interleaving of
 any number of transactions and of writes made outside transactions.
 */
module Transactions {
  import opened EventLog
  import opened RWLock
  import opened FindValidation
  import opened Characters

  datatype Isolation = ReadCommitted | RepeatableRead | Serializable

  datatype Op =
    | Get(obj: Obj, eid: EventId)       // the event the read saw
    | Has(obj: Obj, found: bool)        // the answer the read saw
    | Find(collection: string, query: string,
           results: seq<(string, EventId)>,   // the keys and events the query saw
           order: seq<string>)                // the order in which the query lists its answers when run again
    | Mutate(w: Write)

  datatype TxState = Pending | Prepared | Committed | Aborted

  /** How far a transaction has got inside prepare, commit or cleanup. */
  datatype Pc =
    | Idle
    | Locking(todo: set<ShardId>)
    | Validating(k: nat)
    | Ready
    | Writing(k: nat)
    | Organizing(todo: set<ShardId>)
    | Releasing
    | Done

  datatype Tx = Tx(
    id: TxId,
    isolation: Isolation,
    ops: seq<Op>,
    plan: map<ShardId, Mode>,
    state: TxState,
    pc: Pc,
    held: map<ShardId, Mode>,
    rot: map<ShardId, nat>,     // block numbers its commit may use
    recorded: set<EventId>,     // the write set entered in the transaction ledger
    produced: set<EventId>)     // the events its writes made

  type Locks = l: seq<Lock> | |l| == NUM_SHARDS witness seq(NUM_SHARDS, i => Free)

  /** A committed transaction, or a write made outside any transaction (`id` absent). */
  datatype Entry = Entry(
    id: Option<TxId>,
    isolation: Isolation,
    ops: seq<Op>,
    rot: map<ShardId, nat>,
    recorded: set<EventId>,
    produced: set<EventId>)

  datatype Sys = Sys(
    txs: map<TxId, Tx>,
    registry: set<TxId>,
    locks: Locks,
    shards: Shards,
    log: seq<Entry>)            // in commit order

  function ObjOf(op: Op): Obj
    requires !op.Find?
  {
    if op.Mutate? then op.w.obj else op.obj
  }

  function ShardOf(env: Env, op: Op): ShardId
    requires !op.Find?
  {
    env.shardOf(ObjOf(op))
  }

  function AllShards(): (all: set<ShardId>)
    ensures forall s: ShardId :: s in all
  {
    ShardsBelow(NUM_SHARDS)
  }

  function ShardsBelow(n: nat): (r: set<ShardId>)
    requires n <= NUM_SHARDS
    ensures forall s: ShardId :: s in r <==> s < n
  {
    if n == 0 then {} else ShardsBelow(n - 1) + {n - 1}
  }

  /** The shards an operation needs: a serializable query needs all of them. */
  function Touched(env: Env, isolation: Isolation, op: Op): set<ShardId> {
    match op
    case Find(c, _, results, _) =>
      if isolation.Serializable? then AllShards()
      else set i | 0 <= i < |results| :: env.shardOf(Obj(c, results[i].0))
    case _ => {ShardOf(env, op)}
  }

  predicate WritesTo(env: Env, op: Op, s: ShardId) {
    op.Mutate? && ShardOf(env, op) == s
  }

  // ---------------------------------------------------------------- lock plan

  /** `collect_shard_lock_type`: a read never weakens a planned write. */
  function Plan(env: Env, isolation: Isolation, plan: map<ShardId, Mode>, op: Op): map<ShardId, Mode> {
    if op.Mutate? then plan[ShardOf(env, op) := Mode.Write]
    else
      map s | s in plan.Keys + Touched(env, isolation, op) :: if s in plan then plan[s] else Read
  }

  /** Each shard an operation touches is planned, in the strongest mode asked for it. */
  ghost predicate Strongest(env: Env, isolation: Isolation, plan: map<ShardId, Mode>, ops: seq<Op>) {
    && (forall s: ShardId :: s in plan <==> exists i | 0 <= i < |ops| :: s in Touched(env, isolation, ops[i]))
    && (forall s | s in plan :: plan[s].Write? <==> exists i | 0 <= i < |ops| :: WritesTo(env, ops[i], s))
  }

  // ------------------------------------------------------- validating, writing

  /** The object is there and its latest event is the one the read saw. */
  predicate StillAt(env: Env, shards: Shards, obj: Obj, eid: EventId) {
    var s := env.shardOf(obj);
    Current(shards[s], obj).Some? && eid == EventId(s, shards[s].latest[obj])
  }

  predicate Exists(env: Env, shards: Shards, obj: Obj) {
    Current(shards[env.shardOf(obj)], obj).Some?
  }

  function RecordedIds(results: seq<(string, EventId)>): seq<EventId> {
    seq(|results|, i requires 0 <= i < |results| => results[i].1)
  }

  /** `is_valid_key`: letters, digits and underscores, and at least one. */
  predicate ValidKey(k: string) {
    k != "" && forall i | 0 <= i < |k| :: 'a' <= k[i] <= 'z' || 'A' <= k[i] <= 'Z' || '0' <= k[i] <= '9' || k[i] == '_'
  }

  /** `validate` of one operation, on the shards as they are now (no policies). */
  predicate OpValid(env: Env, shards: Shards, isolation: Isolation, op: Op) {
    match op
    case Get(obj, eid) =>
      if isolation.ReadCommitted? then Exists(env, shards, obj) else StillAt(env, shards, obj, eid)
    case Has(obj, found) => Exists(env, shards, obj) == found
    case Find(c, q, results, order) => FindValid(env, shards, isolation, c, q, results, order)
    case Mutate(w) => ValidKey(w.obj.key)
  }

  /** The recorded id is that of the object's latest event, and the object is there. */
  ghost predicate Latest(env: Env, shards: Shards, obj: Obj, eid: EventId) {
    var s := env.shardOf(obj);
    Current(shards[s], obj).Some? && eid.shard == s && shards[s].latest[obj] == eid.pos
  }

  /** Asked again now, a read gives the recorded answer, as far as its isolation level cares; a write has a key. */
  ghost predicate StillAnswers(env: Env, shards: Shards, isolation: Isolation, op: Op) {
    match op
    case Get(obj, eid) =>
      if isolation == ReadCommitted then Current(shards[env.shardOf(obj)], obj).Some? else Latest(env, shards, obj, eid)
    case Has(obj, found) => found <==> Current(shards[env.shardOf(obj)], obj).Some?
    case Find(c, q, results, order) =>
      (match isolation
       case ReadCommitted => forall i | 0 <= i < |results| :: Current(shards[env.shardOf(Obj(c, results[i].0))], Obj(c, results[i].0)).Some?
       case RepeatableRead => forall i | 0 <= i < |results| :: Latest(env, shards, Obj(c, results[i].0), results[i].1)
       case Serializable => Complete(env, shards, c, q, order) && NoPhantom(RecordedIds(results), ListAnswers(env, shards, c, q, order)))
    case Mutate(w) => |w.obj.key| > 0 && forall i | 0 <= i < |w.obj.key| :: w.obj.key[i] in KEY_CHARS
  }

  /** The characters a key may have. */
  const KEY_CHARS: string := UPPER + LOWER + DIGITS + "_"

  predicate FindValid(env: Env, shards: Shards, isolation: Isolation, c: string, q: string, results: seq<(string, EventId)>, order: seq<string>) {
    match isolation
    case ReadCommitted => forall i | 0 <= i < |results| :: Exists(env, shards, Obj(c, results[i].0))
    case RepeatableRead => forall i | 0 <= i < |results| :: StillAt(env, shards, Obj(c, results[i].0), results[i].1)
    case Serializable =>
      && Complete(env, shards, c, q, order)
      && NoPhantom(RecordedIds(results), ListAnswers(env, shards, c, q, order))
  }

  /** `do_write` of one operation; reads do nothing. */
  function DoOp(env: Env, shards: Shards, op: Op, id: Option<TxId>): Shards {
    if op.Mutate? then
      var s := ShardOf(env, op);
      shards[s := ApplyWrite(env, shards[s], op.w, id).0]
    else shards
  }

  /** The event the operation adds, if any. */
  function NewIds(env: Env, shards: Shards, op: Op, id: Option<TxId>): set<EventId> {
    if op.Mutate? then
      var s := ShardOf(env, op);
      var p := ApplyWrite(env, shards[s], op.w, id).1;
      if p.Some? then {EventId(s, p.value)} else {}
    else {}
  }

  /** How many of the operations write to shard `s` (`extract_writes`). */
  function WritesOn(env: Env, ops: seq<Op>, s: ShardId): nat {
    if ops == [] then 0
    else WritesOn(env, ops[..|ops| - 1], s) +
         if WritesTo(env, ops[|ops| - 1], s) then 1 else 0
  }

  /** One past the largest value of the source's 16-bit block index and write counters. */
  const INDEX_SPACE: nat := 65536

  /** How many ids are asked for on shard `s`: the 16-bit count of writes. */
  function CountOn(env: Env, ops: seq<Op>, s: ShardId): nat {
    WritesOn(env, ops, s) % INDEX_SPACE
  }

  /** The id `get_next_event_ids` gives the `i`-th new event of shard `s`: it counts from one past the block's length. */
  function NextId(shards: Shards, s: ShardId, i: nat): EventId {
    EventId(s, Pos(shards[s].pending, (|shards[s].blocks[shards[s].pending]| + 1 + i) % INDEX_SPACE))
  }

  function NextIds(shards: Shards, s: ShardId, k: nat): seq<EventId> {
    seq(k, i requires 0 <= i < k => NextId(shards, s, i))
  }

  /** The ids expected for all writes to the first `n` shards, before any of them is made. */
  function IdsAsked(env: Env, shards: Shards, ops: seq<Op>, n: nat): seq<EventId>
    requires n <= NUM_SHARDS
  {
    if n == 0 then []
    else IdsAsked(env, shards, ops, n - 1) + NextIds(shards, n - 1, CountOn(env, ops, n - 1))
  }

  /** The write set, kept like every set of ids in a `std::set` that takes ids of different shards for equal. */
  function Predict(env: Env, shards: Shards, ops: seq<Op>): set<EventId> {
    EidSet(IdsAsked(env, shards, ops, NUM_SHARDS))
  }

  /** The ids an operation reports as read. */
  function ReadsOf(op: Op): seq<EventId> {
    match op
    case Get(_, eid) => [eid]
    case Find(_, _, results, _) => RecordedIds(results)
    case _ => []
  }

  function ReadsAsked(ops: seq<Op>): seq<EventId> {
    if ops == [] then [] else ReadsAsked(ops[..|ops| - 1]) + ReadsOf(ops[|ops| - 1])
  }

  /** The read set (`extract_reads`), kept in the same kind of set. */
  function ReadSet(ops: seq<Op>): set<EventId> {
    EidSet(ReadsAsked(ops))
  }

  function OrganizeAll(env: Env, shards: Shards, rot: map<ShardId, nat>): Shards {
    seq(NUM_SHARDS, s requires 0 <= s < NUM_SHARDS =>
      if s in rot then Organize(env, shards[s], rot[s]) else shards[s])
  }

  // --------------------------------------------------------- the serial system

  /** The operations one after another, nothing in between. */
  function DoOps(env: Env, shards: Shards, ops: seq<Op>, id: Option<TxId>): Shards {
    if ops == [] then shards
    else DoOp(env, DoOps(env, shards, ops[..|ops| - 1], id), ops[|ops| - 1], id)
  }

  /** The events the operations add, one after another. */
  function Produced(env: Env, shards: Shards, ops: seq<Op>, id: Option<TxId>): set<EventId> {
    if ops == [] then {}
    else
      var before := ops[..|ops| - 1];
      Produced(env, shards, before, id) + NewIds(env, DoOps(env, shards, before, id), ops[|ops| - 1], id)
  }

  function RunEntry(env: Env, shards: Shards, e: Entry): Shards {
    OrganizeAll(env, DoOps(env, shards, e.ops, e.id), e.rot)
  }

  /** The entries one at a time. */
  function Serial(env: Env, init: Shards, log: seq<Entry>): Shards {
    if log == [] then init
    else RunEntry(env, Serial(env, init, log[..|log| - 1]), log[|log| - 1])
  }

  /** Every operation of the entry passes validation on `shards`. */
  ghost predicate Validates(env: Env, shards: Shards, isolation: Isolation, ops: seq<Op>) {
    forall j | 0 <= j < |ops| :: OpValid(env, shards, isolation, ops[j])
  }

  /** Run on `shards`, the entry does what its record says. */
  ghost predicate EntryLegal(env: Env, shards: Shards, e: Entry) {
    && Validates(env, shards, e.isolation, e.ops)
    && e.produced == Produced(env, shards, e.ops, e.id)
    && (e.id.Some? ==> e.recorded == Predict(env, shards, e.ops))
    && (forall s | s in e.rot :: Fresh(DoOps(env, shards, e.ops, e.id)[s], e.rot[s]))
  }

  /** Run serially, every entry's reads see what it recorded and its writes make the events it made. */
  ghost predicate LegalSerial(env: Env, init: Shards, log: seq<Entry>) {
    forall i {:trigger EntryLegal(env, Serial(env, init, log[..i]), log[i])} | 0 <= i < |log| ::
      EntryLegal(env, Serial(env, init, log[..i]), log[i])
  }

  // --------------------------------------------------------------------- steps

  /** The steps a transaction takes. */
  datatype Act =
    | Register(op: Op)
    | StartPrepare
    | Acquire(s: ShardId)
    | LockFail(s: ShardId)
    | StartValidate
    | ValidateOne
    | ValidateFail
    | FinishPrepare
    | StartCommit
    | WriteOne
    | CommitPoint(rot: map<ShardId, nat>)
    | OrganizeOne(s: ShardId)
    | FinishOrganize
    | Abort
    | ReleaseOne(s: ShardId)
    | Unregister

  datatype Step =
    | Begin(t: TxId, isolation: Isolation)
    | Own(t: TxId, act: Act)
    | Direct(w: Write, newId: nat)

  /** Shards are locked in increasing order. */
  predicate IsNext(todo: set<ShardId>, s: ShardId) {
    s in todo && forall u | u in todo :: s <= u
  }

  function WriteShards(plan: map<ShardId, Mode>): set<ShardId> {
    set s | s in plan && plan[s].Write?
  }

  predicate CanAct(env: Env, a: Sys, tx: Tx, act: Act) {
    match act
    case Register(_) => tx.pc.Idle?
    case StartPrepare => tx.pc.Idle?
    case Acquire(s) =>
      tx.pc.Locking? && IsNext(tx.pc.todo, s) && s in tx.plan && Available(a.locks[s], tx.plan[s])
    case LockFail(s) =>
      tx.pc.Locking? && IsNext(tx.pc.todo, s) && s in tx.plan && !Available(a.locks[s], tx.plan[s])
    case StartValidate => tx.pc.Locking? && tx.pc.todo == {}
    case ValidateOne =>
      tx.pc.Validating? && tx.pc.k < |tx.ops| && OpValid(env, a.shards, tx.isolation, tx.ops[tx.pc.k])
    case ValidateFail =>
      tx.pc.Validating? && tx.pc.k < |tx.ops| && !OpValid(env, a.shards, tx.isolation, tx.ops[tx.pc.k])
    case FinishPrepare => tx.pc.Validating? && tx.pc.k == |tx.ops|
    case StartCommit => tx.pc.Ready?
    case WriteOne => tx.pc.Writing? && tx.pc.k < |tx.ops|
    case CommitPoint(rot) =>
      && tx.pc.Writing? && tx.pc.k == |tx.ops|
      && rot.Keys == WriteShards(tx.plan)
      && forall s | s in rot :: Fresh(a.shards[s], rot[s])
    case OrganizeOne(s) => tx.pc.Organizing? && s in tx.pc.todo && s in tx.rot
    case FinishOrganize => tx.pc.Organizing? && tx.pc.todo == {}
    case Abort => tx.pc.Idle? || tx.pc.Ready?
    case ReleaseOne(s) => tx.pc.Releasing? && s in tx.held
    case Unregister => tx.pc.Releasing? && tx.held == map[]
  }

  predicate Enabled(env: Env, a: Sys, step: Step) {
    match step
    case Begin(t, _) => t !in a.txs
    case Own(t, act) => t in a.txs && CanAct(env, a, a.txs[t], act)
    case Direct(w, newId) =>
      var s := env.shardOf(w.obj);
      a.locks[s].Free? && Fresh(a.shards[s], newId) && ValidKey(w.obj.key)
  }

  /** The transaction's own record after its step. */
  function NextTx(env: Env, a: Sys, tx: Tx, act: Act): Tx
    requires CanAct(env, a, tx, act)
  {
    match act
    case Register(op) => tx.(ops := tx.ops + [op], plan := Plan(env, tx.isolation, tx.plan, op))
    case StartPrepare => tx.(pc := Locking(tx.plan.Keys))
    case Acquire(s) => tx.(pc := Locking(tx.pc.todo - {s}), held := tx.held[s := tx.plan[s]])
    case LockFail(_) => tx.(state := Aborted, pc := Releasing)
    case StartValidate => tx.(pc := Validating(0))
    case ValidateOne => tx.(pc := Validating(tx.pc.k + 1))
    case ValidateFail => tx.(state := Aborted, pc := Releasing)
    case FinishPrepare => tx.(state := Prepared, pc := Ready)
    case StartCommit => tx.(pc := Writing(0), recorded := Predict(env, a.shards, tx.ops))
    case WriteOne =>
      tx.(pc := Writing(tx.pc.k + 1),
          produced := tx.produced + NewIds(env, a.shards, tx.ops[tx.pc.k], Some(tx.id)))
    case CommitPoint(rot) => tx.(state := Committed, pc := Organizing(rot.Keys), rot := rot)
    case OrganizeOne(s) => tx.(pc := Organizing(tx.pc.todo - {s}))
    case FinishOrganize => tx.(pc := Releasing)
    case Abort => tx.(state := Aborted, pc := Releasing)
    case ReleaseOne(s) => tx.(held := tx.held - {s})
    case Unregister => tx.(pc := Done)
  }

  function NextLocks(env: Env, a: Sys, tx: Tx, act: Act): Locks
    requires CanAct(env, a, tx, act)
  {
    if act.Acquire? then a.locks[act.s := Grab(a.locks[act.s], tx.plan[act.s])]
    else if act.ReleaseOne? then a.locks[act.s := Drop(a.locks[act.s])]
    else a.locks
  }

  function NextShards(env: Env, a: Sys, t: TxId, tx: Tx, act: Act): Shards
    requires CanAct(env, a, tx, act)
  {
    if act.WriteOne? then DoOp(env, a.shards, tx.ops[tx.pc.k], Some(t))
    else if act.OrganizeOne? then a.shards[act.s := Organize(env, a.shards[act.s], tx.rot[act.s])]
    else a.shards
  }

  function TxEntry(tx: Tx, rot: map<ShardId, nat>): Entry {
    Entry(Some(tx.id), tx.isolation, tx.ops, rot, tx.recorded, tx.produced)
  }

  /** A write outside transactions is not entered in the transaction ledger. */
  function DirectEntry(env: Env, shards: Shards, w: Write, newId: nat): Entry {
    Entry(None, Serializable, [Mutate(w)], map[env.shardOf(w.obj) := newId], {}, NewIds(env, shards, Mutate(w), None))
  }

  /** The effect of an enabled step. */
  function Do(env: Env, a: Sys, step: Step): Sys
    requires Enabled(env, a, step)
  {
    match step
    case Begin(t, isolation) =>
      a.(txs := a.txs[t := Tx(t, isolation, [], map[], Pending, Idle, map[], map[], {}, {})],
         registry := a.registry + {t})
    case Own(t, act) =>
      var tx := a.txs[t];
      Sys(a.txs[t := NextTx(env, a, tx, act)],
          if act.Unregister? then a.registry - {t} else a.registry,
          NextLocks(env, a, tx, act),
          NextShards(env, a, t, tx, act),
          if act.CommitPoint? then a.log + [TxEntry(tx, act.rot)] else a.log)
    case Direct(w, newId) =>
      var s := env.shardOf(w.obj);
      a.(shards := a.shards[s := Organize(env, ApplyWrite(env, a.shards[s], w, None).0, newId)],
         log := a.log + [DirectEntry(env, a.shards, w, newId)])
  }

  /** Every step of `steps` is enabled when its turn comes. */
  predicate Runs(env: Env, a: Sys, steps: seq<Step>)
    decreases |steps|
  {
    steps == [] || (Enabled(env, a, steps[0]) && Runs(env, Do(env, a, steps[0]), steps[1..]))
  }

  function Exec(env: Env, a: Sys, steps: seq<Step>): Sys
    requires Runs(env, a, steps)
    decreases |steps|
  {
    if steps == [] then a else Exec(env, Do(env, a, steps[0]), steps[1..])
  }

  function InitSys(shards: Shards): Sys {
    Sys(map[], {}, seq(NUM_SHARDS, i => Free), shards, [])
  }
}
