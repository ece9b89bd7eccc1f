/**
 The append-only event log of one shard, its part of the primary index, and the
 one operation that writes to it.

 A shard is a set of numbered blocks, of which the last one (the pending block)
 takes new events.  The primary index names the latest event of every object.
 The source keeps one primary index per collection; since an object never changes
 shard, this model keeps each shard's part of it next to the shard's blocks.
 */
module EventLog {

  const NUM_SHARDS: nat := 64
  const INITIAL_VERSION_NO: nat := 1
  const MIN_BLOCK_SIZE: nat := 5 * 1024

  datatype Option<+T> = None | Some(value: T)

  type ShardId = s: nat | s < NUM_SHARDS
  type Fields = map<string, string>

  datatype Obj = Obj(collection: string, key: string)
  datatype Document = Invalid | Doc(fields: Fields)

  /** A transaction: where it began, its number there, and how often that number had been taken up before. */
  datatype TxId = TxId(root: nat, local: nat, attempt: nat)

  /** Position of an event inside a shard. */
  datatype Pos = Pos(block: nat, index: nat)

  datatype EventId = EventId(shard: ShardId, pos: Pos)

  /** `prev` is absent where the source stores INVALID_BLOCK. */
  datatype Event =
    | Version(prev: Option<Pos>, fields: Fields, number: nat, tx: Option<TxId>)
    | Tombstone(prev: Option<Pos>, tx: Option<TxId>)

  datatype Shard_ = Shard(blocks: map<nat, seq<Event>>, pending: nat, latest: map<Obj, Pos>)
  type Shard = sh: Shard_ | sh.pending in sh.blocks witness Shard(map[1 := []], 1, map[])

  /** The whole ledger. */
  type Shards = s: seq<Shard> | |s| == NUM_SHARDS
    witness seq(NUM_SHARDS, _ => Shard(map[1 := []], 1, map[]))

  datatype WriteKind = Put | Add | Remove
  datatype Write = Write(kind: WriteKind, obj: Obj, path: string, doc: Document)

  /**
   The parts of the system that live in other libraries: the key hash that picks a
   shard, the two in-place edits of a JSON document, the byte size of a block, and
   whether a document matches the predicates of a query.
   */
  datatype Env = Env(
    shardOf: Obj -> ShardId,
    addTo: (Fields, string, Document) -> Fields,
    insertAt: (Fields, string, Document) -> Fields,
    dataSize: seq<Event> -> nat,
    matches: (string, Fields) -> bool)

  /** Strictly earlier in the same shard. */
  predicate Before(p: Pos, q: Pos) {
    p.block < q.block || (p.block == q.block && p.index < q.index)
  }

  function At(sh: Shard, p: Pos): Option<Event> {
    if p.block in sh.blocks && p.index < |sh.blocks[p.block]|
    then Some(sh.blocks[p.block][p.index]) else None
  }

  /** Where the next event will be stored. */
  function End(sh: Shard): Pos {
    Pos(sh.pending, |sh.blocks[sh.pending]|)
  }

  function LatestEvent(sh: Shard, obj: Obj): Option<Event> {
    if obj in sh.latest then At(sh, sh.latest[obj]) else None
  }

  /** The latest event, unless the object is missing or its latest event is a tombstone. */
  function Current(sh: Shard, obj: Obj): Option<Event> {
    var e := LatestEvent(sh, obj);
    if e.Some? && e.value.Version? then e else None
  }

  /** Append to the pending block and make the event the latest one of `obj`. */
  function Append(sh: Shard, obj: Obj, e: Event): Shard {
    Shard(sh.blocks[sh.pending := sh.blocks[sh.pending] + [e]], sh.pending, sh.latest[obj := End(sh)])
  }

  /** The document a put or add leaves behind when the object's value is `cur`. */
  function Merge(env: Env, cur: Fields, w: Write): Document {
    if w.kind.Add? then Doc(env.addTo(cur, w.path, w.doc))
    else if w.path == "" then w.doc
    else Doc(env.insertAt(cur, w.path, w.doc))
  }

  /** One write; the position is absent when the source returns INVALID_EVENT. */
  function ApplyWrite(env: Env, sh: Shard, w: Write, tx: Option<TxId>): (Shard, Option<Pos>) {
    var cur := Current(sh, w.obj);
    if cur.None? then
      if w.path != "" || w.kind.Remove? || w.doc.Invalid? then (sh, None)
      else (Append(sh, w.obj, Version(None, w.doc.fields, INITIAL_VERSION_NO, tx)), Some(End(sh)))
    else if w.kind.Remove? then
      (Append(sh, w.obj, Tombstone(Some(sh.latest[w.obj]), tx)), Some(End(sh)))
    else
      var doc := Merge(env, cur.value.fields, w);
      if doc.Invalid? then (sh, None)
      else (Append(sh, w.obj, Version(Some(sh.latest[w.obj]), doc.fields, cur.value.number + 1, tx)), Some(End(sh)))
  }

  /** Start a new block once the pending one has reached the minimum size. */
  function Organize(env: Env, sh: Shard, newId: nat): Shard {
    if env.dataSize(sh.blocks[sh.pending]) < MIN_BLOCK_SIZE then sh
    else Shard(sh.blocks[newId := []], newId, sh.latest)
  }

  /** A page number no block of the shard has, and larger than all of them. */
  predicate Fresh(sh: Shard, id: nat) {
    forall b | b in sh.blocks :: b < id
  }

  /** The pending block is the last block, and the latest event of every object is stored. */
  predicate Ordered(sh: Shard) {
    && (forall b | b in sh.blocks :: b <= sh.pending)
    && (forall o | o in sh.latest :: At(sh, sh.latest[o]).Some?)
  }

  ghost predicate AllOrdered(shards: Shards) {
    forall s: ShardId :: Ordered(shards[s])
  }

  lemma WriteKeepsOrdered(env: Env, sh: Shard, w: Write, tx: Option<TxId>)
    requires Ordered(sh)
    ensures Ordered(ApplyWrite(env, sh, w, tx).0)
  {
  }

  lemma OrganizeKeepsOrdered(env: Env, sh: Shard, newId: nat)
    requires Ordered(sh) && Fresh(sh, newId)
    ensures Ordered(Organize(env, sh, newId))
  {
  }

  /** Every stored event is older than the next one will be. */
  lemma EndIsLast(sh: Shard, p: Pos)
    requires Ordered(sh) && At(sh, p).Some?
    ensures Before(p, End(sh))
  {
  }

  // ------------------------------------------------------ what a write leaves, object by object

  /** The new version of an object: what it was made from, what it says, and which one it is. */
  ghost predicate Leaves(before: Shard, after: Shard, id: Option<Pos>, obj: Obj, fields: Fields, number: nat, tx: Option<TxId>) {
    && id == Some(End(before)) && obj in after.latest && after.latest[obj] == End(before)
    && Current(after, obj) == Some(Version(if Current(before, obj).Some? then Some(before.latest[obj]) else None, fields, number, tx))
  }

  /** The effect of a write, by the kind of the write and what was there. */
  ghost predicate WriteLeaves(env: Env, before: Shard, w: Write, tx: Option<TxId>, after: Shard, id: Option<Pos>) {
    match Current(before, w.obj)
    case None =>
      if w.kind != Remove && w.path == "" && w.doc.Doc? then Leaves(before, after, id, w.obj, w.doc.fields, 1, tx)
      else id == None && after == before
    case Some(was) =>
      match w.kind
      case Remove =>
        && id == Some(End(before)) && Current(after, w.obj) == None
        && LatestEvent(after, w.obj) == Some(Tombstone(Some(before.latest[w.obj]), tx))
      case Add => Leaves(before, after, id, w.obj, env.addTo(was.fields, w.path, w.doc), was.number + 1, tx)
      case Put =>
        if w.path != "" then Leaves(before, after, id, w.obj, env.insertAt(was.fields, w.path, w.doc), was.number + 1, tx)
        else if w.doc.Doc? then Leaves(before, after, id, w.obj, w.doc.fields, was.number + 1, tx)
        else id == None && after == before
  }

  /** No other object changes, no stored event is lost, and no block is started. */
  ghost predicate OthersKept(before: Shard, obj: Obj, after: Shard) {
    && after.pending == before.pending && after.blocks.Keys == before.blocks.Keys
    && (forall o {:trigger Current(after, o)} | o != obj ::
          (o in after.latest <==> o in before.latest) && (o in before.latest ==> after.latest[o] == before.latest[o]) && Current(after, o) == Current(before, o))
    && (forall p {:trigger At(after, p)} | At(before, p).Some? :: At(after, p) == At(before, p))
  }

  lemma WriteEffect(env: Env, sh: Shard, w: Write, tx: Option<TxId>)
    requires Ordered(sh)
    ensures var (after, id) := ApplyWrite(env, sh, w, tx); WriteLeaves(env, sh, w, tx, after, id) && OthersKept(sh, w.obj, after)
  {
    var after := ApplyWrite(env, sh, w, tx).0;
    forall o | o != w.obj ensures Current(after, o) == Current(sh, o) {
      if o in sh.latest { EndIsLast(sh, sh.latest[o]); }
    }
  }

  /** A new block is started exactly from 5120 bytes on, and no object or event changes. */
  lemma OrganizeEffect(env: Env, sh: Shard, newId: nat)
    requires Ordered(sh) && Fresh(sh, newId)
    ensures var after := Organize(env, sh, newId);
            && (after.pending == newId <==> env.dataSize(sh.blocks[sh.pending]) >= 5120)
            && (after.pending != newId ==> after == sh)
            && (after.pending == newId ==> after.blocks[newId] == [])
            && (forall o :: Current(after, o) == Current(sh, o)) && after.latest == sh.latest
            && forall p | At(sh, p).Some? :: At(after, p) == At(sh, p)
  {
    assert newId !in sh.blocks;
  }
}
