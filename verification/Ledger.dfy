/**
 The ledger around the shards: collections, secondary indexes and the two counters, and
 what every operation keeps true of them.
 */
module Ledger {
  import opened EventLog
  import SI = SecondaryIndex
  import MM = MultiMap
  import History

  type IndexName = (string, string)       // collection and name
  type Indexes = map<IndexName, SI.Index>
  type Past = Obj -> seq<Fields>          // every object's documents since it was last created, oldest first

  /** The document of an object that exists. */
  function Value(env: Env, shards: Shards, obj: Obj): Option<Fields> {
    match Current(shards[env.shardOf(obj)], obj)
    case Some(e) => Some(e.fields)
    case None => None
  }

  ghost function DocsOf(env: Env, shards: Shards, c: string): SI.Docs {
    (k: string) => Value(env, shards, Obj(c, k))
  }

  // ------------------------------------------------------------------------- invariants

  /** Objects are in their own shard and their latest event is stored; their collections exist. */
  ghost predicate ShardOk(env: Env, s: ShardId, sh: Shard, collections: set<string>) {
    && Ordered(sh)
    && forall o | o in sh.latest :: env.shardOf(o) == s && o.collection in collections
  }

  ghost predicate ShardsOk(env: Env, shards: Shards, collections: set<string>) {
    forall s: ShardId {:trigger ShardOk(env, s, shards[s], collections)} :: ShardOk(env, s, shards[s], collections)
  }

  /** The links of every object show its past. */
  ghost predicate PastOk(env: Env, shards: Shards, past: Past) {
    forall o {:trigger past(o)} :: History.Shows(shards[env.shardOf(o)], o, past(o))
  }

  ghost predicate IndexesOk(env: Env, h: SI.Hashing, shards: Shards, indexes: Indexes) {
    forall n {:trigger SI.Covers(h, indexes[n], DocsOf(env, shards, n.0))} | n in indexes ::
      SI.Covers(h, indexes[n], DocsOf(env, shards, n.0))
  }

  ghost function Live(shards: Shards): set<Obj> {
    set s: ShardId, o | o in shards[s].latest && Current(shards[s], o).Some? :: o
  }

  ghost function VersionIds(shards: Shards): set<EventId> {
    set s: ShardId, b, i | b in shards[s].blocks && 0 <= i < |shards[s].blocks[b]| && shards[s].blocks[b][i].Version?
      :: EventId(s, Pos(b, i))
  }

  // ------------------------------------------------------- what an appended event changes

  function Appended(shards: Shards, s: ShardId, obj: Obj, e: Event): Shards {
    shards[s := Append(shards[s], obj, e)]
  }

  lemma CurrentAfterAppend(sh: Shard, obj: Obj, e: Event, o: Obj)
    requires Ordered(sh)
    ensures Current(Append(sh, obj, e), o) == if o == obj then (if e.Version? then Some(e) else None) else Current(sh, o)
  {
  }

  lemma ValueAfterAppend(env: Env, shards: Shards, cs: set<string>, obj: Obj, e: Event, o: Obj)
    requires ShardsOk(env, shards, cs)
    ensures Value(env, Appended(shards, env.shardOf(obj), obj, e), o) ==
            if o == obj then (if e.Version? then Some(e.fields) else None) else Value(env, shards, o)
  {
    var s := env.shardOf(obj);
    assert ShardOk(env, s, shards[s], cs);
    CurrentAfterAppend(shards[s], obj, e, o);
  }

  lemma ShardsAfterAppend(env: Env, shards: Shards, cs: set<string>, obj: Obj, e: Event)
    requires ShardsOk(env, shards, cs)
    ensures ShardsOk(env, Appended(shards, env.shardOf(obj), obj, e), cs + {obj.collection})
  {
    var shards' := Appended(shards, env.shardOf(obj), obj, e);
    forall s: ShardId ensures ShardOk(env, s, shards'[s], cs + {obj.collection}) {
      assert ShardOk(env, s, shards[s], cs);
    }
  }

  ghost function With(past: Past, obj: Obj, docs: seq<Fields>): Past {
    (o: Obj) => if o == obj then docs else past(o)
  }

  /** An event for one object leaves the others' past alone. */
  lemma PastAfterAppend(env: Env, shards: Shards, cs: set<string>, past: Past, obj: Obj, e: Event, docs: seq<Fields>)
    requires ShardsOk(env, shards, cs) && PastOk(env, shards, past)
    requires History.Shows(Append(shards[env.shardOf(obj)], obj, e), obj, docs)
    ensures PastOk(env, Appended(shards, env.shardOf(obj), obj, e), With(past, obj, docs))
  {
    var s, past' := env.shardOf(obj), With(past, obj, docs);
    assert ShardOk(env, s, shards[s], cs);
    forall o ensures History.Shows(Appended(shards, s, obj, e)[env.shardOf(o)], o, past'(o)) {
      assert History.Shows(shards[env.shardOf(o)], o, past(o));
      if o != obj && env.shardOf(o) == s { History.ShowsAfterAppend(shards[s], obj, e, o, past(o)); }
    }
  }

  lemma LiveIsValue(env: Env, shards: Shards, cs: set<string>, o: Obj)
    requires ShardsOk(env, shards, cs)
    ensures o in Live(shards) <==> Value(env, shards, o).Some?
  {
    if o in Live(shards) {
      var s: ShardId :| o in shards[s].latest && Current(shards[s], o).Some?;
      assert ShardOk(env, s, shards[s], cs);
    }
  }

  lemma LiveAfterAppend(env: Env, shards: Shards, cs: set<string>, obj: Obj, e: Event)
    requires ShardsOk(env, shards, cs)
    ensures Live(Appended(shards, env.shardOf(obj), obj, e)) == if e.Version? then Live(shards) + {obj} else Live(shards) - {obj}
  {
    var shards' := Appended(shards, env.shardOf(obj), obj, e);
    ShardsAfterAppend(env, shards, cs, obj, e);
    forall o ensures o in Live(shards') <==> if o == obj then e.Version? else o in Live(shards) {
      ValueAfterAppend(env, shards, cs, obj, e, o);
      LiveIsValue(env, shards, cs, o);
      LiveIsValue(env, shards', cs + {obj.collection}, o);
    }
  }

  lemma IsVersionId(shards: Shards, id: EventId)
    ensures id in VersionIds(shards) <==> At(shards[id.shard], id.pos).Some? && At(shards[id.shard], id.pos).value.Version?
  {
    if At(shards[id.shard], id.pos).Some? && At(shards[id.shard], id.pos).value.Version? {
      assert EventId(id.shard, Pos(id.pos.block, id.pos.index)) == id;
    }
  }

  lemma VersionsAfterAppend(shards: Shards, s: ShardId, obj: Obj, e: Event)
    ensures EventId(s, End(shards[s])) !in VersionIds(shards)
    ensures VersionIds(Appended(shards, s, obj, e)) ==
            VersionIds(shards) + if e.Version? then {EventId(s, End(shards[s]))} else {}
  {
    var next := EventId(s, End(shards[s]));
    IsVersionId(shards, next);
    forall id ensures id in VersionIds(Appended(shards, s, obj, e)) <==>
                      id in VersionIds(shards) || (e.Version? && id == next) {
      IsVersionId(shards, id);
      IsVersionId(Appended(shards, s, obj, e), id);
    }
  }

  // ------------------------------------------------------------ what happens to the indexes

  /** Every index of the object's collection follows the new version. */
  function Updated(h: SI.Hashing, indexes: Indexes, obj: Obj, cur: Option<Fields>, doc: Fields): Indexes {
    map n | n in indexes :: if n.0 == obj.collection then SI.Update(h, indexes[n], cur, doc, obj.key) else indexes[n]
  }

  lemma IndexAfterPut(env: Env, h: SI.Hashing, shards: Shards, ix: SI.Index, c: string, cs: set<string>, obj: Obj, e: Event)
    requires ShardsOk(env, shards, cs) && e.Version? && SI.Covers(h, ix, DocsOf(env, shards, c))
    ensures var shards' := Appended(shards, env.shardOf(obj), obj, e);
            SI.Covers(h, if c == obj.collection then SI.Update(h, ix, Value(env, shards, obj), e.fields, obj.key) else ix,
                      DocsOf(env, shards', c))
  {
    var docs, docs' := DocsOf(env, shards, c), DocsOf(env, Appended(shards, env.shardOf(obj), obj, e), c);
    forall k ensures docs'(k) == if c == obj.collection && k == obj.key then Some(e.fields) else docs(k) {
      ValueAfterAppend(env, shards, cs, obj, e, Obj(c, k));
    }
    if c == obj.collection {
      SI.UpdateKeepsCover(h, ix, docs, docs', e.fields, obj.key);
    } else {
      SI.FewerDocsCovered(h, ix, docs, docs');
    }
  }

  lemma IndexesAfterPut(env: Env, h: SI.Hashing, shards: Shards, indexes: Indexes, cs: set<string>, obj: Obj, e: Event)
    requires ShardsOk(env, shards, cs) && e.Version? && IndexesOk(env, h, shards, indexes)
    ensures IndexesOk(env, h, Appended(shards, env.shardOf(obj), obj, e),
                      Updated(h, indexes, obj, Value(env, shards, obj), e.fields))
  {
    forall n | n in indexes
      ensures SI.Covers(h, Updated(h, indexes, obj, Value(env, shards, obj), e.fields)[n],
                        DocsOf(env, Appended(shards, env.shardOf(obj), obj, e), n.0))
    {
      assert SI.Covers(h, indexes[n], DocsOf(env, shards, n.0));
      IndexAfterPut(env, h, shards, indexes[n], n.0, cs, obj, e);
    }
  }

  /** Where no document appears or changes, the indexes need not move. */
  lemma IndexesAfterLoss(env: Env, h: SI.Hashing, shards: Shards, shards': Shards, indexes: Indexes)
    requires IndexesOk(env, h, shards, indexes)
    requires forall o | Value(env, shards', o).Some? :: Value(env, shards', o) == Value(env, shards, o)
    ensures IndexesOk(env, h, shards', indexes)
  {
    forall n | n in indexes ensures SI.Covers(h, indexes[n], DocsOf(env, shards', n.0)) {
      var docs, docs' := DocsOf(env, shards, n.0), DocsOf(env, shards', n.0);
      forall k | docs'(k).Some? ensures docs'(k) == docs(k) {
        assert Value(env, shards', Obj(n.0, k)).Some?;
      }
      assert SI.Covers(h, indexes[n], DocsOf(env, shards, n.0));
      SI.FewerDocsCovered(h, indexes[n], docs, docs');
    }
  }

  // ------------------------------------------------------------------------ new blocks

  lemma ValueAfterOrganize(env: Env, sh: Shard, newId: nat, o: Obj)
    requires Fresh(sh, newId) && (o in sh.latest ==> At(sh, sh.latest[o]).Some?)
    ensures Current(Organize(env, sh, newId), o) == Current(sh, o)
  {
  }

  /** A new block changes nothing that the counters or the indexes speak of. */
  lemma OrganizeKeeps(env: Env, h: SI.Hashing, shards: Shards, indexes: Indexes, cs: set<string>, s: ShardId, newId: nat)
    requires ShardsOk(env, shards, cs) && IndexesOk(env, h, shards, indexes) && Fresh(shards[s], newId)
    ensures var shards' := shards[s := Organize(env, shards[s], newId)];
            && ShardsOk(env, shards', cs) && IndexesOk(env, h, shards', indexes)
            && Live(shards') == Live(shards) && VersionIds(shards') == VersionIds(shards)
            && forall o :: Value(env, shards', o) == Value(env, shards, o)
  {
    var shards' := shards[s := Organize(env, shards[s], newId)];
    forall t: ShardId ensures ShardOk(env, t, shards'[t], cs) {
      assert ShardOk(env, t, shards[t], cs);
    }
    forall o ensures Value(env, shards', o) == Value(env, shards, o) && (o in Live(shards') <==> o in Live(shards)) {
      assert ShardOk(env, s, shards[s], cs);
      ValueAfterOrganize(env, shards[s], newId, o);
      LiveIsValue(env, shards, cs, o);
      LiveIsValue(env, shards', cs, o);
    }
    forall id ensures id in VersionIds(shards') <==> id in VersionIds(shards) {
      IsVersionId(shards, id);
      IsVersionId(shards', id);
    }
    IndexesAfterLoss(env, h, shards, shards', indexes);
  }

  /** Nor does it change what the links show. */
  lemma PastAfterOrganize(env: Env, shards: Shards, cs: set<string>, past: Past, s: ShardId, newId: nat)
    requires ShardsOk(env, shards, cs) && PastOk(env, shards, past) && Fresh(shards[s], newId)
    ensures PastOk(env, shards[s := Organize(env, shards[s], newId)], past)
  {
    var shards' := shards[s := Organize(env, shards[s], newId)];
    assert ShardOk(env, s, shards[s], cs);
    forall o ensures History.Shows(shards'[env.shardOf(o)], o, past(o)) {
      assert History.Shows(shards[env.shardOf(o)], o, past(o));
      if env.shardOf(o) == s { History.RotateShows(env, shards[s], newId, o, past(o)); }
    }
  }

  // ---------------------------------------------------------------- the state as a whole

  datatype State = State(collections: set<string>, shards: Shards, indexes: Indexes, objects: int, versions: int, past: Past)

  /**
   What holds between any two operations: objects sit in their shards, every index covers its
   collection with intact chains, the counters count live objects and stored versions, and the
   links of every object show its past.
   */
  ghost predicate Inv(env: Env, h: SI.Hashing, st: State) {
    && ShardsOk(env, st.shards, st.collections)
    && IndexesOk(env, h, st.shards, st.indexes)
    && st.objects == |Live(st.shards)| && st.versions == |VersionIds(st.shards)|
    && PastOk(env, st.shards, st.past)
  }

  /** The state after `put_next_version`. */
  ghost function AfterPut(env: Env, h: SI.Hashing, st: State, obj: Obj, e: Event): State
    requires e.Version?
  {
    var cur := Value(env, st.shards, obj);
    State(st.collections + {obj.collection},
          Appended(st.shards, env.shardOf(obj), obj, e),
          Updated(h, st.indexes, obj, cur, e.fields),
          st.objects + if cur.None? then 1 else 0,
          st.versions + 1,
          With(st.past, obj, st.past(obj) + [e.fields]))
  }

  lemma CountWith<T>(a: set<T>, x: T)
    ensures |a + {x}| == |a| + if x in a then 0 else 1
  {
    if x in a { assert a + {x} == a; }
  }

  lemma CountsAfterPut(env: Env, shards: Shards, cs: set<string>, obj: Obj, e: Event)
    requires ShardsOk(env, shards, cs) && e.Version?
    ensures var shards' := Appended(shards, env.shardOf(obj), obj, e);
            && |Live(shards')| == |Live(shards)| + (if Value(env, shards, obj).None? then 1 else 0)
            && |VersionIds(shards')| == |VersionIds(shards)| + 1
  {
    LiveAfterAppend(env, shards, cs, obj, e);
    LiveIsValue(env, shards, cs, obj);
    CountWith(Live(shards), obj);
    VersionsAfterAppend(shards, env.shardOf(obj), obj, e);
    CountWith(VersionIds(shards), EventId(env.shardOf(obj), End(shards[env.shardOf(obj)])));
  }

  lemma PutKeepsInv(env: Env, h: SI.Hashing, st: State, obj: Obj, e: Event)
    requires Inv(env, h, st) && e.Version?
    requires History.Shows(Append(st.shards[env.shardOf(obj)], obj, e), obj, st.past(obj) + [e.fields])
    ensures Inv(env, h, AfterPut(env, h, st, obj, e))
  {
    PastAfterAppend(env, st.shards, st.collections, st.past, obj, e, st.past(obj) + [e.fields]);
    ShardsAfterAppend(env, st.shards, st.collections, obj, e);
    IndexesAfterPut(env, h, st.shards, st.indexes, st.collections, obj, e);
    CountsAfterPut(env, st.shards, st.collections, obj, e);
  }

  /** The state after `put_tombstone` and the index entry for it; the secondary indexes stay. */
  ghost function AfterTombstone(env: Env, st: State, obj: Obj, e: Event): State {
    st.(shards := Appended(st.shards, env.shardOf(obj), obj, e), objects := st.objects - 1, past := With(st.past, obj, []))
  }

  lemma TombstoneKeepsInv(env: Env, h: SI.Hashing, st: State, obj: Obj, e: Event)
    requires Inv(env, h, st) && e.Tombstone? && Value(env, st.shards, obj).Some?
    ensures Inv(env, h, AfterTombstone(env, st, obj, e))
  {
    PastAfterAppend(env, st.shards, st.collections, st.past, obj, e, []);
    var shards' := Appended(st.shards, env.shardOf(obj), obj, e);
    LiveIsValue(env, st.shards, st.collections, obj);
    assert obj.collection in st.collections by { assert ShardOk(env, env.shardOf(obj), st.shards[env.shardOf(obj)], st.collections); }
    assert st.collections + {obj.collection} == st.collections;
    ShardsAfterAppend(env, st.shards, st.collections, obj, e);
    forall o ensures Value(env, shards', o) == if o == obj then None else Value(env, st.shards, o) {
      ValueAfterAppend(env, st.shards, st.collections, obj, e, o);
    }
    IndexesAfterLoss(env, h, st.shards, shards', st.indexes);
    LiveAfterAppend(env, st.shards, st.collections, obj, e);
    VersionsAfterAppend(st.shards, env.shardOf(obj), obj, e);
  }

  lemma InitInv(env: Env, h: SI.Hashing, st: State)
    requires st.collections == {} && st.shards == seq(NUM_SHARDS, _ => Shard(map[1 := []], 1, map[])) && st.indexes == map[]
    requires st.objects == 0 && st.versions == 0 && forall o :: st.past(o) == []
    ensures Inv(env, h, st)
  {
    assert Live(st.shards) == {} && VersionIds(st.shards) == {};
  }

  /** The event `put_next_version` appends. */
  function NextVersion(sh: Shard, obj: Obj, doc: Fields, tx: Option<TxId>): (e: Event)
    ensures e.Version? && e.fields == doc
  {
    match Current(sh, obj)
    case None => Version(None, doc, INITIAL_VERSION_NO, tx)
    case Some(cur) => Version(Some(sh.latest[obj]), doc, cur.number + 1, tx)
  }

  /** The new version goes on top of the past. */
  lemma NextVersionShows(env: Env, sh: Shard, obj: Obj, doc: Fields, tx: Option<TxId>, past: seq<Fields>)
    requires Ordered(sh) && History.Shows(sh, obj, past)
    ensures History.Shows(Append(sh, obj, NextVersion(sh, obj, doc, tx)), obj, past + [doc])
  {
    var w := Write(Put, obj, "", Doc(doc));
    History.WriteShows(env, sh, w, tx, past);
    CurrentIffPast(sh, obj, past);
    assert History.SpecWrite(env, past, w) == past + [doc];
  }

  lemma NextPutKeepsInv(env: Env, h: SI.Hashing, st: State, obj: Obj, doc: Fields, tx: Option<TxId>)
    requires Inv(env, h, st)
    ensures Inv(env, h, AfterPut(env, h, st, obj, NextVersion(st.shards[env.shardOf(obj)], obj, doc, tx)))
  {
    var s := env.shardOf(obj);
    assert ShardOk(env, s, st.shards[s], st.collections) && History.Shows(st.shards[s], obj, st.past(obj));
    NextVersionShows(env, st.shards[s], obj, doc, tx, st.past(obj));
    PutKeepsInv(env, h, st, obj, NextVersion(st.shards[s], obj, doc, tx));
  }

  /** An object exists exactly if its past is not empty, and its document is the last one. */
  lemma CurrentIffPast(sh: Shard, obj: Obj, past: seq<Fields>)
    requires History.Shows(sh, obj, past)
    ensures Current(sh, obj).Some? <==> past != []
    ensures past != [] ==> Current(sh, obj).value.fields == past[|past| - 1]
  {
  }

  /**
   In every state of the ledger, the links of an object show exactly its past: the documents put
   since it was last created, numbered up to their count.  Its document is the last of them.
   */
  lemma LedgerShowsHistory(env: Env, h: SI.Hashing, st: State, obj: Obj)
    requires Inv(env, h, st)
    ensures History.Shows(st.shards[env.shardOf(obj)], obj, st.past(obj))
    ensures Value(env, st.shards, obj) == if st.past(obj) == [] then None else Some(st.past(obj)[|st.past(obj)| - 1])
    ensures forall docs | History.Shows(st.shards[env.shardOf(obj)], obj, docs) :: docs == st.past(obj)
  {
    var sh, past := st.shards[env.shardOf(obj)], st.past(obj);
    assert History.Shows(sh, obj, past);
    CurrentIffPast(sh, obj, past);
    forall docs | History.Shows(sh, obj, docs) ensures docs == past {
      CurrentIffPast(sh, obj, docs);
      if past != [] { History.TracesIsUnique(sh, sh.latest[obj], docs, past); }
    }
  }

  lemma CoveredEntry(env: Env, h: SI.Hashing, shards: Shards, indexes: Indexes, n: IndexName, obj: Obj)
    requires IndexesOk(env, h, shards, indexes) && n in indexes && n.0 == obj.collection
    ensures MM.Homed(h.shape, indexes[n].table) && MM.Intact(indexes[n].table)
    ensures Value(env, shards, obj).Some? ==> SI.Holds(h, indexes[n], Value(env, shards, obj).value, obj.key)
  {
    assert SI.Covers(h, indexes[n], DocsOf(env, shards, n.0));
    assert DocsOf(env, shards, n.0)(obj.key) == Value(env, shards, obj);
  }

  /** Some indexes have followed the new version, those in `todo` have not. */
  ghost function Partly(from: Indexes, goal: Indexes, todo: set<IndexName>): Indexes
    requires from.Keys == goal.Keys
  {
    map n | n in goal :: if n in todo then from[n] else goal[n]
  }

  lemma PartlyNext(from: Indexes, goal: Indexes, todo: set<IndexName>, n: IndexName)
    requires from.Keys == goal.Keys && n in todo && n in goal
    ensures Partly(from, goal, todo)[n] == from[n]
    ensures Partly(from, goal, todo)[n := goal[n]] == Partly(from, goal, todo - {n})
  {
  }

  method UpdateOne(env: Env, h: SI.Hashing, shards: Shards, indexes: Indexes, obj: Obj, doc: Fields, n: IndexName) returns (ix: SI.Index)
    requires IndexesOk(env, h, shards, indexes) && n in indexes && n.0 == obj.collection
    ensures ix == Updated(h, indexes, obj, Value(env, shards, obj), doc)[n]
  {
    CoveredEntry(env, h, shards, indexes, n, obj);
    ix := SI.UpdateIndex(h, indexes[n], Value(env, shards, obj), doc, obj.key);
  }

  /** The index loops of `put_next_version`: each index of the collection in turn, in any order. */
  method UpdateIndexes(env: Env, h: SI.Hashing, shards: Shards, indexes: Indexes, obj: Obj, doc: Fields) returns (r: Indexes)
    requires IndexesOk(env, h, shards, indexes)
    ensures r == Updated(h, indexes, obj, Value(env, shards, obj), doc)
  {
    ghost var goal := Updated(h, indexes, obj, Value(env, shards, obj), doc);
    var todo := set n | n in indexes && n.0 == obj.collection;
    r := indexes;
    assert r == Partly(indexes, goal, todo);
    while todo != {}
      invariant todo <= (set n | n in indexes && n.0 == obj.collection)
      invariant r == Partly(indexes, goal, todo)
      decreases |todo|
    {
      var n :| n in todo;
      PartlyNext(indexes, goal, todo, n);
      var ix := UpdateOne(env, h, shards, indexes, obj, doc, n);
      r, todo := r[n := ix], todo - {n};
    }
  }

  // ------------------------------------------------------------- scans, indexes and queries

  /** The keys the primary index of a collection knows, live or not. */
  function KeysOf(shards: Shards, c: string): set<string> {
    set s: ShardId, o | o in shards[s].latest && o.collection == c :: o.key
  }

  lemma LiveKeyIsKnown(env: Env, shards: Shards, c: string, k: string)
    requires Value(env, shards, Obj(c, k)).Some?
    ensures k in KeysOf(shards, c)
  {
    var s: ShardId, o := env.shardOf(Obj(c, k)), Obj(c, k);
    assert o in shards[s].latest && o.collection == c;
  }

  lemma EmptyCovers(h: SI.Hashing, path: string)
    ensures var ix := SI.EmptyIndex(path); MM.Homed(h.shape, ix.table) && MM.Intact(ix.table)
  {
  }

  /** `Collection::create_index`: one entry per live document, met in any order. */
  method BuildIndex(env: Env, h: SI.Hashing, shards: Shards, c: string, path: string) returns (ix: SI.Index)
    ensures ix.path == path && SI.Covers(h, ix, DocsOf(env, shards, c))
  {
    var todo := KeysOf(shards, c);
    ghost var docs := DocsOf(env, shards, c);
    ix := SI.EmptyIndex(path);
    EmptyCovers(h, path);
    forall k | docs(k).Some? ensures k in todo { LiveKeyIsKnown(env, shards, c, k); }
    while todo != {}
      invariant ix.path == path && MM.Homed(h.shape, ix.table) && MM.Intact(ix.table)
      invariant forall k | docs(k).Some? && k !in todo :: SI.Holds(h, ix, docs(k).value, k)
      decreases |todo|
    {
      var k :| k in todo;
      var value := Value(env, shards, Obj(c, k));
      if value.Some? {
        SI.InsertHolds(h, ix, value.value, k);
        var ok;
        ix, ok := SI.InsertDoc(h, ix, value.value, k);
      }
      todo := todo - {k};
    }
  }

  /** What a query should find. */
  ghost predicate Answers(env: Env, shards: Shards, c: string, q: SI.Query, k: string) {
    var v := Value(env, shards, Obj(c, k));
    v.Some? && SI.Matches(q, v.value)
  }

  /** The indexes `find` uses: one per path of the query that some usable index has. */
  method ChooseIndexes(indexes: Indexes, c: string, q: SI.Query) returns (chosen: seq<IndexName>)
    ensures forall i | 0 <= i < |chosen| :: chosen[i] in indexes && chosen[i].0 == c && SI.Usable(indexes[chosen[i]], q)
    ensures forall i, j | 0 <= i < j < |chosen| :: indexes[chosen[i]].path != indexes[chosen[j]].path
    ensures forall n | n in indexes && n.0 == c && indexes[n].path in q && !q[indexes[n].path].Other? ::
              exists i :: 0 <= i < |chosen| && indexes[chosen[i]].path == indexes[n].path
  {
    var todo := set n | n in indexes && n.0 == c;
    var paths := {};
    chosen := [];
    while todo != {}
      invariant forall n | n in todo :: n in indexes && n.0 == c
      invariant forall i | 0 <= i < |chosen| :: chosen[i] in indexes && chosen[i].0 == c && SI.Usable(indexes[chosen[i]], q)
      invariant forall p | p in paths :: exists i :: 0 <= i < |chosen| && indexes[chosen[i]].path == p
      invariant forall i | 0 <= i < |chosen| :: indexes[chosen[i]].path in paths
      invariant forall i, j | 0 <= i < j < |chosen| :: indexes[chosen[i]].path != indexes[chosen[j]].path
      invariant forall n | n in indexes && n.0 == c && n !in todo && SI.Usable(indexes[n], q) :: indexes[n].path in paths
      decreases |todo|
    {
      var n :| n in todo;
      if indexes[n].path !in paths && SI.Usable(indexes[n], q) {
        assert forall i | 0 <= i < |chosen| :: (chosen + [n])[i] == chosen[i];
        assert indexes[(chosen + [n])[|chosen|]].path == indexes[n].path;
        chosen, paths := chosen + [n], paths + {indexes[n].path};
      }
      todo := todo - {n};
    }
  }

  /** The key is listed by the first `n` of the chosen indexes. */
  ghost predicate ListedByFirst(h: SI.Hashing, indexes: Indexes, chosen: seq<IndexName>, q: SI.Query, n: nat, k: string) {
    n <= |chosen| && forall i {:trigger chosen[i]} | 0 <= i < n ::
      chosen[i] in indexes && SI.Usable(indexes[chosen[i]], q) && SI.Listed(h, indexes[chosen[i]], q[indexes[chosen[i]].path], k)
  }

  /** The candidates of the chosen indexes, first united then intersected: exactly the keys all of them list, so no answer is missing. */
  method Candidates(env: Env, h: SI.Hashing, shards: Shards, indexes: Indexes, c: string, q: SI.Query, chosen: seq<IndexName>)
    returns (r: set<string>)
    requires IndexesOk(env, h, shards, indexes) && chosen != []
    requires forall i | 0 <= i < |chosen| :: chosen[i] in indexes && chosen[i].0 == c && SI.Usable(indexes[chosen[i]], q)
    ensures forall k | Answers(env, shards, c, q, k) :: k in r
    ensures forall k {:trigger k in r} :: k in r <==> ListedByFirst(h, indexes, chosen, q, |chosen|, k)
  {
    r := {};
    for i := 0 to |chosen|
      invariant i > 0 ==> forall k | Answers(env, shards, c, q, k) :: k in r
      invariant i == 0 ==> r == {}
      invariant i > 0 ==> forall k {:trigger k in r} :: k in r <==> ListedByFirst(h, indexes, chosen, q, i, k)
    {
      var ix := indexes[chosen[i]];
      assert SI.Covers(h, ix, DocsOf(env, shards, c));
      var ok;
      ghost var was := r;
      r, ok := SI.Find(h, ix, q[ix.path], r, if i == 0 then SI.Union else SI.Intersect);
      forall k ensures k in r <==> ListedByFirst(h, indexes, chosen, q, i + 1, k) {
        ListedNext(h, indexes, chosen, q, i, k);
        assert k in r <==> (i == 0 || k in was) && SI.Listed(h, ix, q[ix.path], k);
        assert i > 0 ==> (k in was <==> ListedByFirst(h, indexes, chosen, q, i, k));
      }
      forall k | Answers(env, shards, c, q, k) ensures SI.Listed(h, ix, q[ix.path], k) {
        SI.MatchIsListed(h, ix, DocsOf(env, shards, c), q, k);
      }
    }
  }

  lemma ListedNext(h: SI.Hashing, indexes: Indexes, chosen: seq<IndexName>, q: SI.Query, n: nat, k: string)
    requires n < |chosen| && chosen[n] in indexes && SI.Usable(indexes[chosen[n]], q)
    ensures ListedByFirst(h, indexes, chosen, q, n + 1, k) <==>
            ListedByFirst(h, indexes, chosen, q, n, k) && SI.Listed(h, indexes[chosen[n]], q[indexes[chosen[n]].path], k)
  {
  }

  /** `ObjectListIterator`: of the given keys, those whose document lives and matches, each once. */
  method Filter(env: Env, shards: Shards, c: string, q: SI.Query, keys: set<string>) returns (r: seq<string>)
    ensures forall k :: k in r <==> k in keys && Answers(env, shards, c, q, k)
    ensures forall i, j | 0 <= i < j < |r| :: r[i] != r[j]
  {
    var todo := keys;
    r := [];
    while todo != {}
      invariant todo <= keys
      invariant forall k :: k in r <==> k in keys - todo && Answers(env, shards, c, q, k)
      invariant forall i, j | 0 <= i < j < |r| :: r[i] != r[j]
      decreases |todo|
    {
      var k :| k in todo;
      var value := Value(env, shards, Obj(c, k));
      if value.Some? && SI.Matches(q, value.value) {
        assert k !in r;
        r := r + [k];
      }
      todo := todo - {k};
    }
  }

  lemma CollectionAdded(env: Env, h: SI.Hashing, st: State, c: string)
    requires Inv(env, h, st)
    ensures Inv(env, h, st.(collections := st.collections + {c}))
  {
    forall s: ShardId ensures ShardOk(env, s, st.shards[s], st.collections + {c}) {
      assert ShardOk(env, s, st.shards[s], st.collections);
    }
  }

  lemma IndexAdded(env: Env, h: SI.Hashing, st: State, n: IndexName, ix: SI.Index)
    requires Inv(env, h, st) && SI.Covers(h, ix, DocsOf(env, st.shards, n.0))
    ensures Inv(env, h, st.(indexes := st.indexes[n := ix]))
  {
    var indexes' := st.indexes[n := ix];
    forall m | m in indexes' ensures SI.Covers(h, indexes'[m], DocsOf(env, st.shards, m.0)) {
      if m != n { assert SI.Covers(h, st.indexes[m], DocsOf(env, st.shards, m.0)); }
    }
  }

  lemma IndexDropped(env: Env, h: SI.Hashing, st: State, n: IndexName)
    requires Inv(env, h, st)
    ensures Inv(env, h, st.(indexes := st.indexes - {n}))
  {
    var indexes' := st.indexes - {n};
    forall m | m in indexes' ensures SI.Covers(h, indexes'[m], DocsOf(env, st.shards, m.0)) {
      assert SI.Covers(h, st.indexes[m], DocsOf(env, st.shards, m.0));
    }
  }

  lemma UnknownCollection(env: Env, h: SI.Hashing, st: State, c: string)
    requires Inv(env, h, st) && c !in st.collections
    ensures forall k :: Value(env, st.shards, Obj(c, k)).None?
  {
    forall k ensures Value(env, st.shards, Obj(c, k)).None? {
      var s := env.shardOf(Obj(c, k));
      assert ShardOk(env, s, st.shards[s], st.collections);
    }
  }

  lemma {:induction false} DistinctCount(keys: seq<string>)
    requires forall i, j | 0 <= i < j < |keys| :: keys[i] != keys[j]
    ensures |keys| == |set k | k in keys|
  {
    if keys != [] {
      DistinctCount(keys[1..]);
      assert (set k | k in keys) == (set k | k in keys[1..]) + {keys[0]};
    }
  }

  /** Where the primary index leads. */
  function LatestId(env: Env, shards: Shards, o: Obj): Option<EventId> {
    var s := env.shardOf(o);
    if o in shards[s].latest then Some(EventId(s, shards[s].latest[o])) else None
  }

  /** The shards after `clear` has met an object: a tombstone if it was live. */
  function Tombstoned(env: Env, shards: Shards, obj: Obj): Shards {
    if Value(env, shards, obj).None? then shards
    else Appended(shards, env.shardOf(obj), obj, Tombstone(Some(shards[env.shardOf(obj)].latest[obj]), None))
  }

  /** The objects with the given keys have lost their past; everything else is as before. */
  ghost predicate Cleared(before: State, now: State, c: string, keys: set<string>) {
    && (forall o: Obj {:trigger now.past(o)} :: now.past(o) == if o.collection == c && o.key in keys then [] else before.past(o))
    && (forall s: ShardId :: now.shards[s].blocks.Keys == before.shards[s].blocks.Keys)
    && now == before.(shards := now.shards, objects := now.objects, past := now.past)
  }

  /** One more key is met: it had no past. */
  lemma ClearedOver(env: Env, h: SI.Hashing, before: State, st: State, c: string, keys: set<string>, k: string)
    requires Inv(env, h, st) && Cleared(before, st, c, keys) && Value(env, st.shards, Obj(c, k)).None?
    ensures Cleared(before, st, c, keys + {k})
  {
    LedgerShowsHistory(env, h, st, Obj(c, k));
    forall o ensures st.past(o) == if o.collection == c && o.key in keys + {k} then [] else before.past(o) {
      assert o == Obj(c, k) || !(o.collection == c && o.key == k);
    }
  }

  /** Or it gets a tombstone. */
  lemma ClearedNext(env: Env, before: State, st: State, c: string, keys: set<string>, k: string, e: Event)
    requires Cleared(before, st, c, keys)
    ensures Cleared(before, AfterTombstone(env, st, Obj(c, k), e), c, keys + {k})
  {
    var obj, next := Obj(c, k), AfterTombstone(env, st, Obj(c, k), e);
    forall o ensures next.past(o) == if o.collection == c && o.key in keys + {k} then [] else before.past(o) {
      assert o == obj || !(o.collection == c && o.key == k);
      assert st.past(o) == if o.collection == c && o.key in keys then [] else before.past(o);
    }
  }

  /** What was cleared is gone, and what was not is as before. */
  lemma ClearedValues(env: Env, h: SI.Hashing, before: State, now: State, c: string, keys: set<string>, o: Obj)
    requires Inv(env, h, before) && Inv(env, h, now) && Cleared(before, now, c, keys)
    ensures Value(env, now.shards, o) == if o.collection == c && o.key in keys then None else Value(env, before.shards, o)
  {
    LedgerShowsHistory(env, h, before, o);
    LedgerShowsHistory(env, h, now, o);
  }

  // ----------------------------------------------------------------------- the object

  datatype CreateResult = Created | NameTaken | NotOnePath

  class Ledger {
    const env: Env
    const h: SI.Hashing
    var collections: set<string>
    var shards: Shards
    var indexes: Indexes
    var objects: int
    var versions: int
    ghost var past: Past

    ghost function St(): State
      reads this
    {
      State(collections, shards, indexes, objects, versions, past)
    }

    ghost predicate Valid()
      reads this
    {
      exists st :: st == St() && Inv(env, h, st)
    }

    constructor (env: Env, h: SI.Hashing)
      ensures Valid() && this.env == env && this.h == h && objects == 0 && versions == 0
      ensures forall o :: past(o) == [] && Value(env, shards, o).None?
    {
      this.env, this.h := env, h;
      collections, shards, indexes := {}, seq(NUM_SHARDS, _ => Shard(map[1 := []], 1, map[])), map[];
      objects, versions := 0, 0;
      past := (o: Obj) => [];
      new;
      InitInv(env, h, St());
    }

    method PutNextVersion(obj: Obj, doc: Document, tx: Option<TxId>) returns (id: Option<Pos>)
      requires Valid()
      modifies this
      ensures Valid()
      ensures doc.Invalid? ==> id.None? && St() == old(St())
      ensures doc.Doc? ==>
                var sh := old(shards)[env.shardOf(obj)];
                && id == Some(End(sh))
                && St() == AfterPut(env, h, old(St()), obj, NextVersion(sh, obj, doc.fields, tx))
    {
      if doc.Invalid? {
        return None;
      }
      var s := env.shardOf(obj);
      var e := NextVersion(shards[s], obj, doc.fields, tx);
      NextPutKeepsInv(env, h, St(), obj, doc.fields, tx);
      ghost var goal := AfterPut(env, h, St(), obj, e);
      var cur := Value(env, shards, obj);
      indexes := UpdateIndexes(env, h, shards, indexes, obj, doc.fields);
      collections := collections + {obj.collection};
      if cur.None? {
        objects := objects + 1;
      }
      id := Some(End(shards[s]));
      shards := Appended(shards, s, obj, e);
      versions := versions + 1;
      past := goal.past;
      assert St() == goal;
    }

    method PutTombstone(obj: Obj, tx: Option<TxId>) returns (id: Option<Pos>)
      requires Valid() && Value(env, shards, obj).Some?
      modifies this
      ensures Valid()
      ensures var sh := old(shards)[env.shardOf(obj)];
              && id == Some(End(sh))
              && St() == AfterTombstone(env, old(St()), obj, Tombstone(Some(sh.latest[obj]), tx))
              && shards[env.shardOf(obj)] == EventLog.ApplyWrite(env, sh, Write(Remove, obj, "", Invalid), tx).0
    {
      var s := env.shardOf(obj);
      var e := Tombstone(Some(shards[s].latest[obj]), tx);
      TombstoneKeepsInv(env, h, St(), obj, e);
      id := Some(End(shards[s]));
      shards := shards[s := Append(shards[s], obj, e)];
      objects := objects - 1;
      past := With(past, obj, []);
    }

    /** `apply_write` where there is no object. */
    method WriteNew(w: Write, tx: Option<TxId>) returns (id: Option<Pos>)
      requires Valid() && Current(shards[env.shardOf(w.obj)], w.obj).None?
      modifies this
      ensures Valid()
      ensures var s := env.shardOf(w.obj);
              var r := EventLog.ApplyWrite(env, old(shards)[s], w, tx);
              shards == old(shards)[s := r.0] && id == r.1
      ensures forall o :: past(o) == if o == w.obj then History.SpecWrite(env, old(past)(o), w) else old(past)(o)
    {
      assert History.Shows(shards[env.shardOf(w.obj)], w.obj, past(w.obj));
      CurrentIffPast(shards[env.shardOf(w.obj)], w.obj, past(w.obj));
      if w.path != "" || w.kind.Remove? {
        return None;
      }
      id := PutNextVersion(w.obj, w.doc, tx);
    }

    /** `apply_write` of a removal. */
    method WriteRemoval(w: Write, tx: Option<TxId>) returns (id: Option<Pos>)
      requires Valid() && Current(shards[env.shardOf(w.obj)], w.obj).Some? && w.kind.Remove?
      modifies this
      ensures Valid()
      ensures var s := env.shardOf(w.obj);
              var r := EventLog.ApplyWrite(env, old(shards)[s], w, tx);
              shards == old(shards)[s := r.0] && id == r.1
      ensures forall o :: past(o) == if o == w.obj then History.SpecWrite(env, old(past)(o), w) else old(past)(o)
    {
      assert History.Shows(shards[env.shardOf(w.obj)], w.obj, past(w.obj));
      CurrentIffPast(shards[env.shardOf(w.obj)], w.obj, past(w.obj));
      id := PutTombstone(w.obj, tx);
    }

    /** `apply_write` of an addition or a put to an object that is there. */
    method WriteNext(w: Write, tx: Option<TxId>) returns (id: Option<Pos>)
      requires Valid() && Current(shards[env.shardOf(w.obj)], w.obj).Some? && !w.kind.Remove?
      modifies this
      ensures Valid()
      ensures var s := env.shardOf(w.obj);
              var r := EventLog.ApplyWrite(env, old(shards)[s], w, tx);
              shards == old(shards)[s := r.0] && id == r.1
      ensures forall o :: past(o) == if o == w.obj then History.SpecWrite(env, old(past)(o), w) else old(past)(o)
    {
      assert History.Shows(shards[env.shardOf(w.obj)], w.obj, past(w.obj));
      CurrentIffPast(shards[env.shardOf(w.obj)], w.obj, past(w.obj));
      var fields := Current(shards[env.shardOf(w.obj)], w.obj).value.fields;
      var doc := w.doc;
      if w.kind.Add? {
        doc := Doc(env.addTo(fields, w.path, w.doc));
      } else if w.path != "" {
        doc := Doc(env.insertAt(fields, w.path, w.doc));
      }
      id := PutNextVersion(w.obj, doc, tx);
    }

    /**
     `apply_write`: the object's document, its version number, the link to the version before and the
     transaction are what the kind of the write makes of what was there; the object's past is what
     the write should make of it; and no other object, event or past changes.
     */
    method ApplyWrite(w: Write, tx: Option<TxId>) returns (id: Option<Pos>)
      requires Valid()
      modifies this
      ensures Valid()
      ensures var s := env.shardOf(w.obj);
              && shards == old(shards)[s := shards[s]]
              && shards[s] == EventLog.ApplyWrite(env, old(shards)[s], w, tx).0 && id == EventLog.ApplyWrite(env, old(shards)[s], w, tx).1
              && WriteLeaves(env, old(shards)[s], w, tx, shards[s], id) && OthersKept(old(shards)[s], w.obj, shards[s])
      ensures forall o :: past(o) == if o == w.obj then History.SpecWrite(env, old(past)(o), w) else old(past)(o)
    {
      ghost var sh := shards[env.shardOf(w.obj)];
      assert ShardOk(env, env.shardOf(w.obj), sh, collections);
      if Current(shards[env.shardOf(w.obj)], w.obj).None? {
        id := WriteNew(w, tx);
      } else if w.kind.Remove? {
        id := WriteRemoval(w, tx);
      } else {
        id := WriteNext(w, tx);
      }
      WriteEffect(env, sh, w, tx);
    }

    /** `organize_ledger`. */
    method OrganizeLedger(s: ShardId, newId: nat)
      requires Valid() && Fresh(shards[s], newId)
      modifies this
      ensures Valid() && St() == old(St()).(shards := old(shards)[s := Organize(env, old(shards)[s], newId)])
      ensures forall o :: Value(env, shards, o) == old(Value(env, shards, o))
    {
      OrganizeKeeps(env, h, shards, indexes, collections, s, newId);
      PastAfterOrganize(env, shards, collections, past, s, newId);
      if env.dataSize(shards[s].blocks[shards[s].pending]) >= MIN_BLOCK_SIZE {
        shards := shards[s := Shard(shards[s].blocks[newId := []], newId, shards[s].latest)];
      }
      assert shards == old(shards)[s := Organize(env, old(shards)[s], newId)];
      assert Inv(env, h, St());
    }

    /** `create_index`: an index has exactly one path; a name that is taken is refused, any other number of paths is an error. */
    method CreateIndex(c: string, name: string, paths: seq<string>) returns (r: CreateResult)
      requires Valid()
      modifies this
      ensures Valid() && St() == old(St()).(collections := old(collections) + {c}, indexes := indexes)
      ensures r == if (c, name) in old(indexes) then NameTaken else if |paths| != 1 then NotOnePath else Created
      ensures !r.Created? ==> indexes == old(indexes)
      ensures r.Created? ==> (c, name) in indexes && indexes[(c, name)].path == paths[0] && indexes == old(indexes)[(c, name) := indexes[(c, name)]]
      ensures r.Created? ==> SI.Covers(h, indexes[(c, name)], DocsOf(env, shards, c))
    {
      CollectionAdded(env, h, St(), c);
      collections := collections + {c};
      if (c, name) in indexes {
        return NameTaken;
      }
      if |paths| != 1 {
        return NotOnePath;
      }
      var ix := BuildIndex(env, h, shards, c, paths[0]);
      IndexAdded(env, h, St(), (c, name), ix);
      indexes := indexes[(c, name) := ix];
      r := Created;
    }

    method DropIndex(c: string, name: string) returns (ok: bool)
      requires Valid()
      modifies this
      ensures Valid() && ok == ((c, name) in old(indexes))
      ensures St() == old(St()).(indexes := old(indexes) - {(c, name)})
    {
      ok := (c, name) in indexes;
      IndexDropped(env, h, St(), (c, name));
      indexes := indexes - {(c, name)};
    }

    /** `find`, with or without indexes: exactly the live documents of the collection that match, each once. */
    method Find(c: string, q: SI.Query) returns (r: seq<string>)
      requires Valid()
      ensures forall k :: k in r <==> Answers(env, shards, c, q, k)
      ensures forall k {:trigger k in r} :: k in r <==> Value(env, shards, Obj(c, k)).Some? && SI.Fulfils(q, Value(env, shards, Obj(c, k)).value)
      ensures forall i, j | 0 <= i < j < |r| :: r[i] != r[j]
    {
      forall k | Value(env, shards, Obj(c, k)).Some?
        ensures Answers(env, shards, c, q, k) <==> SI.Fulfils(q, Value(env, shards, Obj(c, k)).value)
      {
        SI.MatchesIff(q, Value(env, shards, Obj(c, k)).value);
      }
      var chosen := ChooseIndexes(indexes, c, q);
      var keys;
      if c !in collections {
        keys := {};
        UnknownCollection(env, h, St(), c);
      } else if chosen != [] {
        keys := Candidates(env, h, shards, indexes, c, q, chosen);
      } else {
        keys := KeysOf(shards, c);
        forall k | Answers(env, shards, c, q, k) ensures k in keys { LiveKeyIsKnown(env, shards, c, k); }
      }
      r := Filter(env, shards, c, q, keys);
    }

    /** `count_objects`. */
    method CountObjects(c: string, q: SI.Query) returns (n: int)
      requires Valid()
      ensures c == "" ==> n == |Live(shards)|
      ensures c != "" ==> exists r: set<string> :: n == |r| && forall k :: k in r <==> Answers(env, shards, c, q, k)
    {
      if c == "" {
        return objects;
      }
      var keys := Find(c, q);
      n := |keys|;
      DistinctCount(keys);
    }

    /** `clear` meets one key: a tombstone if its object is live. */
    method ClearKey(c: string, k: string, ghost before: State, ghost keys: set<string>) returns (id: Option<EventId>)
      requires Valid() && Cleared(before, St(), c, keys)
      modifies this
      ensures Valid() && Cleared(before, St(), c, keys + {k})
      ensures shards == Tombstoned(env, old(shards), Obj(c, k))
      ensures id == if old(Value(env, shards, Obj(c, k))).None? then None else LatestId(env, shards, Obj(c, k))
    {
      if Value(env, shards, Obj(c, k)).Some? {
        ClearedNext(env, before, St(), c, keys, k, Tombstone(Some(shards[env.shardOf(Obj(c, k))].latest[Obj(c, k)]), None));
        var p := PutTombstone(Obj(c, k), None);
        id := Some(EventId(env.shardOf(Obj(c, k)), p.value));
      } else {
        ClearedOver(env, h, before, St(), c, keys, k);
        id := None;
      }
    }

    /** The first loop of `clear`: a tombstone for every live object it meets. */
    method TombstoneAll(c: string, keys: seq<string>)
      requires Valid()
      modifies this
      ensures Valid() && Cleared(old(St()), St(), c, set k | k in keys)
    {
      ghost var met: set<string> := {};
      for i := 0 to |keys|
        invariant Valid() && Cleared(old(St()), St(), c, met) && met == set k | k in keys[..i]
      {
        var _ := ClearKey(c, keys[i], old(St()), met);
        met := met + {keys[i]};
        assert keys[..i + 1] == keys[..i] + [keys[i]];
      }
      assert keys[..|keys|] == keys;
    }

    /** The second loop of `clear`. */
    method OrganizeAll(newIds: seq<nat>)
      requires Valid() && |newIds| == NUM_SHARDS && forall s: ShardId :: Fresh(shards[s], newIds[s])
      modifies this
      ensures Valid() && St() == old(St()).(shards := shards)
      ensures forall o :: Value(env, shards, o) == old(Value(env, shards, o))
      ensures forall s: ShardId :: shards[s].latest == old(shards)[s].latest
    {
      for s := 0 to NUM_SHARDS
        invariant Valid() && St() == old(St()).(shards := shards)
        invariant forall o :: Value(env, shards, o) == old(Value(env, shards, o))
        invariant forall t: ShardId | s <= t :: shards[t] == old(shards)[t]
        invariant forall t: ShardId :: shards[t].latest == old(shards)[t].latest
      {
        OrganizeLedger(s, newIds[s]);
      }
    }

    /**
     `clear`: the objects whose keys the walk over the primary index meets are gone and none of
     their past is shown; every other object's document and past are as before.  If the walk meets
     every live object and comes to its end, no object of the collection is left.  A version error
     half-way leaves the rest as it was.
     */
    method Clear(c: string, keys: seq<string>, whole: bool, newIds: seq<nat>) returns (ok: bool)
      requires Valid() && |newIds| == NUM_SHARDS && forall s: ShardId :: Fresh(shards[s], newIds[s])
      requires whole ==> forall k | Value(env, shards, Obj(c, k)).Some? :: k in keys
      modifies this
      ensures Valid() && (ok <==> c in old(collections) && whole)
      ensures St() == old(St()).(shards := shards, objects := objects, past := past)
      ensures c !in old(collections) ==> St() == old(St())
      ensures c in old(collections) ==> forall o :: past(o) == if o.collection == c && o.key in keys then [] else old(past)(o)
      ensures c in old(collections) ==> forall o ::
                Value(env, shards, o) == if o.collection == c && o.key in keys then None else old(Value(env, shards, o))
      ensures ok ==> forall o: Obj | o.collection == c :: Value(env, shards, o).None? && past(o) == []
    {
      if c !in collections {
        return false;
      }
      TombstoneAll(c, keys);
      forall o ensures Value(env, shards, o) == if o.collection == c && o.key in keys then None else old(Value(env, shards, o)) {
        ClearedValues(env, h, old(St()), St(), c, (set k | k in keys), o);
      }
      if !whole {
        return false;
      }
      assert forall s: ShardId :: shards[s].blocks.Keys == old(shards)[s].blocks.Keys;
      OrganizeAll(newIds);
      forall o: Obj | o.collection == c ensures Value(env, shards, o).None? && past(o) == [] {
        assert o == Obj(c, o.key);
        LedgerShowsHistory(env, h, St(), o);
      }
      ok := true;
    }
  }
}
