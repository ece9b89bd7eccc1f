/**
 Secondary indexes: what they hold while documents come and go, and what a look-up through
 them can miss (nothing).
 */
module SecondaryIndex {
  import opened EventLog
  import opened MultiMap
  import opened PageChain

  /** The shape of the tables and the hash of a one-field document. */
  datatype Hashing = Hashing(shape: Shape, hashOf: (string, string) -> int)

  /** `HashIndex`: one path, and a table from hashes to keys. */
  datatype Index = Index(path: string, table: Table)

  function EmptyIndex(path: string): Index {
    Index(path, seq(NUM_BUCKETS, _ => Bucket(0, [])))
  }

  /** What the index stores for a document under a key, if the document has the path. */
  function EntryOf(h: Hashing, path: string, doc: Fields, key: string): Option<Entry> {
    if path in doc then Some((h.hashOf(path, doc[path]), key)) else None
  }

  function Insert(h: Hashing, ix: Index, doc: Fields, key: string): Index {
    match EntryOf(h, ix.path, doc, key)
    case None => ix
    case Some(e) => ix.(table := TableInsert(h.shape, ix.table, e))
  }

  function Remove(h: Hashing, ix: Index, doc: Fields, key: string): Index {
    match EntryOf(h, ix.path, doc, key)
    case None => ix
    case Some(e) => ix.(table := TableRemove(h.shape, ix.table, e))
  }

  /** `Index::compare`: equal as far as the path goes. */
  predicate Same(path: string, a: Fields, b: Fields) {
    if path in a then path in b && a[path] == b[path] else path !in b
  }

  /** What `put_next_version` does to an index; the last insertion always comes on top. */
  function Update(h: Hashing, ix: Index, cur: Option<Fields>, doc: Fields, key: string): Index {
    var ix' :=
      if cur.None? then Insert(h, ix, doc, key)
      else if Same(ix.path, cur.value, doc) then ix
      else Insert(h, Remove(h, ix, cur.value, key), doc, key);
    Insert(h, ix', doc, key)
  }

  // ------------------------------------------------------------------------ coverage

  type Docs = string -> Option<Fields>

  ghost predicate Holds(h: Hashing, ix: Index, doc: Fields, key: string) {
    var e := EntryOf(h, ix.path, doc, key);
    e.Some? ==> e.value in Contents(ix.table)
  }

  /** Sound chains, and an entry for every live document that has the path. */
  ghost predicate Covers(h: Hashing, ix: Index, docs: Docs) {
    && Homed(h.shape, ix.table) && Intact(ix.table)
    && forall k | docs(k).Some? :: Holds(h, ix, docs(k).value, k)
  }

  lemma InsertHolds(h: Hashing, ix: Index, doc: Fields, key: string)
    requires Homed(h.shape, ix.table) && Intact(ix.table)
    ensures var r := Insert(h, ix, doc, key);
            && r.path == ix.path && Homed(h.shape, r.table) && Intact(r.table) && Holds(h, r, doc, key)
            && Contents(ix.table) <= Contents(r.table)
  {
    var e := EntryOf(h, ix.path, doc, key);
    if e.Some? {
      InsertIsPlus(h.shape, ix.table, e.value);
      InsertKeepsIntact(h.shape, ix.table, e.value);
    }
  }

  /** Removing an entry that is there leaves the chains intact and every other key's entries alone. */
  lemma RemoveSparesOthers(h: Hashing, ix: Index, doc: Fields, key: string)
    requires Homed(h.shape, ix.table) && Intact(ix.table) && Holds(h, ix, doc, key)
    ensures var r := Remove(h, ix, doc, key);
            && r.path == ix.path && Homed(h.shape, r.table) && Intact(r.table)
            && forall e: Entry | e.1 != key && e in Contents(ix.table) :: e in Contents(r.table)
  {
    var e := EntryOf(h, ix.path, doc, key);
    if e.Some? {
      RemoveIsMinus(h.shape, ix.table, e.value);
      RemoveKeepsIntactIff(h.shape, ix.table, e.value);
    }
  }

  lemma UpdateParts(h: Hashing, ix: Index, cur: Option<Fields>, doc: Fields, key: string)
    requires Homed(h.shape, ix.table) && Intact(ix.table)
    requires cur.Some? ==> Holds(h, ix, cur.value, key)
    ensures var r := Update(h, ix, cur, doc, key);
            && r.path == ix.path && Homed(h.shape, r.table) && Intact(r.table) && Holds(h, r, doc, key)
            && forall e: Entry | e.1 != key && e in Contents(ix.table) :: e in Contents(r.table)
  {
    if cur.None? {
      InsertHolds(h, ix, doc, key);
      InsertHolds(h, Insert(h, ix, doc, key), doc, key);
    } else if Same(ix.path, cur.value, doc) {
      InsertHolds(h, ix, doc, key);
    } else {
      var less := Remove(h, ix, cur.value, key);
      RemoveSparesOthers(h, ix, cur.value, key);
      InsertHolds(h, less, doc, key);
      InsertHolds(h, Insert(h, less, doc, key), doc, key);
    }
  }

  /**
   Putting a version of a document keeps the index covering: in particular the removal always
   finds its entry, so no chain is ever left behind.
   */
  lemma UpdateKeepsCover(h: Hashing, ix: Index, docs: Docs, docs': Docs, doc: Fields, key: string)
    requires Covers(h, ix, docs)
    requires docs'(key) == Some(doc) && forall k | k != key :: docs'(k) == docs(k)
    ensures Covers(h, Update(h, ix, docs(key), doc, key), docs')
    ensures Update(h, ix, docs(key), doc, key).path == ix.path
  {
    UpdateParts(h, ix, docs(key), doc, key);
    var r := Update(h, ix, docs(key), doc, key);
    forall k | docs'(k).Some? ensures Holds(h, r, docs'(k).value, k) {
      if k != key { assert Holds(h, ix, docs(k).value, k); }
    }
  }

  ghost function Entries(h: Hashing, path: string, doc: Fields, key: string): multiset<Entry> {
    match EntryOf(h, path, doc, key)
    case None => multiset{}
    case Some(e) => multiset{e}
  }

  lemma InsertContents(h: Hashing, ix: Index, doc: Fields, key: string)
    requires Homed(h.shape, ix.table)
    ensures var r := Insert(h, ix, doc, key);
            r.path == ix.path && Homed(h.shape, r.table) && Contents(r.table) == Contents(ix.table) + Entries(h, ix.path, doc, key)
  {
    if ix.path in doc { InsertIsPlus(h.shape, ix.table, EntryOf(h, ix.path, doc, key).value); }
  }

  lemma RemoveContents(h: Hashing, ix: Index, doc: Fields, key: string)
    requires Homed(h.shape, ix.table)
    ensures var r := Remove(h, ix, doc, key);
            r.path == ix.path && Homed(h.shape, r.table) && Contents(r.table) == Contents(ix.table) - Entries(h, ix.path, doc, key)
  {
    if ix.path in doc { RemoveIsMinus(h.shape, ix.table, EntryOf(h, ix.path, doc, key).value); }
  }

  /**
   The exact bag after a new version: two copies of the new entry, or one where the indexed value
   did not change; of the old entry only one copy goes, although earlier versions left more.
   */
  lemma UpdateContents(h: Hashing, ix: Index, cur: Option<Fields>, doc: Fields, key: string)
    requires Homed(h.shape, ix.table)
    ensures var entry := if ix.path in doc then multiset{(h.hashOf(ix.path, doc[ix.path]), key)} else multiset{};
            var was := if cur.Some? && ix.path in cur.value then multiset{(h.hashOf(ix.path, cur.value[ix.path]), key)} else multiset{};
            var same := cur.Some? && (ix.path in cur.value <==> ix.path in doc) && (ix.path in doc ==> cur.value[ix.path] == doc[ix.path]);
            Contents(Update(h, ix, cur, doc, key).table) ==
            if same then Contents(ix.table) + entry else Contents(ix.table) - was + entry + entry
  {
    if cur.None? {
      InsertContents(h, ix, doc, key);
      InsertContents(h, Insert(h, ix, doc, key), doc, key);
    } else if Same(ix.path, cur.value, doc) {
      InsertContents(h, ix, doc, key);
    } else {
      RemoveContents(h, ix, cur.value, key);
      var less := Remove(h, ix, cur.value, key);
      InsertContents(h, less, doc, key);
      InsertContents(h, Insert(h, less, doc, key), doc, key);
    }
  }

  /** Fewer documents are covered all the more: tombstones leave stale entries, never gaps. */
  lemma FewerDocsCovered(h: Hashing, ix: Index, docs: Docs, docs': Docs)
    requires Covers(h, ix, docs)
    requires forall k | docs'(k).Some? :: docs'(k) == docs(k)
    ensures Covers(h, ix, docs')
  {
    forall k | docs'(k).Some? ensures Holds(h, ix, docs'(k).value, k) {
      assert Holds(h, ix, docs(k).value, k);
    }
  }

  // ------------------------------------------------------------------ the index at work

  /** `HashIndex::insert`; `ok` is false when a page fails its version check. */
  method InsertDoc(h: Hashing, ix: Index, doc: Fields, key: string) returns (r: Index, ok: bool)
    requires Homed(h.shape, ix.table)
    ensures ok ==> r == Insert(h, ix, doc, key)
    ensures Intact(ix.table) ==> ok
  {
    r, ok := ix, true;
    if ix.path in doc {
      var table;
      table, ok := InsertInTable(h.shape, ix.table, (h.hashOf(ix.path, doc[ix.path]), key));
      r := Index(ix.path, table);
    }
  }

  /** `HashIndex::remove`. */
  method RemoveDoc(h: Hashing, ix: Index, doc: Fields, key: string) returns (r: Index, ok: bool)
    requires Homed(h.shape, ix.table)
    ensures ok ==> r == Remove(h, ix, doc, key)
    ensures Intact(ix.table) ==> ok
  {
    r, ok := ix, true;
    if ix.path in doc {
      var table, removal;
      table, removal := RemoveInTable(h.shape, ix.table, (h.hashOf(ix.path, doc[ix.path]), key));
      r, ok := Index(ix.path, table), !removal.Stale?;
    }
  }

  /** An index follows a new version of a document; on a covering index nothing can fail. */
  method UpdateIndex(h: Hashing, ix: Index, cur: Option<Fields>, doc: Fields, key: string) returns (r: Index)
    requires Homed(h.shape, ix.table) && Intact(ix.table)
    requires cur.Some? ==> Holds(h, ix, cur.value, key)
    ensures r == Update(h, ix, cur, doc, key)
  {
    r := ix;
    var ok;
    if cur.None? {
      InsertHolds(h, ix, doc, key);
      r, ok := InsertDoc(h, r, doc, key);
    } else if !Same(ix.path, cur.value, doc) {
      RemoveSparesOthers(h, ix, cur.value, key);
      r, ok := RemoveDoc(h, r, cur.value, key);
      InsertHolds(h, r, doc, key);
      r, ok := InsertDoc(h, r, doc, key);
    }
    r, ok := InsertDoc(h, r, doc, key);
  }

  // --------------------------------------------------------------------------- queries

  /** A condition on the value at a path; `Other` is any operator an index does not know. */
  datatype Cond = Eq(value: string) | In(values: seq<string>) | Other(test: Option<string> -> bool)
  type Query = map<string, Cond>

  function ValueAt(doc: Fields, path: string): Option<string> {
    if path in doc then Some(doc[path]) else None
  }

  predicate Satisfies(c: Cond, v: Option<string>) {
    match c
    case Eq(value) => v == Some(value)
    case In(values) => v.Some? && v.value in values
    case Other(test) => test(v)
  }

  predicate Matches(q: Query, doc: Fields) {
    forall path | path in q :: Satisfies(q[path], ValueAt(doc, path))
  }

  /** A document fulfils a query if, at every path, it has the value asked for, one of the values listed, or what the operator wants. */
  ghost predicate Fulfils(q: Query, doc: Fields) {
    forall path | path in q ::
      && (forall v :: q[path] == Eq(v) ==> path in doc && doc[path] == v)
      && (forall vs :: q[path] == In(vs) ==> path in doc && exists i :: 0 <= i < |vs| && vs[i] == doc[path])
      && (forall test :: q[path] == Other(test) ==> test(if path in doc then Some(doc[path]) else None))
  }

  lemma MatchesIff(q: Query, doc: Fields)
    ensures Matches(q, doc) <==> Fulfils(q, doc)
  {
    forall path | path in q ensures Satisfies(q[path], ValueAt(doc, path)) <==>
      (&& (forall v :: q[path] == Eq(v) ==> path in doc && doc[path] == v)
       && (forall vs :: q[path] == In(vs) ==> path in doc && exists i :: 0 <= i < |vs| && vs[i] == doc[path])
       && (forall test :: q[path] == Other(test) ==> test(if path in doc then Some(doc[path]) else None))) {}
  }

  /** `HashIndex::matches_query`. */
  predicate Usable(ix: Index, q: Query) {
    ix.path in q && !q[ix.path].Other?
  }

  /** Is the key listed under a hash the condition asks for? */
  ghost predicate Listed(h: Hashing, ix: Index, c: Cond, key: string)
    requires !c.Other?
  {
    match c
    case Eq(value) => (h.hashOf(ix.path, value), key) in Contents(ix.table)
    case In(values) => exists i :: 0 <= i < |values| && (h.hashOf(ix.path, values[i]), key) in Contents(ix.table)
  }

  /** No live document that matches is missing from the candidates of a usable index. */
  lemma MatchIsListed(h: Hashing, ix: Index, docs: Docs, q: Query, key: string)
    requires Covers(h, ix, docs) && Usable(ix, q) && docs(key).Some? && Matches(q, docs(key).value)
    ensures Listed(h, ix, q[ix.path], key)
  {
    var doc := docs(key).value;
    assert Holds(h, ix, doc, key);
    assert Satisfies(q[ix.path], ValueAt(doc, ix.path));
    if q[ix.path].In? {
      var i :| 0 <= i < |q[ix.path].values| && q[ix.path].values[i] == doc[ix.path];
      assert (h.hashOf(ix.path, q[ix.path].values[i]), key) in Contents(ix.table);
    }
  }

  /** The union over the listed values of an `$in`. */
  method UnionOfAll(h: Hashing, ix: Index, values: seq<string>, out: set<string>) returns (r: set<string>, ok: bool)
    requires Homed(h.shape, ix.table)
    ensures ok ==> forall k :: k in r <==> k in out || Listed(h, ix, In(values), k)
    ensures Intact(ix.table) ==> ok
  {
    r, ok := out, true;
    for i := 0 to |values|
      invariant ok && forall k :: k in r <==> k in out || Listed(h, ix, In(values[..i]), k)
    {
      ghost var was := r;
      r, ok := UnionWith(h.shape, ix.table, h.hashOf(ix.path, values[i]), r);
      if !ok {
        return;
      }
      forall k ensures k in r <==> k in out || Listed(h, ix, In(values[..i + 1]), k) {
        ListedSnoc(h, ix, values, i, k);
        assert k in was <==> k in out || Listed(h, ix, In(values[..i]), k);
      }
    }
    assert values[..|values|] == values;
  }

  lemma ListedSnoc(h: Hashing, ix: Index, values: seq<string>, i: nat, k: string)
    requires i < |values|
    ensures Listed(h, ix, In(values[..i + 1]), k) <==>
            Listed(h, ix, In(values[..i]), k) || (h.hashOf(ix.path, values[i]), k) in Contents(ix.table)
  {
    var a, b := values[..i], values[..i + 1];
    if Listed(h, ix, In(a), k) {
      var j :| 0 <= j < |a| && (h.hashOf(ix.path, a[j]), k) in Contents(ix.table);
      assert b[j] == a[j];
    }
    if (h.hashOf(ix.path, values[i]), k) in Contents(ix.table) {
      assert b[i] == values[i];
    }
    if Listed(h, ix, In(b), k) {
      var j :| 0 <= j < |b| && (h.hashOf(ix.path, b[j]), k) in Contents(ix.table);
      if j < i { assert a[j] == b[j]; }
    }
  }

  datatype SetOperation = Union | Intersect

  /** `HashIndex::find`. */
  method Find(h: Hashing, ix: Index, c: Cond, out: set<string>, op: SetOperation) returns (r: set<string>, ok: bool)
    requires !c.Other? && Homed(h.shape, ix.table)
    ensures ok && op.Union? ==> forall k :: k in r <==> k in out || Listed(h, ix, c, k)
    ensures ok && op.Intersect? ==> forall k :: k in r <==> k in out && Listed(h, ix, c, k)
    ensures Intact(ix.table) ==> ok
  {
    match c
    case Eq(value) =>
      if op.Union? {
        r, ok := UnionWith(h.shape, ix.table, h.hashOf(ix.path, value), out);
      } else {
        r, ok := IntersectWith(h.shape, ix.table, h.hashOf(ix.path, value), out);
      }
    case In(values) =>
      if op.Union? {
        r, ok := UnionOfAll(h, ix, values, out);
      } else {
        var all;
        all, ok := UnionOfAll(h, ix, values, {});
        r := out * all;
      }
  }
}
