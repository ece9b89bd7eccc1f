/**
 The history of an object: what following the predecessor links of its events shows,
 compared with the list of documents that were written since it was last created.
 */
module History {
  import opened EventLog

  // -------------------------------------------------------------- what should be seen

  /** One thing that happens to a shard: a write, or the start of a new block. */
  datatype LogOp = Apply(w: Write, tx: Option<TxId>) | Rotate(newId: nat)

  /** The documents of an object since its last creation, oldest first, after a write to it. */
  function SpecWrite(env: Env, past: seq<Fields>, w: Write): seq<Fields> {
    if past == [] then
      if w.path != "" || w.kind.Remove? || w.doc.Invalid? then [] else [w.doc.fields]
    else
      var last := past[|past| - 1];
      match w.kind
      case Remove => []
      case Add => past + [env.addTo(last, w.path, w.doc)]
      case Put =>
        if w.path != "" then past + [env.insertAt(last, w.path, w.doc)]
        else if w.doc.Doc? then past + [w.doc.fields]
        else past
  }

  function SpecHistory(env: Env, ops: seq<LogOp>, obj: Obj): seq<Fields> {
    if ops == [] then []
    else
      var past, op := SpecHistory(env, ops[..|ops| - 1], obj), ops[|ops| - 1];
      if op.Apply? && op.w.obj == obj then SpecWrite(env, past, op.w) else past
  }

  // ------------------------------------------------------------------ what is stored

  function Do(env: Env, sh: Shard, op: LogOp): Shard {
    match op
    case Apply(w, tx) => ApplyWrite(env, sh, w, tx).0
    case Rotate(newId) => if Fresh(sh, newId) then Organize(env, sh, newId) else sh
  }

  function EmptyShard(): Shard { Shard(map[1 := []], 1, map[]) }

  function Log(env: Env, ops: seq<LogOp>): Shard {
    if ops == [] then EmptyShard() else Do(env, Log(env, ops[..|ops| - 1]), ops[|ops| - 1])
  }

  /** From `p` on, the links show `past`, newest first: right documents, numbers, order and end. */
  predicate Traces(sh: Shard, p: Pos, past: seq<Fields>)
    decreases |past|
  {
    past != [] &&
    match At(sh, p)
    case Some(Version(prev, fields, number, _)) =>
      && fields == past[|past| - 1] && number == |past|
      && (if |past| == 1 then prev.None? else prev.Some? && Before(prev.value, p) && Traces(sh, prev.value, past[..|past| - 1]))
    case _ => false
  }

  predicate Shows(sh: Shard, obj: Obj, past: seq<Fields>) {
    if past == [] then Current(sh, obj).None? else obj in sh.latest && Traces(sh, sh.latest[obj], past)
  }

  ghost predicate Extends(sh: Shard, sh': Shard) {
    forall p | At(sh, p).Some? :: At(sh', p) == At(sh, p)
  }

  lemma {:induction false} TracesFrame(sh: Shard, sh': Shard, p: Pos, past: seq<Fields>)
    requires Traces(sh, p, past) && Extends(sh, sh')
    ensures Traces(sh', p, past)
    decreases |past|
  {
    assert At(sh, p).Some? && At(sh', p) == At(sh, p);
    if |past| > 1 { TracesFrame(sh, sh', At(sh, p).value.prev.value, past[..|past| - 1]); }
  }

  lemma AppendExtends(sh: Shard, obj: Obj, e: Event)
    ensures Extends(sh, Append(sh, obj, e)) && At(Append(sh, obj, e), End(sh)) == Some(e)
  {
  }

  lemma ShowsAfterAppend(sh: Shard, obj: Obj, e: Event, o: Obj, past: seq<Fields>)
    requires Ordered(sh) && Shows(sh, o, past) && o != obj
    ensures Shows(Append(sh, obj, e), o, past)
  {
    AppendExtends(sh, obj, e);
    if past != [] { TracesFrame(sh, Append(sh, obj, e), sh.latest[o], past); }
  }

  lemma WriteShows(env: Env, sh: Shard, w: Write, tx: Option<TxId>, past: seq<Fields>)
    requires Ordered(sh) && Shows(sh, w.obj, past)
    ensures Shows(ApplyWrite(env, sh, w, tx).0, w.obj, SpecWrite(env, past, w))
  {
    var sh' := ApplyWrite(env, sh, w, tx).0;
    var next := SpecWrite(env, past, w);
    if past != [] && |next| > |past| {
      var p := sh.latest[w.obj];
      var e := Version(Some(p), next[|next| - 1], |next|, tx);
      assert sh' == Append(sh, w.obj, e);
      AppendExtends(sh, w.obj, e);
      TracesFrame(sh, sh', p, past);
      EndIsLast(sh, p);
      assert next[..|next| - 1] == past;
    }
  }

  lemma WriteKeepsOthers(env: Env, sh: Shard, w: Write, tx: Option<TxId>, o: Obj, past: seq<Fields>)
    requires Ordered(sh) && Shows(sh, o, past) && o != w.obj
    ensures Shows(ApplyWrite(env, sh, w, tx).0, o, past)
  {
    var sh' := ApplyWrite(env, sh, w, tx).0;
    if sh' != sh {
      var e := At(sh', End(sh)).value;
      assert sh' == Append(sh, w.obj, e);
      ShowsAfterAppend(sh, w.obj, e, o, past);
    }
  }

  lemma RotateShows(env: Env, sh: Shard, newId: nat, o: Obj, past: seq<Fields>)
    requires Ordered(sh) && Shows(sh, o, past) && Fresh(sh, newId)
    ensures Shows(Organize(env, sh, newId), o, past)
  {
    if past != [] { TracesFrame(sh, Organize(env, sh, newId), sh.latest[o], past); }
  }

  lemma DoKeepsOrdered(env: Env, sh: Shard, op: LogOp)
    requires Ordered(sh)
    ensures Ordered(Do(env, sh, op))
  {
    if op.Apply? {
      WriteKeepsOrdered(env, sh, op.w, op.tx);
    } else if Fresh(sh, op.newId) {
      OrganizeKeepsOrdered(env, sh, op.newId);
    }
  }

  lemma {:induction false} LogIsOrdered(env: Env, ops: seq<LogOp>)
    ensures Ordered(Log(env, ops))
  {
    if ops != [] {
      LogIsOrdered(env, ops[..|ops| - 1]);
      DoKeepsOrdered(env, Log(env, ops[..|ops| - 1]), ops[|ops| - 1]);
    }
  }

  /**
   After any sequence of writes and new blocks, the links from an object's latest event show
   exactly the documents written since its last creation, numbered up to their count; an object
   that was never written, or was removed last, shows nothing.
   */
  lemma {:induction false} LogShowsHistory(env: Env, ops: seq<LogOp>, obj: Obj)
    ensures Shows(Log(env, ops), obj, SpecHistory(env, ops, obj))
  {
    if ops != [] {
      var before, op := ops[..|ops| - 1], ops[|ops| - 1];
      var sh, past := Log(env, before), SpecHistory(env, before, obj);
      LogShowsHistory(env, before, obj);
      LogIsOrdered(env, before);
      match op
      case Apply(w, tx) =>
        if w.obj == obj { WriteShows(env, sh, w, tx, past); } else { WriteKeepsOthers(env, sh, w, tx, obj, past); }
      case Rotate(newId) =>
        if Fresh(sh, newId) { RotateShows(env, sh, newId, obj, past); }
    }
  }

  /** A position shows at most one history. */
  lemma {:induction false} TracesIsUnique(sh: Shard, p: Pos, a: seq<Fields>, b: seq<Fields>)
    requires Traces(sh, p, a) && Traces(sh, p, b)
    ensures a == b
    decreases |a|
  {
    assert a == a[..|a| - 1] + [a[|a| - 1]] && b == b[..|b| - 1] + [b[|b| - 1]];
    if |a| > 1 { TracesIsUnique(sh, At(sh, p).value.prev.value, a[..|a| - 1], b[..|b| - 1]); }
  }

  // -------------------------------------------------------------- walking backwards

  /** `ObjectIterator` on a locked shard. */
  class ObjectIterator {
    const sh: Shard
    const start: Option<Event>
    var current: Option<Event>
    var eid: Option<Pos>        // the id handed out with the current event
    ghost const past: seq<Fields>
    ghost var seen: nat         // versions handed out
    ghost var pos: Pos          // where the current event is

    /** The iterator stands where the links of an object with this past lead. */
    ghost predicate Valid()
      reads this
    {
      && seen <= |past| && (start.Some? <==> past != []) && (current.Some? <==> seen > 0)
      && (past != [] ==>
            && eid.Some? && eid.value.block == pos.block && eid.value.index >= pos.index
            && var k := if seen == 0 then |past| else |past| - seen + 1;
               && Traces(sh, pos, past[..k])
               && At(sh, pos) == if seen == 0 then start else current)
      && (seen == 0 ==> eid == if past == [] then None else Some(pos))
    }

    constructor (sh: Shard, obj: Obj, ghost past: seq<Fields>)
      ensures Shows(sh, obj, past) ==> Valid()
      ensures this.sh == sh && this.past == past && seen == 0
      ensures Current(sh, obj).Some? ==> eid == Some(sh.latest[obj])
    {
      this.sh, this.past := sh, past;
      start, current := Current(sh, obj), None;
      eid := if Current(sh, obj).Some? then Some(sh.latest[obj]) else None;
      seen, pos := 0, if obj in sh.latest then sh.latest[obj] else Pos(0, 0);
      assert past[..|past|] == past;
    }

    /**
     `next_handle`: the next older version.  The id that comes with it is the version's own
     exactly when it is the first one or lies in another block than the one before; otherwise it
     is the id handed out before.
     */
    method NextHandle() returns (r: Option<(Pos, Event)>)
      modifies this
      ensures old(Valid()) ==>
                && Valid()
                && (r.Some? <==> old(seen) < |past|)
                && (r.None? ==> seen == old(seen) && pos == old(pos))
                && (r.Some? ==>
                      && seen == old(seen) + 1 && At(sh, pos) == Some(r.value.1) && r.value.1.Version?
                      && r.value.1.fields == past[|past| - seen] && r.value.1.number == |past| - old(seen)
                      && (r.value.0 == pos <==> old(seen) == 0 || pos.block != old(pos.block))
                      && eid == Some(r.value.0) && (r.value.0 != pos ==> eid == old(eid)))
    {
      ghost var k := |past| - seen;
      if current.None? {
        if start.Some? && eid.Some? {
          current, seen := start, seen + 1;
          r := Some((eid.value, start.value));
        } else {
          r := None;
        }
        return;
      }
      var prev := current.value.prev;
      if prev.None? {
        return None;
      }
      var next := At(sh, prev.value);
      if Valid() {
        assert past[..k + 1][..k] == past[..k];
        assert Traces(sh, prev.value, past[..k]);
      }
      if eid.None? || prev.value.block != eid.value.block {
        eid := prev;
      }
      if next.None? || next.value.Tombstone? {
        eid := None;
        return None;
      }
      current, seen, pos := next, seen + 1, prev.value;
      r := Some((eid.value, next.value));
    }
  }

  /** A shard after two puts of one object, both in the first block. */
  function TwoPuts(env: Env, obj: Obj, a: Fields, b: Fields): Shard {
    ApplyWrite(env, ApplyWrite(env, EmptyShard(), Write(Put, obj, "", Doc(a)), None).0, Write(Put, obj, "", Doc(b)), None).0
  }

  lemma TwoPutsShow(env: Env, obj: Obj, a: Fields, b: Fields)
    ensures var sh := TwoPuts(env, obj, a, b);
            && Shows(sh, obj, [a, b]) && obj in sh.latest && sh.latest[obj] == Pos(1, 1)
            && 1 in sh.blocks && sh.blocks[1] == [Version(None, a, 1, None), Version(Some(Pos(1, 0)), b, 2, None)]
  {
    var w, v, empty := Write(Put, obj, "", Doc(a)), Write(Put, obj, "", Doc(b)), EmptyShard();
    var one := ApplyWrite(env, empty, w, None).0;
    assert one == Append(empty, obj, Version(None, a, 1, None));
    assert one.blocks[1] == [Version(None, a, 1, None)];
    assert TwoPuts(env, obj, a, b) == Append(one, obj, Version(Some(Pos(1, 0)), b, 2, None));
    TwoPutsPast(env, obj, a, b);
  }

  lemma TwoPutsPast(env: Env, obj: Obj, a: Fields, b: Fields)
    ensures Shows(TwoPuts(env, obj, a, b), obj, [a, b])
  {
    var w, v, empty := Write(Put, obj, "", Doc(a)), Write(Put, obj, "", Doc(b)), EmptyShard();
    WriteShows(env, empty, w, None, []);
    WriteKeepsOrdered(env, empty, w, None);
    WriteShows(env, ApplyWrite(env, empty, w, None).0, v, None, [a]);
    assert [a] + [b] == [a, b];
  }

  /** Two puts in one block: the older version is handed out under the newer one's id. */
  method WrongHandle(env: Env, obj: Obj, a: Fields, b: Fields) returns (id: Pos, e: Event)
    ensures id == Pos(1, 1) && At(TwoPuts(env, obj, a, b), Pos(1, 0)) == Some(e) && e.Version? && e.fields == a && e.number == 1
  {
    TwoPutsShow(env, obj, a, b);
    var sh := TwoPuts(env, obj, a, b);
    var it := new ObjectIterator(sh, obj, [a, b]);
    assert it.eid == Some(Pos(1, 1));
    var first := it.NextHandle();
    var second := it.NextHandle();
    return second.value.0, second.value.1;
  }

  /** Follow the iterator to its end. */
  method Versions(sh: Shard, obj: Obj, ghost past: seq<Fields>) returns (docs: seq<Fields>)
    requires Shows(sh, obj, past)
    ensures |docs| == |past| && forall i | 0 <= i < |docs| :: docs[i] == past[|past| - 1 - i]
  {
    docs := [];
    var it := new ObjectIterator(sh, obj, past);
    var h := it.NextHandle();
    while h.Some?
      invariant it.Valid() && it.sh == sh && it.past == past && fresh(it)
      invariant if h.Some? then it.seen == |docs| + 1 && h.value.1.Version? && h.value.1.fields == past[|past| - it.seen]
                else |docs| == |past|
      invariant forall i | 0 <= i < |docs| :: docs[i] == past[|past| - 1 - i]
      decreases |past| - |docs|
    {
      docs := docs + [h.value.1.fields];
      h := it.NextHandle();
    }
  }

  /** `Ledger::diff` up to the comparison of the two documents it finds. */
  method Diff(sh: Shard, obj: Obj, version1: nat, version2: nat, ghost past: seq<Fields>) returns (r: Option<(Fields, Fields)>)
    requires Shows(sh, obj, past)
    ensures r.Some? <==> 1 <= version1 <= |past| && 1 <= version2 <= |past|
    ensures r.Some? ==> r.value == (past[version1 - 1], past[version2 - 1])
  {
    var it := new ObjectIterator(sh, obj, past);
    var first, second: Option<Fields> := None, None;
    while first.None? || second.None?
      invariant it.Valid() && it.sh == sh && it.past == past && fresh(it)
      invariant if |past| - it.seen < version1 <= |past| then first == Some(past[version1 - 1]) else first.None?
      invariant if |past| - it.seen < version2 <= |past| then second == Some(past[version2 - 1]) else second.None?
      decreases |past| - it.seen
    {
      var h := it.NextHandle();
      if h.None? {
        return None;
      }
      if h.value.1.number == version1 {
        first := Some(h.value.1.fields);
      }
      if h.value.1.number == version2 {
        second := Some(h.value.1.fields);
      }
    }
    r := Some((first.value, second.value));
  }
}
