/**
 The primary index of a collection as a paged map: clearing the collection walks the index, appends
 a tombstone for every live object it meets and overwrites its entry.  How far that gets, and when
 the index can be read afterwards.
 */
module PrimaryIndex {
  import opened EventLog
  import opened PageChain
  import HashChain
  import opened HashMap
  import opened HashMapIterator
  import opened HashMapClear
  import L = Ledger

  /** The map leads every key of the collection to the latest event of its object. */
  ghost predicate Represents(m: HashMap, env: Env, shards: Shards, c: string)
    reads m
  {
    m.Shaped() && forall k :: m.Binding(k) == L.LatestId(env, shards, Obj(c, k))
  }

  /** The same, of the map's strands. */
  ghost predicate Leads(hash: Key -> nat, strands: seq<Strand>, env: Env, shards: Shards, c: string) {
    |strands| == NUM_BUCKETS && forall k {:trigger Bound(hash, strands, k)} :: Bound(hash, strands, k) == L.LatestId(env, shards, Obj(c, k))
  }

  lemma RepresentsIsLeads(m: HashMap, env: Env, shards: Shards, c: string)
    requires m.Shaped()
    ensures Represents(m, env, shards, c) <==> Leads(m.hash, Strands(m), env, shards, c)
  {
    forall k ensures Bound(m.hash, Strands(m), k) == m.Binding(k) { BoundIsBinding(m, k); }
  }

  /** The entries of live objects, which `clear` overwrites. */
  function LiveEntries(env: Env, shards: Shards, c: string): Replacer {
    (e: Pair) => if L.Value(env, shards, Obj(c, e.0)).Some? then Some(e.1) else None
  }

  // ------------------------------------------------------------- the ledger, as a value

  /** The shards after `clear` has met the entries, in this order. */
  ghost function ClearRun(env: Env, shards: Shards, c: string, es: seq<Pair>): Shards {
    if es == [] then shards
    else L.Tombstoned(env, ClearRun(env, shards, c, es[..|es| - 1]), Obj(c, es[|es| - 1].0))
  }

  lemma ClearRunSnoc(env: Env, shards: Shards, c: string, es: seq<Pair>, e: Pair)
    ensures ClearRun(env, shards, c, es + [e]) == L.Tombstoned(env, ClearRun(env, shards, c, es), Obj(c, e.0))
  {
    assert (es + [e])[..|es|] == es;
  }

  /** A tombstone moves the index entry of its own object only. */
  lemma TombstonedLatest(env: Env, shards: Shards, obj: Obj, o: Obj)
    ensures o != obj || L.Value(env, shards, obj).None? ==>
              L.LatestId(env, L.Tombstoned(env, shards, obj), o) == L.LatestId(env, shards, o)
    ensures L.Value(env, shards, obj).Some? ==> L.LatestId(env, L.Tombstoned(env, shards, obj), obj).Some?
  {
  }

  lemma {:induction false} ClearRunLatest(env: Env, shards: Shards, c: string, a: seq<Pair>, b: seq<Pair>, k: Key)
    requires !HashChain.HasKey(b, k)
    ensures L.LatestId(env, ClearRun(env, shards, c, a + b), Obj(c, k)) == L.LatestId(env, ClearRun(env, shards, c, a), Obj(c, k))
    decreases |b|
  {
    if b == [] {
      assert a + b == a;
    } else {
      var front, e := b[..|b| - 1], b[|b| - 1];
      assert a + b == (a + front) + [e];
      ClearRunSnoc(env, shards, c, a + front, e);
      TombstonedLatest(env, ClearRun(env, shards, c, a + front), Obj(c, e.0), Obj(c, k));
      ClearRunLatest(env, shards, c, a, front, k);
    }
  }

  /** What the walk will store in the entries it meets: where the index leads once all are met. */
  ghost function Tombstones(env: Env, before: Shards, c: string, all: seq<Pair>): Replacer {
    var after := ClearRun(env, before, c, all);
    (e: Pair) => if L.Value(env, before, Obj(c, e.0)).Some? then L.LatestId(env, after, Obj(c, e.0)) else None
  }

  ghost function KeySet(es: seq<Pair>): set<Key> {
    set i | 0 <= i < |es| :: es[i].0
  }

  lemma KeySetIs(es: seq<Pair>, k: Key)
    ensures k in KeySet(es) <==> HashChain.HasKey(es, k)
  {
  }

  lemma KeySetSnoc(es: seq<Pair>, e: Pair)
    ensures KeySet(es + [e]) == KeySet(es) + {e.0}
  {
    var more := es + [e];
    forall k ensures k in KeySet(more) <==> k in KeySet(es) + {e.0} {
      if k in KeySet(es) {
        var i :| 0 <= i < |es| && es[i].0 == k;
        assert more[i].0 == k;
      }
      if k == e.0 { assert more[|es|].0 == k; }
    }
  }

  /** No key comes twice. */
  ghost predicate Unrepeated(es: seq<Pair>) {
    forall i, j {:trigger Apart(es, i, j)} | 0 <= i < j < |es| :: Apart(es, i, j)
  }

  ghost predicate Apart(es: seq<Pair>, i: nat, j: nat)
    requires i < |es| && j < |es|
  {
    es[i].0 != es[j].0
  }

  lemma AllUnrepeated(m: HashMap)
    requires m.Shaped()
    ensures Unrepeated(FlatsUpTo(Strands(m), NUM_BUCKETS))
  {
    AllAreDistinct(m);
  }

  /** All the entries, in the order of the walk. */
  ghost predicate AreAll(olds: seq<Strand>, all: seq<Pair>) {
    all == FlatsUpTo(olds, |olds|)
  }

  lemma NextFits(m: HashMap, it: Iterator, next: Replacer, olds: seq<Strand>, met: seq<Pair>, all: seq<Pair>)
    requires WalkingAt(m, it, next, olds, met) && !it.AtEnd() && AreAll(olds, all)
    ensures met + [it.Current()] <= all
  {
    CurrentIsNext(m, it, next, olds, met);
  }

  /** The entry behind those met has none of their keys, nor has what follows it its own. */
  lemma NextIsNew(all: seq<Pair>, met: seq<Pair>, e: Pair)
    requires Unrepeated(all) && met + [e] <= all
    ensures !HashChain.HasKey(met, e.0) && !HashChain.HasKey(all[|met| + 1..], e.0)
    ensures all == (met + [e]) + all[|met| + 1..]
  {
    assert all[|met|] == (met + [e])[|met|] == e;
    forall i | 0 <= i < |met| ensures met[i].0 != e.0 {
      assert all[i] == (met + [e])[i] == met[i];
      assert Apart(all, i, |met|);
    }
    forall i | |met| < i < |all| ensures all[i].0 != e.0 { assert Apart(all, |met|, i); }
  }

  /** What the ledger returns for the entry is what the walk was to store. */
  lemma StoresTheTombstone(ledger: L.Ledger, before: L.State, c: string, all: seq<Pair>, met: seq<Pair>, e: Pair)
    requires ledger.Valid() && L.Inv(ledger.env, ledger.h, before) && L.Cleared(before, ledger.St(), c, KeySet(met))
    requires ledger.shards == ClearRun(ledger.env, before.shards, c, met) && Unrepeated(all) && met + [e] <= all
    ensures var env := ledger.env;
            Tombstones(env, before.shards, c, all)(e) ==
              if L.Value(env, ledger.shards, Obj(c, e.0)).None? then None
              else L.LatestId(env, L.Tombstoned(env, ledger.shards, Obj(c, e.0)), Obj(c, e.0))
  {
    var env := ledger.env;
    NextIsNew(all, met, e);
    KeySetIs(met, e.0);
    L.ClearedValues(env, ledger.h, before, ledger.St(), c, KeySet(met), Obj(c, e.0));
    ClearRunSnoc(env, before.shards, c, met, e);
    ClearRunLatest(env, before.shards, c, met + [e], all[|met| + 1..], e.0);
  }

  // -------------------------------------------------------------------------- the walk

  /** The ledger when the walk has met the entries. */
  ghost predicate LedgerAt(ledger: L.Ledger, before: L.State, c: string, met: seq<Pair>)
    reads ledger
  {
    && ledger.Valid() && L.Inv(ledger.env, ledger.h, before) && L.Cleared(before, ledger.St(), c, KeySet(met))
    && ledger.shards == ClearRun(ledger.env, before.shards, c, met)
  }

  /** In the index, one object of the collection has moved, if it has. */
  ghost predicate MovedTo(env: Env, before: Shards, now: Shards, c: string, key: Key, id: Option<EventId>) {
    forall k {:trigger L.LatestId(env, now, Obj(c, k))} ::
      L.LatestId(env, now, Obj(c, k)) == if id.Some? && k == key then id else L.LatestId(env, before, Obj(c, k))
  }

  lemma LeadsOn(hash: Key -> nat, olds: seq<Strand>, nows: seq<Strand>, env: Env, before: Shards, now: Shards, c: string, key: Key, id: Option<EventId>)
    requires Leads(hash, olds, env, before, c) && Rebound(hash, olds, nows, key, id) && MovedTo(env, before, now, c, key, id)
    ensures Leads(hash, nows, env, now, c)
  {
    forall k ensures Bound(hash, nows, k) == L.LatestId(env, now, Obj(c, k)) {
      assert Bound(hash, olds, k) == L.LatestId(env, before, Obj(c, k));
    }
  }

  lemma TombstoneMoves(env: Env, shards: Shards, c: string, key: Key, id: Option<EventId>)
    requires id == if L.Value(env, shards, Obj(c, key)).None? then None else L.LatestId(env, L.Tombstoned(env, shards, Obj(c, key)), Obj(c, key))
    ensures MovedTo(env, shards, L.Tombstoned(env, shards, Obj(c, key)), c, key, id)
  {
    var now := L.Tombstoned(env, shards, Obj(c, key));
    forall k ensures L.LatestId(env, now, Obj(c, k)) == if id.Some? && k == key then id else L.LatestId(env, shards, Obj(c, k)) {
      TombstonedLatest(env, shards, Obj(c, key), Obj(c, k));
    }
  }

  /** The ledger's part of a turn of the loop. */
  method ClearInLedger(ledger: L.Ledger, c: string, e: Pair, ghost before: L.State, ghost all: seq<Pair>, ghost met: seq<Pair>) returns (id: Option<EventId>)
    requires LedgerAt(ledger, before, c, met) && Unrepeated(all) && met + [e] <= all
    modifies ledger
    ensures LedgerAt(ledger, before, c, met + [e]) && id == Tombstones(ledger.env, before.shards, c, all)(e)
    ensures MovedTo(ledger.env, old(ledger.shards), ledger.shards, c, e.0, id)
  {
    StoresTheTombstone(ledger, before, c, all, met, e);
    ClearRunSnoc(ledger.env, before.shards, c, met, e);
    KeySetSnoc(met, e);
    ghost var was := ledger.shards;
    id := ledger.ClearKey(c, e.0, before, KeySet(met));
    TombstoneMoves(ledger.env, was, c, e.0, id);
  }

  /** The walk is where the iterator is, and has met these entries. */
  ghost predicate OnItsWay(m: HashMap, it: Iterator, next: Replacer, olds: seq<Strand>, met: seq<Pair>)
    reads m, it
  {
    exists es :: es == met && WalkingAt(m, it, next, olds, es)
  }

  /** What the walk is to store is settled, and no key comes twice on its way. */
  ghost predicate Settled(env: Env, before: Shards, c: string, next: Replacer, olds: seq<Strand>, all: seq<Pair>) {
    AreAll(olds, all) && Unrepeated(all) && next == Tombstones(env, before, c, all)
  }

  lemma NextOnItsWay(m: HashMap, it: Iterator, next: Replacer, olds: seq<Strand>, met: seq<Pair>, all: seq<Pair>)
    requires OnItsWay(m, it, next, olds, met) && it.table == m && it.Valid() && !it.AtEnd() && AreAll(olds, all)
    ensures met + [it.Current()] <= all
  {
    NextFits(m, it, next, olds, met, all);
  }

  /** The index's part of a turn: what the ledger has moved to, the index leads to. */
  method ClearInIndex(m: HashMap, it: Iterator, c: string, id: Option<EventId>, ghost env: Env, ghost was: Shards, ghost now: Shards,
                      ghost next: Replacer, ghost olds: seq<Strand>, ghost met: seq<Pair>) returns (ok: bool)
    requires OnItsWay(m, it, next, olds, met) && it.table == m && it.Valid() && !it.AtEnd() && id == next(it.Current())
    requires Leads(m.hash, Strands(m), env, was, c) && MovedTo(env, was, now, c, it.Current().0, id)
    modifies m, it
    ensures m.Shaped() && Leads(m.hash, Strands(m), env, now, c)
    ensures if ok then OnItsWay(m, it, next, olds, met + [old(it.Current())]) && it.Valid() else Stuck(olds, met + [old(it.Current())])
  {
    ghost var strands, key := Strands(m), it.Current().0;
    ok := ReplaceAndStep(m, it, id, next, olds, met);
    LeadsOn(m.hash, strands, Strands(m), env, was, now, c, key, id);
  }

  /** One turn of the first loop of `clear`: the entry the iterator is on, and the step to the next one. */
  method ClearCurrent(ledger: L.Ledger, m: HashMap, it: Iterator, c: string,
                      ghost before: L.State, ghost next: Replacer, ghost olds: seq<Strand>, ghost met: seq<Pair>, ghost all: seq<Pair>)
    returns (ok: bool)
    requires OnItsWay(m, it, next, olds, met) && it.table == m && it.Valid() && !it.AtEnd() && Leads(m.hash, Strands(m), ledger.env, ledger.shards, c)
    requires LedgerAt(ledger, before, c, met) && Settled(ledger.env, before.shards, c, next, olds, all)
    modifies ledger, m, it
    ensures |met| < |all| && m.Shaped() && Leads(m.hash, Strands(m), ledger.env, ledger.shards, c)
    ensures LedgerAt(ledger, before, c, met + [old(it.Current())])
    ensures if ok then OnItsWay(m, it, next, olds, met + [old(it.Current())]) && it.Valid() else Stuck(olds, met + [old(it.Current())])
  {
    NextOnItsWay(m, it, next, olds, met, all);
    var e := it.Current();
    ghost var was := ledger.shards;
    var id := ClearInLedger(ledger, c, e, before, all, met);
    ok := ClearInIndex(m, it, c, id, ledger.env, was, ledger.shards, next, olds, met);
  }

  /** The first loop of `clear`, from the entry the iterator is on. */
  method ClearFrom(ledger: L.Ledger, m: HashMap, it: Iterator, c: string,
                   ghost before: L.State, ghost next: Replacer, ghost olds: seq<Strand>, ghost all: seq<Pair>) returns (ok: bool, ghost met: seq<Pair>)
    requires OnItsWay(m, it, next, olds, []) && it.table == m && it.Valid() && Leads(m.hash, Strands(m), ledger.env, ledger.shards, c)
    requires LedgerAt(ledger, before, c, []) && Settled(ledger.env, before.shards, c, next, olds, all)
    modifies ledger, m, it
    ensures LedgerAt(ledger, before, c, met) && m.Shaped() && Leads(m.hash, Strands(m), ledger.env, ledger.shards, c)
    ensures if ok then it.AtEnd() && OnItsWay(m, it, next, olds, met) else Stuck(olds, met)
  {
    ok, met := true, [];
    while ok && !it.AtEnd()
      invariant LedgerAt(ledger, before, c, met) && m.Shaped() && Leads(m.hash, Strands(m), ledger.env, ledger.shards, c)
      invariant if ok then OnItsWay(m, it, next, olds, met) && it.Valid() else Stuck(olds, met)
      decreases ok, |all| - |met|
    {
      ghost var e := it.Current();
      ok := ClearCurrent(ledger, m, it, c, before, next, olds, met, all);
      met := met + [e];
    }
  }

  /** The first loop of `clear`: how far it gets, and what it leaves. */
  method ClearEntries(ledger: L.Ledger, m: HashMap, c: string, ghost next: Replacer, ghost olds: seq<Strand>) returns (ok: bool, ghost met: seq<Pair>)
    requires ledger.Valid() && m.Shaped() && olds == Strands(m) && Leads(m.hash, olds, ledger.env, ledger.shards, c)
    requires next == Tombstones(ledger.env, ledger.shards, c, FlatsUpTo(olds, |olds|))
    modifies ledger, m
    ensures LedgerAt(ledger, old(ledger.St()), c, met) && Met(olds, met)
    ensures m.Shaped() && Leads(m.hash, Strands(m), ledger.env, ledger.shards, c)
    ensures !ok ==> Stuck(olds, met)
    ensures ok ==> forall b | 0 <= b < NUM_BUCKETS :: AllHold(olds[b]) && Strands(m)[b] == ReplacedStrand(next, olds[b])
  {
    AllUnrepeated(m);
    met := [];
    var it;
    it, ok := Begin(m, next, olds);
    if ok {
      ok, met := ClearFrom(ledger, m, it, c, ledger.St(), next, olds, FlatsUpTo(olds, |olds|));
      if ok { WalkedAll(m, it, next, olds, met); }
    }
  }

  /** An entry is overwritten exactly if its object was live. */
  lemma {:induction false} HitsAreLive(env: Env, before: Shards, c: string, all: seq<Pair>, e: Pair)
    ensures L.LatestId(env, before, Obj(c, e.0)).Some? ==> L.LatestId(env, ClearRun(env, before, c, all), Obj(c, e.0)).Some?
    ensures Tombstones(env, before, c, all)(e).Some? <==> LiveEntries(env, before, c)(e).Some?
    decreases |all|
  {
    if all != [] {
      var front, last := all[..|all| - 1], all[|all| - 1];
      HitsAreLive(env, before, c, front, e);
      TombstonedLatest(env, ClearRun(env, before, c, front), Obj(c, last.0), Obj(c, e.0));
    }
  }

  lemma SameHitsAsLive(env: Env, before: Shards, c: string, olds: seq<Strand>)
    ensures AllWholeRanges(Tombstones(env, before, c, FlatsUpTo(olds, |olds|)), olds) <==> AllWholeRanges(LiveEntries(env, before, c), olds)
  {
    var next, live := Tombstones(env, before, c, FlatsUpTo(olds, |olds|)), LiveEntries(env, before, c);
    forall e ensures next(e).Some? <==> live(e).Some? { HitsAreLive(env, before, c, FlatsUpTo(olds, |olds|), e); }
    SameRanges(next, live, olds);
  }

  /** The keys met are the ones whose past is gone. */
  lemma PastOfMet(before: L.State, now: L.State, c: string, olds: seq<Strand>, met: seq<Pair>, o: Obj)
    requires L.Cleared(before, now, c, KeySet(met)) && Met(olds, met)
    ensures now.past(o) == if o.collection == c && GetsTo(olds, o.key) then [] else before.past(o)
  {
    KeySetIs(met, o.key);
  }

  /** A map in order leads the walk to every object that has a past. */
  lemma LiveIsReached(ledger: L.Ledger, m: HashMap, c: string, k: Key)
    requires ledger.Valid() && Represents(m, ledger.env, ledger.shards, c) && ledger.past(Obj(c, k)) != []
    requires forall b | 0 <= b < NUM_BUCKETS :: AllHold(Strands(m)[b])
    ensures GetsTo(Strands(m), k)
  {
    L.LedgerShowsHistory(ledger.env, ledger.h, ledger.St(), Obj(c, k));
    BoundIsKept(m, k);
    var s := Strands(m)[m.ToBucket(k)];
    var i :| 0 <= i < |s.cells| && KeyAt(s, i, k);
    AllAreReached(Strands(m), m.ToBucket(k), i, k);
  }

  /** The second loop of `clear`: new blocks, and nothing the index or the past shows changes. */
  method NewBlocks(ledger: L.Ledger, m: HashMap, c: string, newIds: seq<nat>)
    requires ledger.Valid() && Represents(m, ledger.env, ledger.shards, c)
    requires |newIds| == NUM_SHARDS && forall s: ShardId :: Fresh(ledger.shards[s], newIds[s])
    modifies ledger
    ensures ledger.Valid() && Represents(m, ledger.env, ledger.shards, c) && ledger.past == old(ledger.past)
  {
    ghost var between := ledger.shards;
    ledger.OrganizeAll(newIds);
    forall k ensures m.Binding(k) == L.LatestId(ledger.env, ledger.shards, Obj(c, k)) {
      assert ledger.shards[ledger.env.shardOf(Obj(c, k))].latest == between[ledger.env.shardOf(Obj(c, k))].latest;
    }
  }

  /** The past after the walk: gone for the keys it gets to. */
  ghost predicate PastCleared(before: L.Past, now: L.Past, c: string, olds: seq<Strand>) {
    forall o {:trigger now(o)} :: now(o) == if o.collection == c && GetsTo(olds, o.key) then [] else before(o)
  }

  lemma PastsOfMet(before: L.State, now: L.State, c: string, olds: seq<Strand>, met: seq<Pair>)
    requires L.Cleared(before, now, c, KeySet(met)) && Met(olds, met)
    ensures PastCleared(before.past, now.past, c, olds)
  {
    forall o ensures now.past(o) == if o.collection == c && GetsTo(olds, o.key) then [] else before.past(o) {
      PastOfMet(before, now, c, olds, met, o);
    }
  }

  /** The walk gets to every object of the collection that has a past. */
  ghost predicate GetsToAll(past: L.Past, c: string, olds: seq<Strand>) {
    forall k {:trigger GetsTo(olds, k)} :: past(Obj(c, k)) == [] || GetsTo(olds, k)
  }

  lemma NoneLeft(before: L.Past, now: L.Past, c: string, olds: seq<Strand>)
    requires PastCleared(before, now, c, olds) && GetsToAll(before, c, olds)
    ensures forall k {:trigger now(Obj(c, k))} :: now(Obj(c, k)) == []
  {
    forall k ensures now(Obj(c, k)) == [] { assert GetsTo(olds, k) || before(Obj(c, k)) == []; }
  }

  lemma AllLiveReached(ledger: L.Ledger, m: HashMap, c: string)
    requires ledger.Valid() && Represents(m, ledger.env, ledger.shards, c) && m.Valid()
    ensures GetsToAll(ledger.past, c, Strands(m))
  {
    ValidIffAllHold(m);
    forall k ensures ledger.past(Obj(c, k)) == [] || GetsTo(Strands(m), k) {
      if ledger.past(Obj(c, k)) != [] { LiveIsReached(ledger, m, c, k); }
    }
  }

  lemma {:induction false} StillInOrderIff(m: HashMap, env: Env, before: Shards, c: string, olds: seq<Strand>)
    requires m.Shaped() && |olds| == NUM_BUCKETS
    requires forall b {:trigger olds[b]} | 0 <= b < NUM_BUCKETS :: EndsInZero(olds[b].version, olds[b].cells)
    requires var next := Tombstones(env, before, c, FlatsUpTo(olds, |olds|));
             forall b | 0 <= b < NUM_BUCKETS :: AllHold(olds[b]) && Strands(m)[b] == ReplacedStrand(next, olds[b])
    ensures m.Valid() <==> AllWholeRanges(LiveEntries(env, before, c), olds)
  {
    ReplacedValidIff(m, Tombstones(env, before, c, FlatsUpTo(olds, |olds|)), olds);
    SameHitsAsLive(env, before, c, olds);
  }

  /** The first loop of `clear`, whole: what it does to the past and to the index. */
  method ClearLoop(ledger: L.Ledger, m: HashMap, c: string, ghost olds: seq<Strand>) returns (ok: bool)
    requires ledger.Valid() && Represents(m, ledger.env, ledger.shards, c) && olds == Strands(m)
    modifies ledger, m
    ensures ledger.Valid() && Represents(m, ledger.env, ledger.shards, c)
    ensures PastCleared(old(ledger.past), ledger.past, c, olds)
    ensures forall s: ShardId :: ledger.shards[s].blocks.Keys == old(ledger.shards)[s].blocks.Keys
    ensures ok <==> old(m.Valid())
    ensures ok ==> forall k {:trigger ledger.past(Obj(c, k))} :: ledger.past(Obj(c, k)) == []
    ensures ok ==> (m.Valid() <==> AllWholeRanges(LiveEntries(ledger.env, old(ledger.shards), c), olds))
  {
    ghost var before, valid := ledger.St(), m.Valid();
    if valid { AllLiveReached(ledger, m, c); }
    RepresentsIsLeads(m, ledger.env, ledger.shards, c);
    ValidIffAllHold(m);
    StrandsEnd(m);
    ghost var met;
    ok, met := ClearEntries(ledger, m, c, Tombstones(ledger.env, ledger.shards, c, FlatsUpTo(olds, |olds|)), olds);
    PastsOfMet(before, ledger.St(), c, olds, met);
    RepresentsIsLeads(m, ledger.env, ledger.shards, c);
    if ok {
      NoneLeft(before.past, ledger.past, c, olds);
      StillInOrderIff(m, ledger.env, before.shards, c, olds);
    }
  }

  /**
   `clear` with its index, entry by entry.  The walk meets the keys it gets to over links that are
   in order: their objects lose their past, all others keep theirs, and the index leads to the
   latest events throughout.  It goes through if and only if the index was in order; then no object
   of the collection is left, and the index can be read afterwards if and only if, from every page
   but a bucket's first on, the live objects it led to were a multiple of 65535.
   */
  method ClearWithIndex(ledger: L.Ledger, m: HashMap, c: string, newIds: seq<nat>) returns (ok: bool)
    requires ledger.Valid() && c in ledger.collections && Represents(m, ledger.env, ledger.shards, c)
    requires |newIds| == NUM_SHARDS && forall s: ShardId :: Fresh(ledger.shards[s], newIds[s])
    modifies ledger, m
    ensures ledger.Valid() && Represents(m, ledger.env, ledger.shards, c)
    ensures PastCleared(old(ledger.past), ledger.past, c, old(Strands(m)))
    ensures ok <==> old(m.Valid())
    ensures ok ==> forall k {:trigger ledger.past(Obj(c, k))} :: ledger.past(Obj(c, k)) == []
    ensures ok ==> (m.Valid() <==> AllWholeRanges(LiveEntries(ledger.env, old(ledger.shards), c), old(Strands(m))))
  {
    ghost var olds := Strands(m);
    ok := ClearLoop(ledger, m, c, olds);
    if ok {
      NewBlocks(ledger, m, c, newIds);
    }
  }
}
