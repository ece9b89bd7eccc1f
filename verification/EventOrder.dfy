/**
 Ordering of events, of ranges of events and of whole transactions by their bounds.
 */
module EventOrder {
  import opened EventLog

  datatype OrderResult = Unknown | Equal | OlderThan | NewerThan | Concurrent

  /** An interval of one shard, both ends included. */
  datatype Range = Range(startBlock: nat, endBlock: nat, startIndex: nat, endIndex: nat)

  type Bounds = map<ShardId, Range>

  function OrderIds(first: EventId, second: EventId): OrderResult {
    if first.shard != second.shard then Unknown
    else if first.pos.block < second.pos.block then OlderThan
    else if first.pos.block == second.pos.block && first.pos.index < second.pos.index then OlderThan
    else if first == second then Equal
    else NewerThan
  }

  predicate BeforeRange(p: Pos, r: Range) {
    p.block < r.startBlock || (p.block == r.startBlock && p.index < r.startIndex)
  }

  predicate AfterRange(p: Pos, r: Range) {
    p.block > r.endBlock || (p.block == r.endBlock && p.index > r.endIndex)
  }

  function OrderRanges(first: Range, second: Range): OrderResult {
    if first.endBlock < second.startBlock
       || (first.endBlock == second.startBlock && first.endIndex < second.startIndex) then OlderThan
    else if first.startBlock > second.endBlock
       || (first.endBlock == second.startBlock && first.startIndex > second.endIndex) then NewerThan
    else Concurrent
  }

  /** The first shard from `s` on that both bounds mention decides. */
  function OrderFrom(first: Bounds, second: Bounds, s: nat): OrderResult
    decreases NUM_SHARDS - s
  {
    if s >= NUM_SHARDS then Unknown
    else if s in first && s in second then OrderRanges(first[s], second[s])
    else OrderFrom(first, second, s + 1)
  }

  function OrderBounds(first: Bounds, second: Bounds): OrderResult {
    OrderFrom(first, second, 0)
  }

  // ------------------------------------------------------------------ properties

  function Start(r: Range): Pos { Pos(r.startBlock, r.startIndex) }
  function Finish(r: Range): Pos { Pos(r.endBlock, r.endIndex) }

  predicate AtMost(p: Pos, q: Pos) { p == q || Before(p, q) }

  predicate WellFormed(r: Range) { AtMost(Start(r), Finish(r)) }

  predicate In(p: Pos, r: Range) { AtMost(Start(r), p) && AtMost(p, Finish(r)) }

  /** Every event of `a` is older than every event of `b`. */
  ghost predicate AllBefore(a: Range, b: Range) {
    forall p, q | In(p, a) && In(q, b) :: Before(p, q)
  }

  lemma AllBeforeIffEnds(a: Range, b: Range)
    requires WellFormed(a) && WellFormed(b)
    ensures AllBefore(a, b) <==> Before(Finish(a), Start(b))
  {
    if AllBefore(a, b) { assert In(Finish(a), a) && In(Start(b), b); }
  }

  /** Ids of one shard are totally ordered; ids of two shards are never ordered. */
  lemma IdOrder(a: EventId, b: EventId)
    ensures OrderIds(a, b).Unknown? <==> a.shard != b.shard
    ensures OrderIds(a, b).OlderThan? <==> a.shard == b.shard && Before(a.pos, b.pos)
    ensures OrderIds(a, b).NewerThan? <==> OrderIds(b, a).OlderThan?
    ensures OrderIds(a, b).Equal? <==> a == b
  {
  }

  /** OlderThan is exact. */
  lemma OlderIsExact(a: Range, b: Range)
    requires WellFormed(a) && WellFormed(b)
    ensures OrderRanges(a, b).OlderThan? <==> AllBefore(a, b)
  {
    AllBeforeIffEnds(a, b);
  }

  /**
   NewerThan compares `a`'s end block where it should compare its start block.  It is exact
   unless the indexes alone would make `a` newer and just one of the two block tests holds.
   */
  lemma NewerIsExactIff(a: Range, b: Range)
    requires WellFormed(a) && WellFormed(b)
    ensures (OrderRanges(a, b).NewerThan? <==> AllBefore(b, a)) <==>
            (|| AllBefore(a, b)
             || a.startBlock > b.endBlock
             || a.startIndex <= b.endIndex
             || (a.endBlock == b.startBlock <==> a.startBlock == b.endBlock))
  {
    AllBeforeIffEnds(a, b);
    AllBeforeIffEnds(b, a);
  }

  /** A range that is newer but reported Concurrent, and one that is not but reported NewerThan. */
  lemma NewerFails()
    ensures var a, b := Range(2, 3, 5, 0), Range(1, 2, 0, 4);
            WellFormed(a) && WellFormed(b) && AllBefore(b, a) && OrderRanges(a, b).Concurrent?
    ensures var a, b := Range(1, 2, 9, 9), Range(2, 3, 0, 0);
            WellFormed(a) && WellFormed(b) && !AllBefore(b, a) && OrderRanges(a, b).NewerThan?
  {
    AllBeforeIffEnds(Range(1, 2, 0, 4), Range(2, 3, 5, 0));
    AllBeforeIffEnds(Range(2, 3, 0, 0), Range(1, 2, 9, 9));
  }

  /** On ranges inside one block each, the order is exact in every direction. */
  lemma SingleBlockOrder(a: Range, b: Range)
    requires WellFormed(a) && WellFormed(b)
    requires a.startBlock == a.endBlock && b.startBlock == b.endBlock
    ensures OrderRanges(a, b).OlderThan? <==> AllBefore(a, b)
    ensures OrderRanges(a, b).NewerThan? <==> AllBefore(b, a)
  {
    AllBeforeIffEnds(a, b);
    AllBeforeIffEnds(b, a);
  }

  /** The smallest shard that both bounds mention. */
  ghost predicate SmallestShared(first: Bounds, second: Bounds, s: nat, u: ShardId) {
    && s <= u && u in first && u in second
    && forall v: ShardId | s <= v < u :: !(v in first && v in second)
  }

  /** The order of bounds is the order of the ranges of the smallest shared shard, and Unknown without one. */
  lemma {:induction false} SmallestSharedShardDecides(first: Bounds, second: Bounds, s: nat)
    ensures OrderFrom(first, second, s).Unknown? <==> forall u: ShardId | s <= u :: !(u in first && u in second)
    ensures forall u: ShardId | SmallestShared(first, second, s, u) :: OrderFrom(first, second, s) == OrderRanges(first[u], second[u])
    ensures !OrderFrom(first, second, s).Unknown? ==> exists u: ShardId :: SmallestShared(first, second, s, u)
    decreases NUM_SHARDS - s
  {
    if s < NUM_SHARDS {
      if s in first && s in second {
        assert SmallestShared(first, second, s, s);
      } else {
        var n := s + 1;
        SmallestSharedShardDecides(first, second, n);
        forall u: ShardId ensures SmallestShared(first, second, s, u) <==> SmallestShared(first, second, n, u) {}
        if !OrderFrom(first, second, n).Unknown? {
          var u: ShardId :| SmallestShared(first, second, n, u);
          assert SmallestShared(first, second, s, u);
        }
      }
    }
  }

  // ------------------------------------------------------------------ boundaries

  /** `r` is the smallest range holding the events of `ids` on shard `s`. */
  ghost predicate IsHull(r: Range, ids: set<EventId>, s: ShardId) {
    && EventId(s, Start(r)) in ids && EventId(s, Finish(r)) in ids
    && forall id | id in ids && id.shard == s :: In(id.pos, r)
  }

  ghost predicate AreBounds(b: Bounds, ids: set<EventId>) {
    && (forall s: ShardId :: s in b <==> exists id | id in ids :: id.shard == s)
    && (forall s | s in b :: IsHull(b[s], ids, s))
  }

  /** Widen the range of `id`'s shard so that it holds `id`. */
  function Widen(b: Bounds, id: EventId): Bounds {
    if id.shard !in b then
      b[id.shard := Range(id.pos.block, id.pos.block, id.pos.index, id.pos.index)]
    else
      var e := b[id.shard];
      if BeforeRange(id.pos, e) then b[id.shard := e.(startBlock := id.pos.block, startIndex := id.pos.index)]
      else if AfterRange(id.pos, e) then b[id.shard := e.(endBlock := id.pos.block, endIndex := id.pos.index)]
      else b
  }

  lemma WidenBounds(b: Bounds, ids: set<EventId>, id: EventId)
    requires AreBounds(b, ids)
    ensures AreBounds(Widen(b, id), ids + {id})
  {
    var c := Widen(b, id);
    forall s: ShardId ensures s in c <==> exists x | x in ids + {id} :: x.shard == s {
      if s in b {
        var x :| x in ids && x.shard == s;
        assert x in ids + {id};
      } else if s == id.shard {
        assert id in ids + {id};
      }
    }
    forall s | s in c ensures IsHull(c[s], ids + {id}, s) {
      if s in b { assert IsHull(b[s], ids, s); }
    }
  }

  /** The extent of a transaction: the tight hull of its events, in whatever order they come. */
  method GetBoundaries(readIds: seq<EventId>, writeIds: seq<EventId>) returns (b: Bounds)
    ensures AreBounds(b, (set id | id in readIds) + (set id | id in writeIds))
  {
    b := map[];
    ghost var done: set<EventId> := {};
    for i := 0 to |readIds|
      invariant done == (set id | id in readIds[..i]) && AreBounds(b, done)
    {
      WidenBounds(b, done, readIds[i]);
      b, done := Widen(b, readIds[i]), done + {readIds[i]};
    }
    assert readIds[..|readIds|] == readIds;
    ghost var first := done;
    for i := 0 to |writeIds|
      invariant done == first + (set id | id in writeIds[..i]) && AreBounds(b, done)
    {
      WidenBounds(b, done, writeIds[i]);
      b, done := Widen(b, writeIds[i]), done + {writeIds[i]};
    }
    assert writeIds[..|writeIds|] == writeIds;
  }
}
