/**
 Event ids across a run: the events of the log follow commit order; the order computed from the
 ids that transactions record is compared with it, and so are the recorded write sets.
 */
module CommitOrder {
  import opened EventLog
  import opened EventOrder
  import opened FindValidation
  import opened Transactions
  import opened Serializability
  import opened Prediction

  // ------------------------------------------------------------- order across the log

  /** A legal entry moves the end of a shard forward, never back, past all the events it makes. */
  lemma EntryAdvances(env: Env, shards: Shards, e: Entry, s: ShardId)
    requires EntryLegal(env, shards, e)
    ensures AtMost(End(shards[s]), End(RunEntry(env, shards, e)[s]))
    ensures forall x | x in e.produced && x.shard == s ::
              && x.pos.block == shards[s].pending
              && AtMost(End(shards[s]), x.pos) && Before(x.pos, End(RunEntry(env, shards, e)[s]))
  {
    var sh := DoOps(env, shards, e.ops, e.id)[s];
    WritesAppend(env, shards, e.ops, e.id, s);
    forall x | x in e.produced && x.shard == s
      ensures x.pos.block == shards[s].pending && AtMost(End(shards[s]), x.pos) && Before(x.pos, End(sh))
    {
      ProducedIs(env, shards, e.ops, e.id, x);
    }
    if s in e.rot { assert Fresh(sh, e.rot[s]); }
  }

  lemma SerialPrefix(env: Env, init: Shards, log: seq<Entry>, i: nat)
    requires i < |log|
    ensures Serial(env, init, log[..i + 1]) == RunEntry(env, Serial(env, init, log[..i]), log[i])
  {
    assert log[..i + 1][..i] == log[..i];
  }

  lemma EntryIsLegal(env: Env, init: Shards, log: seq<Entry>, i: nat)
    requires LegalSerial(env, init, log) && i < |log|
    ensures EntryLegal(env, Serial(env, init, log[..i]), log[i])
  {
  }

  lemma PrefixAdvances(env: Env, init: Shards, log: seq<Entry>, j: nat, s: ShardId)
    requires LegalSerial(env, init, log) && j < |log|
    ensures AtMost(End(Serial(env, init, log[..j])[s]), End(Serial(env, init, log[..j + 1])[s]))
  {
    EntryIsLegal(env, init, log, j);
    SerialPrefix(env, init, log, j);
    EntryAdvances(env, Serial(env, init, log[..j]), log[j], s);
  }

  lemma {:induction false} NeverBack(ends: seq<Pos>, i: nat, j: nat)
    requires i <= j < |ends| && forall k | 0 <= k < |ends| - 1 :: AtMost(ends[k], ends[k + 1])
    ensures AtMost(ends[i], ends[j])
    decreases j
  {
    if i < j {
      NeverBack(ends, i, j - 1);
      assert AtMost(ends[j - 1], ends[j - 1 + 1]);
    }
  }

  /** The end of a shard only moves forward. */
  lemma LogAdvances(env: Env, init: Shards, log: seq<Entry>, i: nat, j: nat, s: ShardId)
    requires LegalSerial(env, init, log) && i <= j <= |log|
    ensures AtMost(End(Serial(env, init, log[..i])[s]), End(Serial(env, init, log[..j])[s]))
  {
    var ends := seq(|log| + 1, k requires 0 <= k <= |log| => End(Serial(env, init, log[..k])[s]));
    forall k | 0 <= k < |ends| - 1 ensures AtMost(ends[k], ends[k + 1]) {
      PrefixAdvances(env, init, log, k, s);
    }
    NeverBack(ends, i, j);
  }

  lemma EventsBehindEntry(env: Env, init: Shards, log: seq<Entry>, i: nat, x: EventId)
    requires LegalSerial(env, init, log) && i < |log| && x in log[i].produced
    ensures Before(x.pos, End(Serial(env, init, log[..i + 1])[x.shard]))
  {
    EntryIsLegal(env, init, log, i);
    SerialPrefix(env, init, log, i);
    EntryAdvances(env, Serial(env, init, log[..i]), log[i], x.shard);
  }

  /** The events of an entry are older than the end of the shard at any later time. */
  lemma EventsStayBehind(env: Env, init: Shards, log: seq<Entry>, i: nat, j: nat, x: EventId)
    requires LegalSerial(env, init, log) && i < j <= |log| && x in log[i].produced
    ensures Before(x.pos, End(Serial(env, init, log[..j])[x.shard]))
  {
    EventsBehindEntry(env, init, log, i, x);
    LogAdvances(env, init, log, i + 1, j, x.shard);
  }

  /** Of two entries, the later one's events are newer in every shard they share. */
  lemma LaterEventsAreNewer(env: Env, init: Shards, log: seq<Entry>, i: nat, j: nat, x: EventId, y: EventId)
    requires LegalSerial(env, init, log) && i < j < |log|
    requires x in log[i].produced && y in log[j].produced && x.shard == y.shard
    ensures Before(x.pos, y.pos)
  {
    EventsStayBehind(env, init, log, i, j, x);
    EntryIsLegal(env, init, log, j);
    EntryAdvances(env, Serial(env, init, log[..j]), log[j], y.shard);
  }

  lemma {:induction false} SerialIsOrdered(env: Env, init: Shards, log: seq<Entry>)
    requires AllOrdered(init) && LegalSerial(env, init, log)
    ensures AllOrdered(Serial(env, init, log))
  {
    if log != [] {
      var n := |log| - 1;
      var before := log[..n];
      forall i | 0 <= i < |before| ensures EntryLegal(env, Serial(env, init, before[..i]), before[i]) {
        EntryIsLegal(env, init, log, i);
        assert before[..i] == log[..i];
      }
      SerialIsOrdered(env, init, before);
      EntryIsLegal(env, init, log, n);
      EntryKeepsOrdered(env, Serial(env, init, before), log[n]);
    }
  }

  lemma EntryKeepsOrdered(env: Env, shards: Shards, e: Entry)
    requires AllOrdered(shards) && EntryLegal(env, shards, e)
    ensures AllOrdered(RunEntry(env, shards, e))
  {
    WritesKeepOrdered(env, shards, e.ops, e.id);
    var now := DoOps(env, shards, e.ops, e.id);
    forall s: ShardId ensures Ordered(RunEntry(env, shards, e)[s]) {
      if s in e.rot { OrganizeKeepsOrdered(env, now[s], e.rot[s]); }
    }
  }

  lemma PrefixIsOrdered(env: Env, init: Shards, log: seq<Entry>, i: nat)
    requires AllOrdered(init) && LegalSerial(env, init, log) && i <= |log|
    ensures AllOrdered(Serial(env, init, log[..i]))
  {
    var before := log[..i];
    forall k | 0 <= k < |before| ensures EntryLegal(env, Serial(env, init, before[..k]), before[k]) {
      EntryIsLegal(env, init, log, k);
      assert before[..k] == log[..k];
    }
    SerialIsOrdered(env, init, before);
  }

  // ----------------------------------------------------------------- recorded write sets

  lemma RecordedInLog(env: Env, init: Shards, log: seq<Entry>, i: nat)
    requires LegalSerial(env, init, log) && AllOrdered(init) && i < |log| && log[i].id.Some?
    ensures var shards := Serial(env, init, log[..i]);
            && AllOrdered(shards) && log[i].recorded == Predict(env, shards, log[i].ops)
            && log[i].produced == Produced(env, shards, log[i].ops, log[i].id)
  {
    PrefixIsOrdered(env, init, log, i);
    EntryIsLegal(env, init, log, i);
  }

  /**
   For every run: the write set a committed transaction recorded before writing is the set of events
   its writes made if and only if it counted no write on any shard and none took effect.
   */
  lemma RecordedIdsAreProducedIff(env: Env, init: Shards, steps: seq<Step>, i: nat)
    requires Runs(env, InitSys(init), steps) && AllOrdered(init)
    requires var log := Exec(env, InitSys(init), steps).log;
             i < |log| && log[i].id.Some?
    ensures var log := Exec(env, InitSys(init), steps).log;
            log[i].recorded == log[i].produced <==> Prediction.Idle(env, Serial(env, init, log[..i]), log[i].ops)
  {
    CommitOrderIsSerial(env, init, steps);
    var log := Exec(env, InitSys(init), steps).log;
    RecordedInLog(env, init, log, i);
    PredictionIsExactIff(env, Serial(env, init, log[..i]), log[i].ops, log[i].id);
  }

  /**
   For every run: on the smallest shard a committed transaction counted writes for, it recorded its
   new events, each one place too far, if and only if all writes counted there pass their guards
   and no index wraps; on every other shard it recorded nothing.
   */
  lemma RecordedIdsAreShiftedIff(env: Env, init: Shards, steps: seq<Step>, i: nat, s: ShardId)
    requires Runs(env, InitSys(init), steps) && AllOrdered(init)
    requires var log := Exec(env, InitSys(init), steps).log;
             i < |log| && log[i].id.Some? && FirstCounted(env, log[i].ops, s)
    ensures var log := Exec(env, InitSys(init), steps).log;
            && (Shifted(log[i].recorded, log[i].produced, s) <==> Fits(env, Serial(env, init, log[..i]), log[i].ops, s))
            && forall x | x in log[i].recorded :: x.shard == s
  {
    CommitOrderIsSerial(env, init, steps);
    var log := Exec(env, InitSys(init), steps).log;
    var e, shards := log[i], Serial(env, init, log[..i]);
    RecordedInLog(env, init, log, i);
    PredictionIsShiftedIff(env, shards, e.ops, e.id, s);
    forall x | x in e.recorded ensures x.shard == s {
      if x.shard != s { OtherShardsForgotten(env, shards, e.ops, s, x); }
    }
  }

  // ---------------------------------------------------------- the range a write set spans

  /** The hull of `k` recorded ids: all the block's indexes as soon as they wrap. */
  function RecordedRange(sh: Shard, k: nat): Range
    requires k > 0
  {
    var a := (Length(sh) + 1) % INDEX_SPACE;
    if a + k <= INDEX_SPACE then Range(sh.pending, sh.pending, a, a + k - 1)
    else Range(sh.pending, sh.pending, 0, INDEX_SPACE - 1)
  }

  lemma WrappedDistance(n: nat, x: nat)
    requires x < INDEX_SPACE
    ensures var a := n % INDEX_SPACE;
            (x - n) % INDEX_SPACE == if x < a then x - a + INDEX_SPACE else x - a
  {
  }

  lemma WrappedIs(n: nat, k: nat, x: nat)
    ensures var a := n % INDEX_SPACE;
            InWrapped(x, n, k) <==> x < INDEX_SPACE && (if x < a then x - a + INDEX_SPACE else x - a) < k
  {
    if x < INDEX_SPACE { WrappedDistance(n, x); }
  }

  /** The least and the greatest of `k` indexes counted from `n`. */
  lemma WrappedSpan(n: nat, k: nat)
    requires 0 < k < INDEX_SPACE
    ensures var a := n % INDEX_SPACE;
            && InWrapped(a, n, k)
            && (a + k <= INDEX_SPACE ==> InWrapped(a + k - 1, n, k))
            && (a + k > INDEX_SPACE ==> InWrapped(0, n, k) && InWrapped(INDEX_SPACE - 1, n, k))
  {
    var a := n % INDEX_SPACE;
    WrappedIs(n, k, a);
    WrappedIs(n, k, a + k - 1);
    WrappedIs(n, k, 0);
    WrappedIs(n, k, INDEX_SPACE - 1);
  }

  /** The bounds of a recorded write set. */
  lemma RecordedHull(env: Env, shards: Shards, ops: seq<Op>, s: ShardId, r: Range)
    requires FirstCounted(env, ops, s) && IsHull(r, Predict(env, shards, ops), s)
    ensures r == RecordedRange(shards[s], CountOn(env, ops, s))
  {
    var n, k, ids := Length(shards[s]) + 1, CountOn(env, ops, s), Predict(env, shards, ops);
    forall x: EventId | x.shard == s ensures x in ids <==> x.pos.block == shards[s].pending && InWrapped(x.pos.index, n, k) {
      PredictIs(env, shards, ops, x);
    }
    var a, p := n % INDEX_SPACE, shards[s].pending;
    assert EventId(s, Start(r)) in ids && EventId(s, Finish(r)) in ids;
    WrappedIs(n, k, r.startIndex);
    WrappedIs(n, k, r.endIndex);
    WrappedSpan(n, k);
    assert EventId(s, Pos(p, a)) in ids;
    if a + k <= INDEX_SPACE {
      assert EventId(s, Pos(p, a + k - 1)) in ids;
    } else {
      assert EventId(s, Pos(p, 0)) in ids && EventId(s, Pos(p, INDEX_SPACE - 1)) in ids;
    }
  }

  /** Only the smallest shard counted is in the bounds of a recorded write set. */
  lemma RecordedBounds(env: Env, shards: Shards, ops: seq<Op>, b: Bounds, s: ShardId)
    requires AreBounds(b, Predict(env, shards, ops))
    ensures s in b <==> FirstCounted(env, ops, s)
    ensures s in b ==> b[s] == RecordedRange(shards[s], CountOn(env, ops, s))
  {
    if s in b {
      var x :| x in Predict(env, shards, ops) && x.shard == s;
      PredictIs(env, shards, ops, x);
      RecordedHull(env, shards, ops, s, b[s]);
    }
    if FirstCounted(env, ops, s) { FirstIsRecorded(env, shards, ops, s); }
  }

  // ------------------------------------------------------------- transactions that only write

  /** The two transactions record ids on the same shard. */
  ghost predicate SameFirst(env: Env, a: seq<Op>, b: seq<Op>, s: ShardId) {
    FirstCounted(env, a, s) && FirstCounted(env, b, s)
  }

  /** After an entry, the next event of a shard comes behind all the entry made there. */
  lemma EntryEnd(env: Env, shards: Shards, e: Entry, s: ShardId)
    requires AllOrdered(shards) && EntryLegal(env, shards, e)
    ensures AtMost(Pos(shards[s].pending, Length(shards[s]) + ExpectedOn(env, shards, e.ops, s)), End(RunEntry(env, shards, e)[s]))
  {
    EffectsAreExpected(env, shards, e.ops, e.id, s);
    WritesAppend(env, shards, e.ops, e.id, s);
    if s in e.rot { assert Fresh(DoOps(env, shards, e.ops, e.id)[s], e.rot[s]); }
  }

  lemma EndAfterEntry(env: Env, init: Shards, log: seq<Entry>, i: nat, j: nat, s: ShardId)
    requires LegalSerial(env, init, log) && AllOrdered(init) && i < j <= |log|
    ensures var shards := Serial(env, init, log[..i]);
            AtMost(Pos(shards[s].pending, Length(shards[s]) + ExpectedOn(env, shards, log[i].ops, s)), End(Serial(env, init, log[..j])[s]))
  {
    var shards := Serial(env, init, log[..i]);
    PrefixIsOrdered(env, init, log, i);
    EntryIsLegal(env, init, log, i);
    EntryEnd(env, shards, log[i], s);
    SerialPrefix(env, init, log, i);
    LogAdvances(env, init, log, i + 1, j, s);
    AtMostTrans(Pos(shards[s].pending, Length(shards[s]) + ExpectedOn(env, shards, log[i].ops, s)),
                End(Serial(env, init, log[..i + 1])[s]), End(Serial(env, init, log[..j])[s]));
  }

  lemma AtMostTrans(p: Pos, q: Pos, r: Pos)
    requires AtMost(p, q) && AtMost(q, r)
    ensures AtMost(p, r)
  {
  }

  /** The order of the ranges of two write sets, the later shard state not behind the earlier one. */
  lemma RecordedRangesInOrder(x: Shard, k: nat, y: Shard, m: nat)
    requires k > 0 && m > 0 && AtMost(End(x), End(y))
    ensures var r1, r2 := RecordedRange(x, k), RecordedRange(y, m);
            && (OrderRanges(r1, r2).OlderThan? <==> x.pending < y.pending || r1.endIndex < r2.startIndex)
            && (OrderRanges(r1, r2).NewerThan? <==> x.pending == y.pending && r1.startIndex > r2.endIndex)
            && (OrderRanges(r2, r1).NewerThan? <==> OrderRanges(r1, r2).OlderThan?)
            && (OrderRanges(r2, r1).OlderThan? <==> OrderRanges(r1, r2).NewerThan?)
            && !OrderRanges(r1, r2).Unknown? && !OrderRanges(r2, r1).Unknown?
  {
    assert x.pending <= y.pending;
  }

  /** Without a wrap the recorded indexes are those after the next event's. */
  lemma RecordedWithoutWrap(x: Shard, k: nat)
    requires k > 0 && Length(x) + k < INDEX_SPACE
    ensures RecordedRange(x, k) == Range(x.pending, x.pending, Length(x) + 1, Length(x) + k)
  {
    assert (Length(x) + 1) % INDEX_SPACE == Length(x) + 1;
  }

  lemma WriteSetsInOrder(env: Env, init: Shards, log: seq<Entry>, i: nat, j: nat, b1: Bounds, b2: Bounds, s: ShardId)
    requires LegalSerial(env, init, log) && AllOrdered(init) && i < j < |log| && log[i].id.Some? && log[j].id.Some?
    requires AreBounds(b1, log[i].recorded) && AreBounds(b2, log[j].recorded) && SameFirst(env, log[i].ops, log[j].ops, s)
    ensures s in b1 && s in b2
    ensures OrderBounds(b1, b2) == OrderRanges(b1[s], b2[s]) && OrderBounds(b2, b1) == OrderRanges(b2[s], b1[s])
    ensures b1[s] == RecordedRange(Serial(env, init, log[..i])[s], CountOn(env, log[i].ops, s))
    ensures b2[s] == RecordedRange(Serial(env, init, log[..j])[s], CountOn(env, log[j].ops, s))
  {
    RecordedInLog(env, init, log, i);
    RecordedInLog(env, init, log, j);
    forall u: ShardId ensures u in b1 <==> FirstCounted(env, log[i].ops, u) { RecordedBounds(env, Serial(env, init, log[..i]), log[i].ops, b1, u); }
    RecordedBounds(env, Serial(env, init, log[..i]), log[i].ops, b1, s);
    RecordedBounds(env, Serial(env, init, log[..j]), log[j].ops, b2, s);
    SharedDecides(b1, b2, s);
  }

  /**
   For every run and every two committed transactions that only write: the order computed from what
   they recorded is Unknown if and only if they recorded ids of different shards, or one recorded
   none.
   */
  lemma WriteOrderUnknownIff(env: Env, init: Shards, steps: seq<Step>, i: nat, j: nat, b1: Bounds, b2: Bounds)
    requires Runs(env, InitSys(init), steps) && AllOrdered(init)
    requires var log := Exec(env, InitSys(init), steps).log;
             && i < j < |log| && log[i].id.Some? && log[j].id.Some?
             && AreBounds(b1, log[i].recorded) && AreBounds(b2, log[j].recorded)
    ensures var log := Exec(env, InitSys(init), steps).log;
            OrderBounds(b1, b2).Unknown? <==> !exists s: ShardId :: SameFirst(env, log[i].ops, log[j].ops, s)
  {
    CommitOrderIsSerial(env, init, steps);
    var log := Exec(env, InitSys(init), steps).log;
    RecordedInLog(env, init, log, i);
    RecordedInLog(env, init, log, j);
    forall s: ShardId ensures s in b1 && s in b2 <==> SameFirst(env, log[i].ops, log[j].ops, s) {
      RecordedBounds(env, Serial(env, init, log[..i]), log[i].ops, b1, s);
      RecordedBounds(env, Serial(env, init, log[..j]), log[j].ops, b2, s);
    }
    SmallestSharedShardDecides(b1, b2, 0);
  }

  /**
   If both recorded ids of shard `s`: the computed order is commit order if and only if a new block
   was started in between, or the indexes the earlier one recorded are the smaller ones; it is the
   opposite exactly when no block was started and the later one's indexes wrapped below.
   */
  lemma WriteOrderIsCommitOrderIff(env: Env, init: Shards, steps: seq<Step>, i: nat, j: nat, b1: Bounds, b2: Bounds, s: ShardId)
    requires Runs(env, InitSys(init), steps) && AllOrdered(init)
    requires var log := Exec(env, InitSys(init), steps).log;
             && i < j < |log| && log[i].id.Some? && log[j].id.Some?
             && AreBounds(b1, log[i].recorded) && AreBounds(b2, log[j].recorded) && SameFirst(env, log[i].ops, log[j].ops, s)
    ensures var log := Exec(env, InitSys(init), steps).log;
            var x, y := Serial(env, init, log[..i])[s], Serial(env, init, log[..j])[s];
            var r1, r2 := RecordedRange(x, CountOn(env, log[i].ops, s)), RecordedRange(y, CountOn(env, log[j].ops, s));
            && (OrderBounds(b1, b2).OlderThan? <==> x.pending < y.pending || r1.endIndex < r2.startIndex)
            && (OrderBounds(b1, b2).NewerThan? <==> x.pending == y.pending && r1.startIndex > r2.endIndex)
            && (OrderBounds(b2, b1).NewerThan? <==> OrderBounds(b1, b2).OlderThan?)
            && (OrderBounds(b2, b1).OlderThan? <==> OrderBounds(b1, b2).NewerThan?)
  {
    CommitOrderIsSerial(env, init, steps);
    var log := Exec(env, InitSys(init), steps).log;
    WriteSetsInOrder(env, init, log, i, j, b1, b2, s);
    LogAdvances(env, init, log, i, j, s);
    RecordedRangesInOrder(Serial(env, init, log[..i])[s], CountOn(env, log[i].ops, s),
                          Serial(env, init, log[..j])[s], CountOn(env, log[j].ops, s));
  }

  /**
   Without a wrap the computed order never contradicts commit order; it is commit order if and only
   if a new block was started in between, or as many events came in between as the earlier one
   counted writes, as they do when those writes all pass their guards.
   */
  lemma WriteOrderWithoutWrap(env: Env, init: Shards, steps: seq<Step>, i: nat, j: nat, b1: Bounds, b2: Bounds, s: ShardId)
    requires Runs(env, InitSys(init), steps) && AllOrdered(init)
    requires var log := Exec(env, InitSys(init), steps).log;
             && i < j < |log| && log[i].id.Some? && log[j].id.Some?
             && AreBounds(b1, log[i].recorded) && AreBounds(b2, log[j].recorded) && SameFirst(env, log[i].ops, log[j].ops, s)
             && Length(Serial(env, init, log[..i])[s]) + CountOn(env, log[i].ops, s) < INDEX_SPACE
             && Length(Serial(env, init, log[..j])[s]) + CountOn(env, log[j].ops, s) < INDEX_SPACE
    ensures var log := Exec(env, InitSys(init), steps).log;
            var x, y := Serial(env, init, log[..i])[s], Serial(env, init, log[..j])[s];
            var older := x.pending < y.pending || Length(x) + CountOn(env, log[i].ops, s) <= Length(y);
            && OrderBounds(b1, b2) == (if older then OlderThan else Concurrent)
            && OrderBounds(b2, b1) == (if older then NewerThan else Concurrent)
            && (ExpectedOn(env, Serial(env, init, log[..i]), log[i].ops, s) == CountOn(env, log[i].ops, s) ==> older)
  {
    CommitOrderIsSerial(env, init, steps);
    var log := Exec(env, InitSys(init), steps).log;
    WriteSetsInOrder(env, init, log, i, j, b1, b2, s);
    EndAfterEntry(env, init, log, i, j, s);
    LogAdvances(env, init, log, i, j, s);
    var x, y := Serial(env, init, log[..i])[s], Serial(env, init, log[..j])[s];
    RecordedRangesInOrder(x, CountOn(env, log[i].ops, s), y, CountOn(env, log[j].ops, s));
    RecordedWithoutWrap(x, CountOn(env, log[i].ops, s));
    RecordedWithoutWrap(y, CountOn(env, log[j].ops, s));
  }

  /**
   For every run and every two committed transactions that only write, whose writes all take effect
   and do not wrap: the computed order is commit order if and only if their smallest written shards
   are the same, and Unknown otherwise.
   */
  lemma OrderAgreesWithCommitOrderIff(env: Env, init: Shards, steps: seq<Step>, i: nat, j: nat, b1: Bounds, b2: Bounds)
    requires Runs(env, InitSys(init), steps) && AllOrdered(init)
    requires var log := Exec(env, InitSys(init), steps).log;
             && i < j < |log| && log[i].id.Some? && log[j].id.Some?
             && ReadSet(log[i].ops) == {} && ReadSet(log[j].ops) == {}
             && AreBounds(b1, ReadSet(log[i].ops) + log[i].recorded) && AreBounds(b2, ReadSet(log[j].ops) + log[j].recorded)
             && (forall s: ShardId | FirstCounted(env, log[i].ops, s) :: Fits(env, Serial(env, init, log[..i]), log[i].ops, s))
             && (forall s: ShardId | FirstCounted(env, log[j].ops, s) :: Fits(env, Serial(env, init, log[..j]), log[j].ops, s))
    ensures var log := Exec(env, InitSys(init), steps).log;
            var same := exists s: ShardId :: SameFirst(env, log[i].ops, log[j].ops, s);
            && OrderBounds(b1, b2) == (if same then OlderThan else Unknown)
            && OrderBounds(b2, b1) == (if same then NewerThan else Unknown)
  {
    var log := Exec(env, InitSys(init), steps).log;
    assert {} + log[i].recorded == log[i].recorded && {} + log[j].recorded == log[j].recorded;
    WriteOrderUnknownIff(env, init, steps, i, j, b1, b2);
    UnknownBothWays(b1, b2);
    if s: ShardId :| SameFirst(env, log[i].ops, log[j].ops, s) {
      assert Fits(env, Serial(env, init, log[..i]), log[i].ops, s) && Fits(env, Serial(env, init, log[..j]), log[j].ops, s);
      WriteOrderWithoutWrap(env, init, steps, i, j, b1, b2, s);
    }
  }

  lemma UnknownBothWays(b1: Bounds, b2: Bounds)
    ensures OrderBounds(b1, b2).Unknown? <==> OrderBounds(b2, b1).Unknown?
  {
    SmallestSharedShardDecides(b1, b2, 0);
    SmallestSharedShardDecides(b2, b1, 0);
  }

  lemma SharedDecides(b1: Bounds, b2: Bounds, s: ShardId)
    requires SmallestShared(b1, b2, 0, s)
    ensures OrderBounds(b1, b2) == OrderRanges(b1[s], b2[s]) && OrderBounds(b2, b1) == OrderRanges(b2[s], b1[s])
  {
    SmallestSharedShardDecides(b1, b2, 0);
    assert SmallestShared(b2, b1, 0, s);
    SmallestSharedShardDecides(b2, b1, 0);
  }

  // ------------------------------------------------------------------ reads included

  /** All the ids lie before the ends of their shards. */
  ghost predicate Behind(shards: Shards, ids: set<EventId>) {
    forall x | x in ids :: Before(x.pos, End(shards[x.shard]))
  }

  /** No id is of a block that does not exist yet. */
  ghost predicate Reached(shards: Shards, ids: set<EventId>) {
    forall x | x in ids :: x.pos.block <= shards[x.shard].pending
  }

  /** At least a repeatable read, and not a query validated as a whole. */
  predicate ReadsChecked(isolation: Isolation, op: Op) {
    !isolation.ReadCommitted? && (op.Find? ==> isolation.RepeatableRead?)
  }

  lemma ValidReadIsBehind(env: Env, shards: Shards, isolation: Isolation, op: Op, x: EventId)
    requires AllOrdered(shards) && OpValid(env, shards, isolation, op) && ReadsChecked(isolation, op) && x in ReadsOf(op)
    ensures Before(x.pos, End(shards[x.shard]))
  {
    EndIsLast(shards[x.shard], x.pos);
  }

  lemma {:induction false} ReadOfSome(ops: seq<Op>, x: EventId) returns (k: nat)
    requires x in ReadsAsked(ops)
    ensures k < |ops| && x in ReadsOf(ops[k])
  {
    var n := |ops| - 1;
    if x in ReadsOf(ops[n]) {
      k := n;
    } else {
      k := ReadOfSome(ops[..n], x);
    }
  }

  lemma SetIsOfSeq(ids: seq<EventId>, x: EventId)
    requires x in EidSet(ids)
    ensures x in ids
  {
    if ids != [] { EidSetIs(ids); }
  }

  /** The checked reads a committed transaction recorded are of events older than all it made. */
  lemma CommittedReadsAreBehind(env: Env, init: Shards, log: seq<Entry>, i: nat)
    requires AllOrdered(init) && LegalSerial(env, init, log) && i < |log|
    requires forall k | 0 <= k < |log[i].ops| :: ReadsChecked(log[i].isolation, log[i].ops[k])
    ensures Behind(Serial(env, init, log[..i]), ReadSet(log[i].ops))
    ensures Reached(Serial(env, init, log[..i]), ReadSet(log[i].ops))
  {
    var e, shards := log[i], Serial(env, init, log[..i]);
    PrefixIsOrdered(env, init, log, i);
    EntryIsLegal(env, init, log, i);
    forall x | x in ReadSet(e.ops) ensures Before(x.pos, End(shards[x.shard])) {
      SetIsOfSeq(ReadsAsked(e.ops), x);
      var k := ReadOfSome(e.ops, x);
      ValidReadIsBehind(env, shards, e.isolation, e.ops[k], x);
    }
  }

  /** The wrong comparison of block numbers in the test for NewerThan. */
  predicate Misjudged(a: Range, b: Range) {
    !Before(Finish(a), Start(b)) && a.endBlock == b.startBlock && a.startIndex > b.endIndex
  }

  lemma HullIsWellFormed(r: Range, ids: set<EventId>, s: ShardId)
    requires IsHull(r, ids, s)
    ensures WellFormed(r)
  {
  }

  /** The blocks of the earlier transaction's ids do not lie behind the block the later one wrote to. */
  lemma BlocksInOrder(env: Env, init: Shards, log: seq<Entry>, i: nat, j: nat, r1: Range, r2: Range, s: ShardId)
    requires LegalSerial(env, init, log) && AllOrdered(init) && i < j < |log| && log[i].id.Some? && log[j].id.Some?
    requires Reached(Serial(env, init, log[..i]), ReadSet(log[i].ops)) && FirstCounted(env, log[j].ops, s)
    requires IsHull(r1, ReadSet(log[i].ops) + log[i].recorded, s) && IsHull(r2, ReadSet(log[j].ops) + log[j].recorded, s)
    ensures r1.startBlock <= r2.endBlock
  {
    var x, y := Serial(env, init, log[..i]), Serial(env, init, log[..j]);
    RecordedInLog(env, init, log, i);
    RecordedInLog(env, init, log, j);
    LogAdvances(env, init, log, i, j, s);
    var start, made := EventId(s, Start(r1)), NextId(y, s, 0);
    assert start in ReadSet(log[i].ops) + log[i].recorded;
    PredictIs(env, x, log[i].ops, start);
    FirstIsRecorded(env, y, log[j].ops, s);
    assert made in ReadSet(log[j].ops) + log[j].recorded && In(made.pos, r2);
  }

  /**
   For every run and every two committed transactions, with the events they read counted in: if the
   later one recorded writes on the smallest shard both have ids of, the computed order is the
   opposite of commit order exactly when the wrong comparison of blocks makes it, and is commit
   order exactly when all ids of the earlier one come first.
   */
  lemma OrderContradictsCommitOrderIff(env: Env, init: Shards, steps: seq<Step>, i: nat, j: nat, b1: Bounds, b2: Bounds, s: ShardId)
    requires Runs(env, InitSys(init), steps) && AllOrdered(init)
    requires var log := Exec(env, InitSys(init), steps).log;
             && i < j < |log| && log[i].id.Some? && log[j].id.Some?
             && Reached(Serial(env, init, log[..i]), ReadSet(log[i].ops)) && FirstCounted(env, log[j].ops, s)
             && AreBounds(b1, ReadSet(log[i].ops) + log[i].recorded) && AreBounds(b2, ReadSet(log[j].ops) + log[j].recorded)
    requires SmallestShared(b1, b2, 0, s)
    ensures OrderBounds(b1, b2).NewerThan? <==> Misjudged(b1[s], b2[s])
    ensures OrderBounds(b1, b2).OlderThan? <==> AllBefore(b1[s], b2[s])
  {
    CommitOrderIsSerial(env, init, steps);
    var log := Exec(env, InitSys(init), steps).log;
    BlocksInOrder(env, init, log, i, j, b1[s], b2[s], s);
    HullIsWellFormed(b1[s], ReadSet(log[i].ops) + log[i].recorded, s);
    HullIsWellFormed(b2[s], ReadSet(log[j].ops) + log[j].recorded, s);
    SharedDecides(b1, b2, s);
    RangesContradictIff(b1[s], b2[s]);
  }

  lemma RangesContradictIff(r1: Range, r2: Range)
    requires WellFormed(r1) && WellFormed(r2) && r1.startBlock <= r2.endBlock
    ensures OrderRanges(r1, r2).NewerThan? <==> Misjudged(r1, r2)
    ensures OrderRanges(r1, r2).OlderThan? <==> AllBefore(r1, r2)
  {
    OlderIsExact(r1, r2);
    AllBeforeIffEnds(r1, r2);
  }

  /** The bounds of ids of one shard are one range. */
  lemma OneRange(b: Bounds, ids: set<EventId>, s: ShardId)
    requires AreBounds(b, ids) && ids != {} && forall x | x in ids :: x.shard == s
    ensures forall u: ShardId :: u in b <==> u == s
    ensures IsHull(b[s], ids, s)
  {
    var x :| x in ids;
    assert x.shard == s;
  }

  /**
   For every run: a transaction that reads nothing but events of one that only wrote is never
   reported newer than it.  It is reported older if it read just the first of these events, and
   concurrent otherwise.
   */
  lemma ReaderNeverLooksNewer(env: Env, init: Shards, steps: seq<Step>, i: nat, j: nat, b1: Bounds, b2: Bounds, s: ShardId)
    requires Runs(env, InitSys(init), steps) && AllOrdered(init)
    requires var log := Exec(env, InitSys(init), steps).log;
             && i < |log| && j < |log| && log[i].id.Some? && log[j].id.Some?
             && FirstCounted(env, log[i].ops, s) && Fits(env, Serial(env, init, log[..i]), log[i].ops, s)
             && ReadSet(log[i].ops) == {} && log[j].recorded == {} && ReadSet(log[j].ops) != {}
             && (forall x | x in ReadSet(log[j].ops) :: x in log[i].produced && x.shard == s)
             && AreBounds(b1, ReadSet(log[i].ops) + log[i].recorded) && AreBounds(b2, ReadSet(log[j].ops) + log[j].recorded)
    ensures var log := Exec(env, InitSys(init), steps).log;
            var first := EventId(s, End(Serial(env, init, log[..i])[s]));
            OrderBounds(b1, b2) == if ReadSet(log[j].ops) == {first} then NewerThan else Concurrent
  {
    CommitOrderIsSerial(env, init, steps);
    var log := Exec(env, InitSys(init), steps).log;
    var e, shards, seen := log[i], Serial(env, init, log[..i]), ReadSet(log[j].ops);
    assert {} + e.recorded == e.recorded && seen + {} == seen;
    RecordedInLog(env, init, log, i);
    forall u: ShardId ensures u in b1 <==> u == s { RecordedBounds(env, shards, e.ops, b1, u); }
    RecordedBounds(env, shards, e.ops, b1, s);
    RecordedWithoutWrap(shards[s], CountOn(env, e.ops, s));
    OneRange(b2, seen, s);
    SharedDecides(b1, b2, s);
    ReadsInRange(env, shards, e, seen, b2[s], s);
  }

  lemma ReadsInRange(env: Env, shards: Shards, e: Entry, seen: set<EventId>, r: Range, s: ShardId)
    requires AllOrdered(shards) && e.produced == Produced(env, shards, e.ops, e.id)
    requires IsHull(r, seen, s) && forall x | x in seen :: x in e.produced && x.shard == s
    ensures r.startBlock == r.endBlock == shards[s].pending
    ensures Length(shards[s]) <= r.startIndex <= r.endIndex < Length(shards[s]) + ExpectedOn(env, shards, e.ops, s)
    ensures r.endIndex == Length(shards[s]) <==> seen == {EventId(s, End(shards[s]))}
  {
    forall x | x in seen ensures x.pos.block == shards[s].pending && InPlain(x.pos.index, Length(shards[s]), ExpectedOn(env, shards, e.ops, s)) {
      ProducedOn(env, shards, e.ops, e.id, x);
    }
    var first, start, finish := EventId(s, End(shards[s])), EventId(s, Start(r)), EventId(s, Finish(r));
    assert start in seen && finish in seen;
    if r.endIndex == Length(shards[s]) {
      assert first == start;
      forall x | x in seen ensures x == first { assert In(x.pos, r); }
    }
  }
}
