/**
 A prepared transaction and the handles its operations open below it: the shards it has
 prepared can always be had again through it, and closing an operation's handle leaves the
 transaction's own hold as it was.
 */
module NestedLocks {
  import opened EventLog
  import opened RWLock
  import opened LockHandles
  import T = Transactions

  /** The handle counts the shard in a mode at least as strong as `m`. */
  predicate Covers(hold: Hold, r: Id, m: Mode) {
    r in hold.counts && (m.Write? ==> hold.counts[r].writers > 0)
  }

  /** The transaction's handle counts every planned shard in its planned mode. */
  ghost predicate HoldsPlan(holds: seq<Hold>, r: Id, plan: map<ShardId, Mode>) {
    |holds| == NUM_SHARDS && forall s | s in plan :: Covers(holds[s], r, plan[s])
  }

  /** Through a root that covers the mode, a request is always granted, and the lock is not touched. */
  lemma {:induction false} NestedGetSucceeds(t: Tree, hold: Hold, h: Id, m: Mode, nonblocking: bool)
    requires h in t.parents && Covers(hold, RootOf(t, h), m)
    ensures var (r, o) := GetShard(t, hold, h, m, nonblocking); o.Got? && r.lock == hold.lock
    decreases h
  {
    if t.parents[h].Some? { NestedGetSucceeds(t, hold, t.parents[h].value, m, nonblocking || h in t.nonblocking); }
  }

  /** The mode an operation needs on a shard it touches. */
  function Needs(env: Env, op: T.Op, s: ShardId): Mode {
    if T.WritesTo(env, op, s) then Mode.Write else Mode.Read
  }

  /**
   Once the transaction's handle counts the planned shards, every operation that was planned for
   gets every shard it touches, in the mode it needs, through any handle below.
   */
  lemma PlannedOperationGetsShards(env: Env, t: Tree, holds: seq<Hold>, h: Id, isolation: T.Isolation,
                                   plan: map<ShardId, Mode>, ops: seq<T.Op>, i: nat, s: ShardId, nonblocking: bool)
    requires h in t.parents && HoldsPlan(holds, RootOf(t, h), plan) && T.Strongest(env, isolation, plan, ops)
    requires i < |ops| && s in T.Touched(env, isolation, ops[i])
    ensures GetShard(t, holds[s], h, Needs(env, ops[i], s), nonblocking).1.Got?
  {
    assert s in plan;
    if T.WritesTo(env, ops[i], s) { assert plan[s].Write?; }
    NestedGetSucceeds(t, holds[s], h, Needs(env, ops[i], s), nonblocking);
  }

  // ------------------------------------------------------- the state follows from the account

  lemma {:induction false} ThroughBag(t: Tree, x: seq<Token>, y: seq<Token>, a: Id, m: Mode)
    requires Known(t, x) && Known(t, y) && multiset(x) == multiset(y)
    ensures Through(t, x, a, m) == Through(t, y, a, m)
  {
    if x == [] {
      assert |multiset(y)| == |y|;
    } else {
      var n := |x| - 1;
      assert x == x[..n] + [x[n]];
      assert x[n] in multiset(y);
      var j :| 0 <= j < |y| && y[j] == x[n];
      ThroughWithout(t, y, j, a, m);
      WithoutBag(y, j);
      assert multiset(x[..n]) == multiset(x) - multiset{x[n]};
      ThroughBag(t, x[..n], Without(y, j), a, m);
    }
  }

  lemma LockIsUnique<A>(x: Lock, y: Lock, holders: map<A, Mode>)
    requires Agrees(x, holders) && Agrees(y, holders)
    ensures x == y
  {
    if holders != map[] {
      var a :| a in holders;
    }
  }

  /** Counts and lock follow from which requests are outstanding. */
  lemma HoldFollowsTokens(t: Tree, x: Hold, y: Hold, tokens: seq<Token>, tokens': seq<Token>)
    requires Sound(t, x, tokens) && Sound(t, y, tokens') && multiset(tokens) == multiset(tokens')
    ensures x == y
  {
    forall a | a in t.parents
      ensures (a in x.counts <==> a in y.counts) && (a in x.counts ==> x.counts[a] == y.counts[a])
    {
      SoundAt(t, x, tokens, a);
      SoundAt(t, y, tokens', a);
      ThroughBag(t, tokens, tokens', a, Mode.Read);
      ThroughBag(t, tokens, tokens', a, Mode.Write);
      assert Amount(x.counts, a) == Amount(y.counts, a);
    }
    assert x.counts == y.counts;
    LockIsUnique(x.lock, y.lock, Holders(t, x.counts));
  }

  // ------------------------------------------------------------------- asking and giving back

  lemma CoverKept(t: Tree, hold: Hold, tokens: seq<Token>, c: Id, m: Mode, nonblocking: bool, n: Mode)
    requires Sound(t, hold, tokens) && c in t.parents && |tokens| + 1 < COUNT_SPACE && Covers(hold, RootOf(t, c), n)
    requires GetShard(t, hold, c, m, nonblocking).1.Got?
    ensures Covers(GetShard(t, hold, c, m, nonblocking).0, RootOf(t, c), n)
  {
    var r := RootOf(t, c);
    OneRoot(t, c, r);
    GotCounts(t, hold, c, m, nonblocking, r);
    SoundAt(t, hold, tokens, r);
    ThroughIsFew(t, tokens, r, Mode.Write);
  }

  lemma StillBare(t: Tree, hold: Hold, c: Id, m: Mode, nonblocking: bool)
    requires c in t.parents && NothingBelow(t, hold, c) && GetShard(t, hold, c, m, nonblocking).1.Got?
    ensures NothingBelow(t, GetShard(t, hold, c, m, nonblocking).0, c)
  {
    var counts := GetShard(t, hold, c, m, nonblocking).0.counts;
    forall a | a in counts ensures a !in Below(t, c) {
      GotCounts(t, hold, c, m, nonblocking, a);
      if a in Below(t, c) { BelowIsYounger(t, c, a); }
    }
  }

  /** Nothing but requests of `c` were added. */
  ghost predicate Added(tokens: seq<Token>, now: seq<Token>, c: Id) {
    forall k: Token | k.handle != c :: multiset(now)[k] == multiset(tokens)[k]
  }

  lemma AllBack(t: Tree, hold: Hold, tokens: seq<Token>, mid: Hold, between: seq<Token>, r: Hold, now: seq<Token>, c: Id)
    requires Sound(t, hold, tokens) && c in t.parents && c !in hold.counts
    requires Known(t, between) && Added(tokens, between, c) && NothingBelow(t, mid, c) && Cleared(t, mid, between, r, now, c)
    ensures r == hold
  {
    NoEntryNoTokens(t, hold, c, tokens);
    forall k: Token ensures multiset(now)[k] == multiset(tokens)[k] {
      if k.handle !in t.parents {
        assert k !in tokens && k !in now;
      } else if k.handle == c {
        assert Under(t, c, c);
      }
    }
    assert multiset(now) == multiset(tokens);
    assert Strip(t, r, c) == r;
    HoldFollowsTokens(t, r, hold, now, tokens);
  }

  /**
   An operation's own handle `c`, on one shard the transaction holds: everything it asks for in a
   mode the transaction covers is granted, and clearing the handle leaves lock and counts as they were.
   */
  method AskAndClear(t: Tree, hold: Hold, c: Id, asks: seq<Mode>, nonblocking: bool, ghost tokens: seq<Token>)
    returns (r: Hold, granted: nat)
    requires Sound(t, hold, tokens) && c in t.parents && c !in hold.counts && |tokens| + |asks| < COUNT_SPACE
    requires forall i | 0 <= i < |asks| :: Covers(hold, RootOf(t, c), asks[i])
    ensures r == hold && granted == |asks|
  {
    NoEntryNoTokens(t, hold, c, tokens);
    r, granted := hold, 0;
    ghost var now := tokens;
    for i := 0 to |asks|
      invariant Sound(t, r, now) && |now| == |tokens| + i && granted == i && Added(tokens, now, c) && NothingBelow(t, r, c)
      invariant forall j | 0 <= j < |asks| :: Covers(r, RootOf(t, c), asks[j])
    {
      NestedGetSucceeds(t, r, c, asks[i], nonblocking);
      GetKeepsSound(t, r, now, c, asks[i], nonblocking);
      StillBare(t, r, c, asks[i], nonblocking);
      forall j | 0 <= j < |asks| ensures Covers(GetShard(t, r, c, asks[i], nonblocking).0, RootOf(t, c), asks[j]) {
        CoverKept(t, r, now, c, asks[i], nonblocking, asks[j]);
      }
      var (next, o) := GetShard(t, r, c, asks[i], nonblocking);
      if o.Got? { granted := granted + 1; }
      r, now := next, now + [Token(c, asks[i])];
    }
    ghost var mid, between := r, now;
    r, now := ClearShard(t, r, c, now);
    AllBack(t, hold, tokens, mid, between, r, now, c);
  }
}
