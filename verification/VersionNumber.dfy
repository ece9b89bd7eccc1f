/**
 Sixteen-bit version numbers that wrap around, and the bucket updates an upstream node
 sends downstream.
 */
module VersionNumber {

  const MAX_VALUE: nat := 65535
  const WINDOW_SIZE: nat := MAX_VALUE / 2

  type Version = v: nat | v < MAX_VALUE

  function Increment(v: Version): Version {
    (v + 1) % MAX_VALUE
  }

  predicate Less(first: Version, second: Version) {
    if first == second then false
    else if first < second then second - first < WINDOW_SIZE
    else first - second > WINDOW_SIZE
  }

  /** The version number after `n` increments of zero. */
  function Count(n: nat): Version {
    n % MAX_VALUE
  }

  lemma CountNext(n: nat)
    ensures Count(n + 1) == Increment(Count(n))
  {
  }

  /** The version number `n` increments later. */
  function Plus(v: Version, n: nat): Version {
    (v + n) % MAX_VALUE
  }

  lemma PlusOne(v: Version, n: nat)
    ensures Plus(v, n + 1) == Increment(Plus(v, n))
  {
  }

  lemma PlusSameIff(v: Version, n: nat)
    ensures Plus(v, n) == v <==> n % MAX_VALUE == 0
  {
    SameVersionIff(v, v + n);
  }

  /** Two counts share a version number exactly when they are a multiple of the range apart. */
  lemma SameVersionIff(m: nat, n: nat)
    requires m <= n
    ensures Count(m) == Count(n) <==> (n - m) % 65535 == 0
  {
    var q, r := (n - m) / MAX_VALUE, (n - m) % MAX_VALUE;
    var k, a := m / MAX_VALUE, m % MAX_VALUE;
    if a + r < MAX_VALUE {
      RemainderIs(n, k + q, a + r);
    } else {
      RemainderIs(n, k + q + 1, a + r - MAX_VALUE);
    }
  }

  lemma RemainderIs(n: nat, q: nat, r: nat)
    requires n == q * MAX_VALUE + r && r < MAX_VALUE
    ensures n % MAX_VALUE == r
  {
  }

  lemma CountRepeats(m: nat, d: nat)
    ensures Count(m + d) == Count(m + d % MAX_VALUE)
  {
    SameVersionIff(m + d % MAX_VALUE, m + d);
  }

  /** Fewer than a full range of increments never repeat a version number. */
  lemma RecentVersionsDiffer(m: nat, n: nat)
    requires m <= n < m + MAX_VALUE
    ensures Count(m) == Count(n) ==> m == n
  {
    SameVersionIff(m, n);
  }

  /** Exactly which of two versions counts as older, however the counter has wrapped. */
  lemma LessIff(m: nat, n: nat)
    requires m < n < m + MAX_VALUE
    ensures Less(Count(m), Count(n)) <==>
              n - m < 32767 + (if Count(m) < Count(n) then 0 else 1)
    ensures Less(Count(n), Count(m)) <==>
              n - m > 32767 + (if Count(m) < Count(n) then 0 else 1)
  {
    var d := n - m;
    assert Count(n) == if Count(m) + d < MAX_VALUE then Count(m) + d else Count(m) + d - MAX_VALUE;
  }
}

module BucketUpdates {
  import opened VersionNumber

  datatype Bucket = Bucket(page: nat, version: Version)

  /** `apply_changes`: keep the present bucket if the update is outdated. */
  function Apply(cur: Bucket, update: Bucket): Bucket {
    if Less(update.version, cur.version) then cur else update
  }

  /** The updates `order` names, delivered one by one to a bucket in state `cur`. */
  function Deliver(cur: Bucket, updates: seq<Bucket>, order: seq<nat>): Bucket
    requires forall i | 0 <= i < |order| :: order[i] < |updates|
  {
    if order == [] then cur
    else Apply(Deliver(cur, updates, order[..|order| - 1]), updates[order[|order| - 1]])
  }

  /** The upstream bucket's states: each update increments its version once. */
  ghost predicate Stream(updates: seq<Bucket>, base: nat) {
    forall i | 0 <= i < |updates| :: updates[i].version == Count(base + i)
  }

  /** `newest` is the latest of the bucket's own state and the updates delivered to it. */
  ghost predicate IsNewest(first: nat, order: seq<nat>, newest: nat) {
    && (newest == first || exists i | 0 <= i < |order| :: order[i] == newest)
    && first <= newest && forall i | 0 <= i < |order| :: order[i] <= newest
  }

  /** All less than a window apart. */
  ghost predicate Close(first: nat, order: seq<nat>) {
    && (forall i | 0 <= i < |order| :: order[i] < first + WINDOW_SIZE && first < order[i] + WINDOW_SIZE)
    && (forall i, j | 0 <= i < |order| && 0 <= j < |order| :: order[i] < order[j] + WINDOW_SIZE)
  }

  /** Of two updates less than a window apart, the newer one wins in either order. */
  lemma NewerWins(updates: seq<Bucket>, base: nat, i: nat, j: nat)
    requires Stream(updates, base) && i < |updates| && j < |updates|
    requires i < j + WINDOW_SIZE && j < i + WINDOW_SIZE
    ensures Apply(updates[i], updates[j]) == updates[if i < j then j else i]
  {
    if i < j { LessIff(base + i, base + j); } else if j < i { LessIff(base + j, base + i); }
  }

  /**
   Whatever the delivery order, with repeats and across wrap-around: if the updates (and
   the bucket's own state) lie less than a window apart, the newest one stays.
   */
  lemma {:induction false} DeliveryOrderDoesNotMatter(updates: seq<Bucket>, base: nat, first: nat, order: seq<nat>, newest: nat)
    requires Stream(updates, base) && first < |updates|
    requires forall i | 0 <= i < |order| :: order[i] < |updates|
    requires Close(first, order) && IsNewest(first, order, newest)
    ensures newest < |updates| && Deliver(updates[first], updates, order) == updates[newest]
    decreases |order|
  {
    if order != [] {
      var before, last := order[..|order| - 1], order[|order| - 1];
      var sofar := NewestOf(first, before);
      DeliveryOrderDoesNotMatter(updates, base, first, before, sofar);
      NewerWins(updates, base, sofar, last);
    }
  }

  lemma {:induction false} NewestOf(first: nat, order: seq<nat>) returns (newest: nat)
    ensures IsNewest(first, order, newest)
    decreases |order|
  {
    newest := first;
    if order != [] {
      var before, last := order[..|order| - 1], order[|order| - 1];
      newest := NewestOf(first, before);
      if last > newest { newest := last; }
    }
  }

  /**
   Exactly when the newer of two updates wins in both orders, however far apart they are: when the
   distance modulo the version range is within the window or, if it is zero, when they are the same.
   */
  lemma NewerWinsIff(updates: seq<Bucket>, base: nat, i: nat, j: nat)
    requires Stream(updates, base) && i < j < |updates|
    ensures var r := (j - i) % MAX_VALUE;
            Apply(updates[i], updates[j]) == updates[j] && Apply(updates[j], updates[i]) == updates[j] <==>
            if r == 0 then updates[i] == updates[j]
            else r < WINDOW_SIZE + (if updates[i].version < updates[j].version then 0 else 1)
  {
    var r := (j - i) % MAX_VALUE;
    CountRepeats(base + i, j - i);
    if r != 0 {
      LessIff(base + i, base + i + r);
      RecentVersionsDiffer(base + i, base + i + r);
    }
  }

  /** One window apart is too far: an outdated update is taken for a new one. */
  lemma OutdatedUpdateAccepted(updates: seq<Bucket>)
    requires Stream(updates, 0) && WINDOW_SIZE < |updates|
    ensures Deliver(updates[0], updates, [WINDOW_SIZE, 0]) == updates[0] != updates[WINDOW_SIZE]
  {
    var order := [WINDOW_SIZE, 0];
    assert order[..1] == [WINDOW_SIZE] && order[..1][..0] == [];
    LessIff(0, WINDOW_SIZE);
    assert Deliver(updates[0], updates, order[..1]) == Apply(updates[0], updates[WINDOW_SIZE]);
  }

  /** The states an upstream bucket goes through, the one the copy began with, and those delivered since, in order of arrival. */
  datatype Feed = Feed(updates: seq<Bucket>, base: nat, first: nat, order: seq<nat>)

  ghost predicate Fed(f: Feed, bucket: Bucket) {
    && Stream(f.updates, f.base) && f.first < |f.updates| && (forall i | 0 <= i < |f.order| :: f.order[i] < |f.updates|)
    && bucket == Deliver(f.updates[f.first], f.updates, f.order)
  }

  /** The bucket is the newest of the states it began with and was sent. */
  ghost predicate UpToDate(f: Feed, bucket: Bucket) {
    forall newest: nat | IsNewest(f.first, f.order, newest) :: newest < |f.updates| && bucket == f.updates[newest]
  }

  lemma FedIsUpToDate(f: Feed, bucket: Bucket)
    requires Fed(f, bucket) && Close(f.first, f.order)
    ensures UpToDate(f, bucket)
  {
    forall newest: nat | IsNewest(f.first, f.order, newest) ensures newest < |f.updates| && bucket == f.updates[newest] {
      DeliveryOrderDoesNotMatter(f.updates, f.base, f.first, f.order, newest);
    }
  }

  /** The root of a downstream copy of a map. */
  class DownstreamRoot {
    var buckets: seq<Bucket>
    ghost var feeds: seq<Feed>

    ghost predicate Valid()
      reads this
    {
      |feeds| == |buckets| && forall b | 0 <= b < |buckets| :: Fed(feeds[b], buckets[b])
    }

    /** `load_root`: every bucket in some state of its upstream bucket. */
    constructor (buckets: seq<Bucket>, ghost feeds: seq<Feed>)
      requires |feeds| == |buckets|
      requires forall b | 0 <= b < |buckets| :: feeds[b].order == [] && Fed(feeds[b], buckets[b])
      ensures Valid() && this.buckets == buckets && this.feeds == feeds
    {
      this.buckets, this.feeds := buckets, feeds;
    }

    /**
     `apply_changes`: whatever the order of arrival, and however the versions have wrapped, the bucket
     is the newest state it was sent as long as all of them lie less than a window apart.
     */
    method ApplyChanges(bid: nat, update: Bucket, ghost i: nat)
      requires Valid() && bid < |buckets| && i < |feeds[bid].updates| && update == feeds[bid].updates[i]
      modifies this
      ensures Valid() && feeds == old(feeds)[bid := old(feeds[bid]).(order := old(feeds[bid]).order + [i])]
      ensures Close(feeds[bid].first, feeds[bid].order) ==> UpToDate(feeds[bid], buckets[bid])
      ensures buckets == old(buckets)[bid := buckets[bid]]
    {
      ghost var f := feeds[bid];
      ghost var g := f.(order := f.order + [i]);
      assert Fed(f, buckets[bid]);
      assert g.order[..|f.order|] == f.order;
      feeds := feeds[bid := g];
      if !Less(update.version, buckets[bid].version) {
        buckets := buckets[bid := update];
      }
      assert Fed(g, buckets[bid]);
      if Close(g.first, g.order) { FedIsUpToDate(g, buckets[bid]); }
    }
  }
}
