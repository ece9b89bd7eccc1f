/**
 Iteration over a hash map: bucket by bucket, page by page, entry by entry.
 */
module HashMapIterator {
  import opened EventLog
  import opened VersionNumber
  import opened PageChain
  import HashChain
  import opened HashMap

  // ---------------------------------------------------- what is visited, as a value

  /** The entries of the buckets from `b` on; `flats` lists each bucket's entries. */
  ghost function EntriesFrom(flats: seq<seq<Pair>>, b: nat): seq<Pair>
    decreases |flats| - b
  {
    if b >= |flats| then [] else flats[b] + EntriesFrom(flats, b + 1)
  }

  /** Each bucket lists its own keys, none twice. */
  ghost predicate FlatsOk(hash: Key -> nat, flats: seq<seq<Pair>>) {
    forall b | 0 <= b < |flats| ::
      && HashChain.Distinct(flats[b])
      && forall i | 0 <= i < |flats[b]| :: hash(flats[b][i].0) % NUM_BUCKETS == b
  }

  ghost predicate KeysFrom(hash: Key -> nat, es: seq<Pair>, b: nat) {
    forall i | 0 <= i < |es| :: hash(es[i].0) % NUM_BUCKETS >= b
  }

  lemma DistinctConcat(hash: Key -> nat, es: seq<Pair>, rest: seq<Pair>, b: nat)
    requires HashChain.Distinct(es) && HashChain.Distinct(rest)
    requires forall i | 0 <= i < |es| :: hash(es[i].0) % NUM_BUCKETS == b
    requires KeysFrom(hash, rest, b + 1)
    ensures HashChain.Distinct(es + rest) && KeysFrom(hash, es + rest, b)
  {
    var all := es + rest;
    forall i, j | 0 <= i < j < |all| ensures all[i].0 != all[j].0 {
      if j < |es| {
        assert es[i].0 != es[j].0;
      } else if i < |es| {
        assert all[j] == rest[j - |es|];
      } else {
        assert rest[i - |es|].0 != rest[j - |es|].0;
      }
    }
  }

  /** No key comes twice. */
  lemma {:induction false} EntriesAreDistinct(hash: Key -> nat, flats: seq<seq<Pair>>, b: nat)
    requires FlatsOk(hash, flats)
    ensures HashChain.Distinct(EntriesFrom(flats, b)) && KeysFrom(hash, EntriesFrom(flats, b), b)
    decreases |flats| - b
  {
    if b < |flats| {
      EntriesAreDistinct(hash, flats, b + 1);
      DistinctConcat(hash, flats[b], EntriesFrom(flats, b + 1), b);
    }
  }

  /** A pair comes exactly when the bucket of its key lists it. */
  lemma {:induction false} EntryInItsBucket(hash: Key -> nat, flats: seq<seq<Pair>>, b: nat, x: Pair)
    requires FlatsOk(hash, flats) && |flats| == NUM_BUCKETS
    ensures var home := hash(x.0) % NUM_BUCKETS; x in EntriesFrom(flats, b) <==> home >= b && x in flats[home]
    decreases |flats| - b
  {
    if b < |flats| {
      EntryInItsBucket(hash, flats, b + 1, x);
      assert x in flats[b] ==> hash(x.0) % NUM_BUCKETS == b;
    }
  }

  /** What is left of the visit at entry `pos` of page `depth` of bucket `b`. */
  ghost function RestOf(flats: seq<seq<Pair>>, cells: seq<Cell<Pair>>, b: nat, depth: nat, pos: nat): seq<Pair>
    requires depth < |cells| && pos <= |cells[depth].entries|
  {
    cells[depth].entries[pos..] + (Flat(cells[depth + 1..]) + EntriesFrom(flats, b + 1))
  }

  lemma RestAtBucket(flats: seq<seq<Pair>>, cells: seq<Cell<Pair>>, b: nat)
    requires b < |flats| && flats[b] == Flat(cells) && cells != []
    ensures RestOf(flats, cells, b, 0, 0) == EntriesFrom(flats, b)
  {
    assert cells[0].entries[0..] == cells[0].entries;
  }

  lemma RestAfterEntry(flats: seq<seq<Pair>>, cells: seq<Cell<Pair>>, b: nat, depth: nat, pos: nat)
    requires depth < |cells| && pos < |cells[depth].entries|
    ensures RestOf(flats, cells, b, depth, pos) ==
            [cells[depth].entries[pos]] + RestOf(flats, cells, b, depth, pos + 1)
  {
    var es := cells[depth].entries;
    assert es[pos..] == [es[pos]] + es[pos + 1..];
  }

  lemma RestAfterPage(flats: seq<seq<Pair>>, cells: seq<Cell<Pair>>, b: nat, depth: nat)
    requires depth + 1 < |cells|
    ensures RestOf(flats, cells, b, depth, |cells[depth].entries|) == RestOf(flats, cells, b, depth + 1, 0)
  {
    var rest := cells[depth + 1..];
    assert rest[0] == cells[depth + 1] && rest[1..] == cells[depth + 2..];
    assert rest[0].entries[0..] == rest[0].entries;
  }

  lemma RestAfterBucket(flats: seq<seq<Pair>>, cells: seq<Cell<Pair>>, b: nat)
    requires cells != []
    ensures RestOf(flats, cells, b, |cells| - 1, |cells[|cells| - 1].entries|) == EntriesFrom(flats, b + 1)
  {
  }

  // --------------------------------------------------------------------- the iterator

  ghost predicate BucketReadable(pages: Pages, bucket: Bucket, c: Chain) {
    && Threaded(pages, bucket.page, c)
    && forall i {:trigger pages[c[i]]} | 0 <= i < |c| :: pages[c[i]].cell.entries != []
  }

  /** What an iterator needs of a map: every bucket's chain can be followed, no page is empty. */
  ghost predicate AllReadable(pages: Pages, buckets: seq<Bucket>, chains: seq<Chain>) {
    && |buckets| == |chains| == NUM_BUCKETS
    && forall b {:trigger BucketReadable(pages, buckets[b], chains[b])} | 0 <= b < NUM_BUCKETS ::
         BucketReadable(pages, buckets[b], chains[b])
  }

  lemma ReadableAt(pages: Pages, buckets: seq<Bucket>, chains: seq<Chain>, b: nat)
    requires AllReadable(pages, buckets, chains) && b < NUM_BUCKETS
    ensures BucketReadable(pages, buckets[b], chains[b])
  {
  }

  /** The entries of every bucket. */
  ghost function FlatsOf(pages: Pages, buckets: seq<Bucket>, chains: seq<Chain>): seq<seq<Pair>>
    requires AllReadable(pages, buckets, chains)
  {
    seq(NUM_BUCKETS, b requires 0 <= b < NUM_BUCKETS =>
      ReadableAt(pages, buckets, chains, b); Flat(Cells(pages, chains[b])))
  }

  ghost predicate Readable(m: HashMap)
    reads m
  {
    AllReadable(m.pages, m.buckets, m.chains)
  }

  ghost function Flats(m: HashMap): seq<seq<Pair>>
    requires Readable(m)
    reads m
  {
    FlatsOf(m.pages, m.buckets, m.chains)
  }

  lemma ShapedIsReadable(m: HashMap)
    requires m.Shaped()
    ensures Readable(m) && FlatsOk(m.hash, Flats(m))
  {
    forall b | 0 <= b < NUM_BUCKETS
      ensures BucketReadable(m.pages, m.buckets[b], m.chains[b]) && BucketShaped(m.layout, m.hash, m.pages, m.buckets[b], m.chains[b], b)
    {
      BucketAt(m.layout, m.hash, m.pages, m.buckets, m.chains, b);
      forall i | 0 <= i < |m.chains[b]| ensures m.pages[m.chains[b][i]].cell.entries != [] {
        assert Cells(m.pages, m.chains[b])[i].entries != [];
      }
    }
  }

  /** The visit meets a pair exactly when the map binds the key to the value. */
  lemma EntriesAreBindings(m: HashMap, k: Key, v: EventId)
    requires m.Shaped() && Readable(m)
    ensures (k, v) in EntriesFrom(Flats(m), 0) <==> m.Binding(k) == Some(v)
  {
    var home := m.ToBucket(k);
    ShapedIsReadable(m);
    BucketAt(m.layout, m.hash, m.pages, m.buckets, m.chains, home);
    EntryInItsBucket(m.hash, Flats(m), 0, (k, v));
    BucketBindings(m.layout, m.hash, m.pages, m.buckets[home], m.chains[home], home, k, v);
  }

  /** A bucket lists a pair exactly when it is the key's bucket and looking the key up there finds the value. */
  lemma BucketBindings(l: Layout<Pair>, hash: Key -> nat, pages: Pages, bucket: Bucket, c: Chain, b: nat, k: Key, v: EventId)
    requires BucketShaped(l, hash, pages, bucket, c, b)
    ensures (k, v) in Flat(Cells(pages, c)) <==> hash(k) % NUM_BUCKETS == b && HashChain.Lookup(Cells(pages, c), k) == Some(v)
  {
    var es := Flat(Cells(pages, c));
    HashChain.LookupIsFind(Cells(pages, c), k);
    HashChain.FindHas(es, k);
    if (k, v) in es {
      var i :| 0 <= i < |es| && es[i] == (k, v);
      HashChain.FindIs(es, i);
    }
  }

  // -------------------------------------------------------------- version checks on the way

  /** The given pages are images, and one that passes its check is the present page. */
  ghost predicate AllTrusted(pages: Pages, buckets: seq<Bucket>, chains: seq<Chain>, loaded: Pages) {
    && loaded.Keys == pages.Keys && AllReadable(pages, buckets, chains)
    && forall b {:trigger BucketTrusted(pages, buckets[b], chains[b], loaded)} | 0 <= b < NUM_BUCKETS ::
         BucketTrusted(pages, buckets[b], chains[b], loaded)
  }

  ghost predicate BucketTrusted(pages: Pages, bucket: Bucket, c: Chain, loaded: Pages) {
    InStore(pages, c) && Trusted(pages, bucket.version, c, loaded)
  }

  lemma HonestIsAllTrusted(pages: Pages, buckets: seq<Bucket>, chains: seq<Chain>)
    requires AllReadable(pages, buckets, chains)
    ensures AllTrusted(pages, buckets, chains, pages)
  {
    forall b | 0 <= b < NUM_BUCKETS ensures BucketTrusted(pages, buckets[b], chains[b], pages) {
      ReadableAt(pages, buckets, chains, b);
      HonestIsTrusted(pages, buckets[b].version, chains[b]);
    }
  }

  /** Of a linked map, recent images will do. */
  lemma RecentIsAllTrusted(m: HashMap, loaded: Pages)
    requires m.Valid() && RecentImages(m.pages, m.history, loaded)
    ensures AllTrusted(m.pages, m.buckets, m.chains, loaded)
  {
    ShapedIsReadable(m);
    forall b | 0 <= b < NUM_BUCKETS ensures BucketTrusted(m.pages, m.buckets[b], m.chains[b], loaded) {
      ReadableAt(m.pages, m.buckets, m.chains, b);
      LinkedAt(m.pages, m.buckets, m.chains, b);
      RecentIsTrusted(m.pages, m.history, m.buckets[b].version, m.chains[b], loaded);
    }
  }

  /** Page `i` of bucket `b`, as given, has the version that the link to it expects. */
  ghost predicate LinkHolds(pages: Pages, buckets: seq<Bucket>, chains: seq<Chain>, loaded: Pages, b: nat, i: nat)
    requires AllReadable(pages, buckets, chains) && b < NUM_BUCKETS && i < |chains[b]|
  {
    ReadableAt(pages, buckets, chains, b);
    MatchAt(pages, buckets[b].version, chains[b], loaded, i)
  }

  /** Some page on the way of an iterator fails its check. */
  ghost predicate SomeLinkFails(pages: Pages, buckets: seq<Bucket>, chains: seq<Chain>, loaded: Pages, b: nat, i: nat) {
    AllReadable(pages, buckets, chains) && b < NUM_BUCKETS && i < |chains[b]| && !LinkHolds(pages, buckets, chains, loaded, b, i)
  }

  /** With every link in order and present pages, no check fails. */
  lemma LinkedNeverFails(pages: Pages, buckets: seq<Bucket>, chains: seq<Chain>, b: nat, i: nat)
    requires AllReadable(pages, buckets, chains) && AllLinked(pages, buckets, chains)
    ensures !SomeLinkFails(pages, buckets, chains, pages, b, i)
  {
    if b < NUM_BUCKETS && i < |chains[b]| {
      ReadableAt(pages, buckets, chains, b);
      LinkedAt(pages, buckets, chains, b);
      LinkedIff(buckets[b].version, Cells(pages, chains[b]));
      assert Matches(buckets[b].version, Cells(pages, chains[b]), i);
    }
  }

  /** The first bucket from `b` on that has pages. */
  ghost predicate NextUsed(chains: seq<Chain>, b: nat, r: nat) {
    && b <= r <= |chains| && (forall a | b <= a < r :: chains[a] == []) && (r < |chains| ==> chains[r] != [])
  }

  // ------------------------------------------------------------------ overwriting a value

  /** Page `j` of the chain when page `d` has stored and the pages from `i` on up to it have counted up. */
  ghost function OverwrittenPage(before: Pages, c: Chain, d: nat, i: nat, k: Key, v: EventId, j: nat): Page
    requires InStore(before, c) && j < |c|
  {
    var page := before[c[j]];
    if j == d then Page(HashChain.Store(page.cell, k, v), page.succ)
    else if i <= j < d then Page(Bump(page.cell), page.succ)
    else page
  }

  ghost predicate Overwriting(before: Pages, c: Chain, now: Pages, d: nat, i: nat, k: Key, v: EventId) {
    && InStore(before, c) && NoRepeats(c) && i <= d < |c| && now.Keys == before.Keys
    && (forall q | q in before && q !in c :: now[q] == before[q])
    && (forall j {:trigger now[c[j]]} | 0 <= j < |c| :: now[c[j]] == OverwrittenPage(before, c, d, i, k, v, j))
  }

  lemma OverwriteFirst(before: Pages, c: Chain, d: nat, k: Key, v: EventId)
    requires InStore(before, c) && NoRepeats(c) && d < |c|
    ensures Overwriting(before, c, before[c[d] := Page(HashChain.Store(before[c[d]].cell, k, v), before[c[d]].succ)], d, d, k, v)
  {
    var now := before[c[d] := Page(HashChain.Store(before[c[d]].cell, k, v), before[c[d]].succ)];
    forall j | 0 <= j < |c| ensures now[c[j]] == OverwrittenPage(before, c, d, d, k, v, j) {
      assert j != d ==> c[j] != c[d];
    }
  }

  lemma OverwriteUp(before: Pages, c: Chain, now: Pages, d: nat, i: nat, k: Key, v: EventId)
    requires Overwriting(before, c, now, d, i, k, v) && 0 < i
    ensures c[i - 1] in now && Overwriting(before, c, now[c[i - 1] := Page(Bump(now[c[i - 1]].cell), now[c[i - 1]].succ)], d, i - 1, k, v)
  {
    var p := c[i - 1];
    assert p in before && now[p] == OverwrittenPage(before, c, d, i, k, v, i - 1);
    var next := now[p := Page(Bump(now[p].cell), now[p].succ)];
    forall j | 0 <= j < |c| ensures next[c[j]] == OverwrittenPage(before, c, d, i - 1, k, v, j) {
      assert now[c[j]] == OverwrittenPage(before, c, d, i, k, v, j);
      assert j != i - 1 ==> c[j] != p;
    }
  }

  /** The chain of cells afterwards. */
  lemma OverwrittenCells(before: Pages, start: Option<PageNo>, c: Chain, after: Pages, d: nat, k: Key, v: EventId)
    requires Threaded(before, start, c) && Overwriting(before, c, after, d, 0, k, v)
    ensures Threaded(after, start, c) && Cells(after, c) == HashChain.SetValue(Cells(before, c), d, k, v)
  {
    forall j | 0 <= j < |c|
      ensures c[j] in after && after[c[j]].succ == After(c, j) && after[c[j]].cell == HashChain.SetValue(Cells(before, c), d, k, v)[j]
    {
      assert c[j] in before && after[c[j]] == OverwrittenPage(before, c, d, 0, k, v, j);
      assert before[c[j]].succ == After(c, j);
    }
  }

  lemma SetValueSameKeys(cells: seq<Cell<Pair>>, d: nat, k: Key, v: EventId)
    requires d < |cells| && HashChain.HasKey(cells[d].entries, k)
    ensures HashChain.SameKeysByPage(cells, HashChain.SetValue(cells, d, k, v))
  {
    var r := HashChain.SetValue(cells, d, k, v);
    forall j | 0 <= j < |cells| ensures HashChain.SameKeys(cells[j].entries, r[j].entries) {}
  }

  lemma SetValueShaped(l: Layout<Pair>, version: Version, cells: seq<Cell<Pair>>, d: nat, k: Key, v: EventId)
    requires HashChain.Sane(l) && HashChain.Shaped(l, version, cells) && d < |cells| && HashChain.HasKey(cells[d].entries, k)
    ensures HashChain.Shaped(l, Increment(version), HashChain.SetValue(cells, d, k, v))
    ensures HashChain.SameKeys(Flat(cells), Flat(HashChain.SetValue(cells, d, k, v)))
  {
    var r := HashChain.SetValue(cells, d, k, v);
    SetValueSameKeys(cells, d, k, v);
    assert EndsInZero(Increment(version), r);
    HashChain.SameKeysShaped(l, version, cells, Increment(version), r);
    HashChain.SameKeysFlat(cells, r);
  }

  /** The bucket keeps its shape. */
  lemma OverwrittenBucket(l: Layout<Pair>, hash: Key -> nat, before: Pages, bucket: Bucket, c: Chain, b: nat,
                          after: Pages, d: nat, k: Key, v: EventId)
    requires HashChain.Sane(l) && BucketShaped(l, hash, before, bucket, c, b) && d < |c|
    requires HashChain.HasKey(Cells(before, c)[d].entries, k)
    requires Threaded(after, bucket.page, c) && Cells(after, c) == HashChain.SetValue(Cells(before, c), d, k, v)
    ensures BucketShaped(l, hash, after, Bucket(bucket.page, Increment(bucket.version)), c, b)
  {
    SetValueShaped(l, bucket.version, Cells(before, c), d, k, v);
    SameHome(hash, Flat(Cells(before, c)), Flat(Cells(after, c)), b);
  }

  lemma SameHome(hash: Key -> nat, a: seq<Pair>, r: seq<Pair>, b: nat)
    requires HashChain.SameKeys(a, r) && forall i | 0 <= i < |a| :: hash(a[i].0) % NUM_BUCKETS == b
    ensures forall i | 0 <= i < |r| :: hash(r[i].0) % NUM_BUCKETS == b
  {
    forall i | 0 <= i < |r| ensures hash(r[i].0) % NUM_BUCKETS == b { assert a[i].0 == r[i].0; }
  }

  /** So do all buckets; the others hold the same cells. */
  lemma Overwritten(l: Layout<Pair>, hash: Key -> nat, before: Pages, buckets: seq<Bucket>, chains: seq<Chain>, b: nat,
                    after: Pages, d: nat, k: Key, v: EventId)
    requires HashChain.Sane(l) && AllShaped(l, hash, before, buckets, chains) && Apart(chains) && b < NUM_BUCKETS
    requires Overwriting(before, chains[b], after, d, 0, k, v) && HashChain.HasKey(before[chains[b][d]].cell.entries, k)
    ensures AllShaped(l, hash, after, buckets[b := Bucket(buckets[b].page, Increment(buckets[b].version))], chains)
    ensures InStore(after, chains[b]) && Cells(after, chains[b]) == HashChain.SetValue(Cells(before, chains[b]), d, k, v)
    ensures SameElsewhere(before, chains, after, chains, b)
  {
    var bucket := Bucket(buckets[b].page, Increment(buckets[b].version));
    BucketAt(l, hash, before, buckets, chains, b);
    OverwrittenCells(before, buckets[b].page, chains[b], after, d, k, v);
    OverwrittenBucket(l, hash, before, buckets[b], chains[b], b, after, d, k, v);
    assert OnlyBucket(before, chains, b, after, chains[b]);
    assert chains[b := chains[b]] == chains;
    AllShapedAfter(l, hash, before, buckets, chains, b, after, chains[b], bucket);
    ElsewhereKept(l, hash, before, buckets, chains, b, after, chains[b]);
  }

  /** A step from the end of the `n` pages so far of bucket `b` fails at the next page, or at the next bucket's first. */
  ghost predicate FailedAt(chains: seq<Chain>, b: nat, n: nat, bucket: nat, failed: nat) {
    if bucket == b then failed == n else failed == 0 && b < bucket && NextUsed(chains, b + 1, bucket) && |chains[b]| == n
  }

  class Iterator {
    const table: HashMap
    var bucket: nat
    var nodes: seq<PageNo>   // the pages of the bucket up to the one the iterator stands on
    var pos: nat

    ghost predicate Valid()
      reads this, table
    {
      && Readable(table) && bucket <= NUM_BUCKETS
      && (bucket < NUM_BUCKETS ==>
            && 0 < |nodes| <= |table.chains[bucket]| && nodes == table.chains[bucket][..|nodes|]
            && nodes[|nodes| - 1] in table.pages && pos < |table.pages[nodes[|nodes| - 1]].cell.entries|)
    }

    predicate AtEnd()
      reads this
    {
      bucket >= NUM_BUCKETS
    }

    /** The entry the iterator stands on. */
    function Current(): Pair
      requires Valid() && !AtEnd()
      reads this, table
    {
      table.pages[nodes[|nodes| - 1]].cell.entries[pos]
    }

    /** What is left to visit, the present entry first. */
    ghost function Rest(): seq<Pair>
      requires Valid()
      reads this, table
    {
      if bucket >= NUM_BUCKETS then []
      else
        assert BucketReadable(table.pages, table.buckets[bucket], table.chains[bucket]);
        RestOf(Flats(table), Cells(table.pages, table.chains[bucket]), bucket, |nodes| - 1, pos)
    }

    /** The present entry is the next one to visit, unless nothing is left. */
    lemma RestIsCurrent()
      requires Valid()
      ensures AtEnd() <==> Rest() == []
      ensures !AtEnd() ==> Rest()[0] == Current()
    {
    }

    /** Before the first bucket; `NextBucket` finds the first entry. */
    constructor (m: HashMap)
      ensures table == m && bucket == 0
    {
      table := m;
      bucket, nodes, pos := 0, [], 0;
    }

    /** `next_bucket`: the first page of the next bucket that has one, if it passes its check. */
    method NextBucket(loaded: Pages) returns (ok: bool)
      requires AllTrusted(table.pages, table.buckets, table.chains, loaded) && bucket <= NUM_BUCKETS
      modifies this
      ensures NextUsed(table.chains, old(bucket), bucket) && pos == 0
      ensures !ok ==> SomeLinkFails(table.pages, table.buckets, table.chains, loaded, bucket, 0)
      ensures ok ==> Valid() && (!AtEnd() ==> |nodes| == 1 && LinkHolds(table.pages, table.buckets, table.chains, loaded, bucket, 0))
      ensures ok ==> Rest() == EntriesFrom(Flats(table), old(bucket))
    {
      ghost var flats := Flats(table);
      nodes, pos := [], 0;
      while bucket < NUM_BUCKETS
        invariant old(bucket) <= bucket <= NUM_BUCKETS && pos == 0
        invariant forall a | old(bucket) <= a < bucket :: table.chains[a] == []
        invariant EntriesFrom(flats, bucket) == EntriesFrom(flats, old(bucket))
        decreases NUM_BUCKETS - bucket
      {
        ReadableAt(table.pages, table.buckets, table.chains, bucket);
        ghost var cells := Cells(table.pages, table.chains[bucket]);
        if table.buckets[bucket].page.Some? {
          var p := table.buckets[bucket].page.value;
          nodes := [p];
          assert BucketTrusted(table.pages, table.buckets[bucket], table.chains[bucket], loaded);
          assert Passing(table.pages, table.buckets[bucket].version, table.chains[bucket], loaded, 0);
          RestAtBucket(flats, cells, bucket);
          return loaded[p].cell.version == table.buckets[bucket].version;
        }
        assert flats[bucket] == Flat(cells) == [];
        bucket := bucket + 1;
      }
      return true;
    }

    /** `get_successor` at the end of a page: the next page of the bucket, if it passes its check. */
    method NextPage(loaded: Pages, ghost rest: seq<Pair>) returns (ok: bool)
      requires AllTrusted(table.pages, table.buckets, table.chains, loaded) && bucket < NUM_BUCKETS
      requires 0 < |nodes| < |table.chains[bucket]| && nodes == table.chains[bucket][..|nodes|]
      requires BucketReadable(table.pages, table.buckets[bucket], table.chains[bucket])
      requires pos == |table.pages[nodes[|nodes| - 1]].cell.entries|
      requires rest == RestOf(Flats(table), Cells(table.pages, table.chains[bucket]), bucket, |nodes| - 1, pos)
      modifies this
      ensures bucket == old(bucket) && |nodes| == old(|nodes|) + 1 && pos == 0 && Valid()
      ensures ok <==> LinkHolds(table.pages, table.buckets, table.chains, loaded, bucket, old(|nodes|))
      ensures Rest() == rest
    {
      var last := nodes[|nodes| - 1];
      assert table.pages[table.chains[bucket][|nodes| - 1]].succ == After(table.chains[bucket], |nodes| - 1);
      RestAfterPage(Flats(table), Cells(table.pages, table.chains[bucket]), bucket, |nodes| - 1);
      var succ := table.pages[last].succ.value;
      assert BucketTrusted(table.pages, table.buckets[bucket], table.chains[bucket], loaded);
      assert Passing(table.pages, table.buckets[bucket].version, table.chains[bucket], loaded, |nodes|);
      ok := loaded[succ].cell.version == table.pages[last].cell.succVersion;
      nodes, pos := nodes + [succ], 0;
    }

    /** The end of a page: on to the next page of the bucket, or to the next bucket. */
    method LeavePage(loaded: Pages, ghost rest: seq<Pair>) returns (ok: bool, ghost failed: nat)
      requires AllTrusted(table.pages, table.buckets, table.chains, loaded) && bucket < NUM_BUCKETS
      requires 0 < |nodes| <= |table.chains[bucket]| && nodes == table.chains[bucket][..|nodes|]
      requires BucketReadable(table.pages, table.buckets[bucket], table.chains[bucket])
      requires pos == |table.pages[nodes[|nodes| - 1]].cell.entries|
      requires rest == RestOf(Flats(table), Cells(table.pages, table.chains[bucket]), bucket, |nodes| - 1, pos)
      modifies this
      ensures ok ==> Valid() && Rest() == rest && Entered(old(bucket), old(|nodes|), loaded)
      ensures !ok ==> SomeLinkFails(table.pages, table.buckets, table.chains, loaded, bucket, failed)
      ensures !ok ==> FailedAt(table.chains, old(bucket), old(|nodes|), bucket, failed)
    {
      assert table.pages[table.chains[bucket][|nodes| - 1]].succ == After(table.chains[bucket], |nodes| - 1);
      failed := 0;
      if table.pages[nodes[|nodes| - 1]].succ.Some? {
        failed := |nodes|;
        ok := NextPage(loaded, rest);
      } else {
        RestAfterBucket(Flats(table), Cells(table.pages, table.chains[bucket]), bucket);
        bucket := bucket + 1;
        ok := NextBucket(loaded);
      }
    }

    /** The iterator has just moved to a new page: the next one of its bucket, or the first one of the next bucket with pages. */
    ghost predicate Entered(b: nat, n: nat, loaded: Pages)
      requires Valid() && b < NUM_BUCKETS
      reads this, table
    {
      && pos == 0
      && (!AtEnd() ==> LinkHolds(table.pages, table.buckets, table.chains, loaded, bucket, |nodes| - 1))
      && if n < |table.chains[b]| then bucket == b && |nodes| == n + 1
         else NextUsed(table.chains, b + 1, bucket) && (!AtEnd() ==> |nodes| == 1)
    }

    /** `operator++`: one entry further; a page that fails its check stops it. */
    method Next(loaded: Pages) returns (ok: bool, ghost failed: nat)
      requires Valid() && !AtEnd() && AllTrusted(table.pages, table.buckets, table.chains, loaded)
      modifies this
      ensures !ok ==> SomeLinkFails(table.pages, table.buckets, table.chains, loaded, bucket, failed)
      ensures ok ==> Valid() && old(Rest()) == [old(Current())] + Rest()
      ensures old(pos) + 1 < |table.pages[old(nodes[|nodes| - 1])].cell.entries| ==>
                ok && pos == old(pos) + 1 && bucket == old(bucket) && nodes == old(nodes)
      ensures old(pos) + 1 == |table.pages[old(nodes[|nodes| - 1])].cell.entries| && ok ==> Entered(old(bucket), old(|nodes|), loaded)
      ensures !ok ==> FailedAt(table.chains, old(bucket), old(|nodes|), bucket, failed)
    {
      ReadableAt(table.pages, table.buckets, table.chains, bucket);
      ghost var flats, cells := Flats(table), Cells(table.pages, table.chains[bucket]);
      RestAfterEntry(flats, cells, bucket, |nodes| - 1, pos);
      pos := pos + 1;
      ok, failed := true, 0;
      if pos >= |table.pages[nodes[|nodes| - 1]].cell.entries| {
        ok, failed := LeavePage(loaded, RestOf(flats, cells, bucket, |nodes| - 1, pos));
      }
    }

    /** The pages of `set_value`: store, then count up from there to the first page. */
    method Overwrite(key: Key, value: EventId, ghost c: Chain)
      requires table.PagesOk() && nodes != [] && |nodes| <= |c| && nodes == c[..|nodes|] && InStore(table.pages, c) && NoRepeats(c)
      modifies table
      ensures table.PagesOk() && table.chains == old(table.chains) && table.buckets == old(table.buckets) && table.size == old(table.size)
      ensures Overwriting(old(table.pages), c, table.pages, |nodes| - 1, 0, key, value)
    {
      ghost var before := table.pages;
      var d := |nodes| - 1;
      var last := nodes[d];
      assert last == c[d];
      OverwriteFirst(before, c, d, key, value);
      table.WritePage(last, Page(HashChain.Store(table.pages[last].cell, key, value), table.pages[last].succ));
      var i := d;
      while i > 0
        invariant i <= d && Overwriting(before, c, table.pages, d, i, key, value) && table.PagesOk()
        invariant table.chains == old(table.chains) && table.buckets == old(table.buckets) && table.size == old(table.size)
      {
        i := i - 1;
        var p := nodes[i];
        assert p == c[i];
        OverwriteUp(before, c, table.pages, d, i + 1, key, value);
        table.WritePage(p, Page(Bump(table.pages[p].cell), table.pages[p].succ));
      }
    }

    /**
     `set_value`: the present entry gets a new value.  Its page stores; the pages before it in the
     bucket count their own version up, but not the version they expect of their successor.
     */
    method SetValue(value: EventId)
      requires Valid() && !AtEnd() && table.Shaped()
      modifies table
      ensures table.Shaped() && table.chains == old(table.chains) && table.size == old(table.size)
      ensures table.buckets == old(table.buckets)[bucket := Bucket(old(table.buckets[bucket].page), Increment(old(table.buckets[bucket].version)))]
      ensures table.CellsOf(bucket) == HashChain.SetValue(old(table.CellsOf(bucket)), |nodes| - 1, old(Current()).0, value)
      ensures forall b | 0 <= b < NUM_BUCKETS && b != bucket :: table.CellsOf(b) == old(table.CellsOf(b))
    {
      ghost var before, c := table.pages, table.chains[bucket];
      var key := Current().0;
      BucketAt(table.layout, table.hash, table.pages, table.buckets, table.chains, bucket);
      assert nodes[|nodes| - 1] == c[|nodes| - 1];
      assert HashChain.HasKey(before[c[|nodes| - 1]].cell.entries, key);
      assert NoRepeats(c);
      Overwrite(key, value, c);
      Overwritten(table.layout, table.hash, before, table.buckets, table.chains, bucket, table.pages, |nodes| - 1, key, value);
      table.buckets := table.buckets[bucket := Bucket(table.buckets[bucket].page, Increment(table.buckets[bucket].version))];
    }
  }

  ghost function KeysOf(es: seq<Pair>): seq<Key> {
    seq(|es|, i requires 0 <= i < |es| => es[i].0)
  }

  lemma SeenOneMore(seen: seq<Pair>, entry: Pair, rest: seq<Pair>)
    ensures seen + ([entry] + rest) == (seen + [entry]) + rest
    ensures KeysOf(seen + [entry]) == KeysOf(seen) + [entry.0]
  {
  }

  /** Visit everything: the keys in order of the visit, unless a page fails its check. */
  method Scan(m: HashMap, loaded: Pages) returns (keys: Option<seq<Key>>)
    requires AllTrusted(m.pages, m.buckets, m.chains, loaded)
    ensures keys.Some? ==> keys.value == KeysOf(EntriesFrom(Flats(m), 0))
    ensures loaded == m.pages && AllLinked(m.pages, m.buckets, m.chains) ==> keys.Some?
  {
    var it := new Iterator(m);
    ghost var all, seen := EntriesFrom(Flats(m), 0), [];
    var got: seq<Key> := [];
    var ok := it.NextBucket(loaded);
    ghost var failed := 0;
    assert ok ==> seen + it.Rest() == it.Rest();
    while ok && !it.AtEnd()
      invariant it.table == m && fresh(it)
      invariant ok ==> it.Valid() && seen + it.Rest() == all && got == KeysOf(seen)
      invariant !ok ==> SomeLinkFails(m.pages, m.buckets, m.chains, loaded, it.bucket, failed)
      decreases ok, if ok then |it.Rest()| else 0
    {
      var entry := it.Current();
      ok, failed := it.Next(loaded);
      if ok { SeenOneMore(seen, entry, it.Rest()); }
      got, seen := got + [entry.0], seen + [entry];
    }
    if !ok {
      if loaded == m.pages && AllLinked(m.pages, m.buckets, m.chains) {
        LinkedNeverFails(m.pages, m.buckets, m.chains, it.bucket, failed);
      }
      return None;
    }
    it.RestIsCurrent();
    assert seen + [] == seen;
    return Some(got);
  }

  /**
   `LinearScanKeyProvider`: every bound key, each exactly once, or a staleness error; the scan ends.
   `loaded` is what the buffer manager returns for each page, as for a lookup.
   */
  method AllKeys(m: HashMap, loaded: Pages) returns (keys: Option<seq<Key>>)
    requires m.Valid() && RecentImages(m.pages, m.history, loaded)
    ensures keys.Some? ==> forall k :: k in keys.value <==> m.Binding(k).Some?
    ensures keys.Some? ==> forall i, j | 0 <= i < j < |keys.value| :: keys.value[i] != keys.value[j]
    ensures loaded == m.pages ==> keys.Some?
  {
    ShapedIsReadable(m);
    RecentIsAllTrusted(m, loaded);
    keys := Scan(m, loaded);
    if keys.Some? { ScannedKeys(m, keys.value); }
  }

  lemma ScannedKeys(m: HashMap, keys: seq<Key>)
    requires m.Shaped() && Readable(m) && keys == KeysOf(EntriesFrom(Flats(m), 0))
    ensures forall k :: k in keys <==> m.Binding(k).Some?
    ensures forall i, j | 0 <= i < j < |keys| :: keys[i] != keys[j]
  {
    var all := EntriesFrom(Flats(m), 0);
    ShapedIsReadable(m);
    EntriesAreDistinct(m.hash, Flats(m), 0);
    forall k ensures k in keys <==> m.Binding(k).Some? {
      if m.Binding(k).Some? {
        EntriesAreBindings(m, k, m.Binding(k).value);
        var i :| 0 <= i < |all| && all[i] == (k, m.Binding(k).value);
        assert keys[i] == k;
      }
      if k in keys {
        var i :| 0 <= i < |keys| && keys[i] == k;
        EntriesAreBindings(m, k, all[i].1);
      }
    }
  }
}
