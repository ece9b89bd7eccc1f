/**
 Overwriting values in a walk over a whole hash map, as clearing a collection does to its
 primary index: what every key is bound to afterwards, and when the map can still be read.
 */
module HashMapClear {
  import opened EventLog
  import opened VersionNumber
  import opened PageChain
  import HashChain
  import opened HashMap
  import opened HashMapIterator

  /** The new value of an entry, if it gets one. */
  type Replacer = Pair -> Option<EventId>

  /** A bucket's version and the cells of its pages. */
  datatype Strand = Strand(version: Version, cells: seq<Cell<Pair>>)

  ghost function StrandsOf(l: Layout<Pair>, hash: Key -> nat, pages: Pages, buckets: seq<Bucket>, chains: seq<Chain>): seq<Strand>
    requires AllShaped(l, hash, pages, buckets, chains)
  {
    seq(NUM_BUCKETS, b requires 0 <= b < NUM_BUCKETS =>
      BucketAt(l, hash, pages, buckets, chains, b); Strand(buckets[b].version, Cells(pages, chains[b])))
  }

  ghost function Strands(m: HashMap): (r: seq<Strand>)
    requires m.Shaped()
    reads m
    ensures |r| == NUM_BUCKETS && forall b {:trigger r[b]} | 0 <= b < NUM_BUCKETS :: r[b] == Strand(m.buckets[b].version, m.CellsOf(b))
  {
    StrandsOf(m.layout, m.hash, m.pages, m.buckets, m.chains)
  }

  /** What a key is bound to. */
  ghost function Bound(hash: Key -> nat, strands: seq<Strand>, k: Key): Option<EventId>
    requires |strands| == NUM_BUCKETS
  {
    HashChain.Lookup(strands[hash(k) % NUM_BUCKETS].cells, k)
  }

  lemma BoundIsBinding(m: HashMap, k: Key)
    requires m.Shaped()
    ensures Bound(m.hash, Strands(m), k) == m.Binding(k)
  {
  }

  /** One key has a new value, if there is one; the others have theirs. */
  ghost predicate Rebound(hash: Key -> nat, olds: seq<Strand>, nows: seq<Strand>, key: Key, value: Option<EventId>) {
    && |olds| == |nows| == NUM_BUCKETS
    && forall k {:trigger Bound(hash, nows, k)} :: Bound(hash, nows, k) == if value.Some? && k == key then value else Bound(hash, olds, k)
  }

  /** No page holds a key twice, and none is empty. */
  ghost predicate Proper(s: Strand) {
    forall i {:trigger s.cells[i]} | 0 <= i < |s.cells| :: HashChain.Distinct(s.cells[i].entries) && s.cells[i].entries != []
  }

  lemma {:induction false} PagesDistinct(cells: seq<Cell<Pair>>, i: nat)
    requires HashChain.Distinct(Flat(cells)) && i < |cells|
    ensures HashChain.Distinct(cells[i].entries)
    decreases i
  {
    HashChain.DistinctParts(cells[0].entries, Flat(cells[1..]));
    if i > 0 { PagesDistinct(cells[1..], i - 1); }
  }

  lemma StrandIsProper(m: HashMap, b: nat)
    requires m.Shaped() && b < NUM_BUCKETS
    ensures Proper(Strands(m)[b]) && |Strands(m)[b].cells| == |m.chains[b]|
  {
    BucketAt(m.layout, m.hash, m.pages, m.buckets, m.chains, b);
    forall i | 0 <= i < |m.CellsOf(b)| ensures HashChain.Distinct(m.CellsOf(b)[i].entries) && m.CellsOf(b)[i].entries != [] {
      PagesDistinct(m.CellsOf(b), i);
    }
  }

  // ------------------------------------------------------------------ the walk, as a value

  ghost predicate At(s: Strand, d: nat, pos: nat) {
    d < |s.cells| && pos <= |s.cells[d].entries|
  }

  /** The strand when the walk stands at entry `pos` of page `d`. */
  ghost function WalkedStrand(next: Replacer, s: Strand, d: nat, pos: nat): Strand
    requires At(s, d, pos)
  {
    Strand(Plus(s.version, HashChain.Ups(next, s.cells, d, pos, 0)), HashChain.Walked(next, s.cells, d, pos))
  }

  /** The strand when the walk has left it. */
  ghost function ReplacedStrand(next: Replacer, s: Strand): Strand {
    Strand(Plus(s.version, HashChain.HitsIn(next, s.cells, 0, |s.cells|)), HashChain.Replaced(next, s.cells))
  }

  /** Bucket `a` when the walk is in bucket `b`. */
  ghost predicate StageAt(next: Replacer, olds: seq<Strand>, nows: seq<Strand>, b: nat, d: nat, pos: nat, a: nat)
    requires |olds| == |nows| == NUM_BUCKETS && a < NUM_BUCKETS && (b < NUM_BUCKETS ==> At(olds[b], d, pos))
  {
    nows[a] == if a < b then ReplacedStrand(next, olds[a]) else if a == b then WalkedStrand(next, olds[b], d, pos) else olds[a]
  }

  /** The walk stands at entry `pos` of page `d` of bucket `b`: what is behind it is replaced, what is ahead is as it was. */
  ghost predicate Stage(next: Replacer, olds: seq<Strand>, nows: seq<Strand>, b: nat, d: nat, pos: nat) {
    && |olds| == |nows| == NUM_BUCKETS && b <= NUM_BUCKETS && (b < NUM_BUCKETS ==> At(olds[b], d, pos))
    && forall a {:trigger StageAt(next, olds, nows, b, d, pos, a)} | 0 <= a < NUM_BUCKETS :: StageAt(next, olds, nows, b, d, pos, a)
  }

  lemma EmptyStrand(next: Replacer, s: Strand)
    requires s.cells == []
    ensures ReplacedStrand(next, s) == s
  {
    assert HashChain.HitsIn(next, s.cells, 0, 0) == 0;
  }

  lemma StartOfStrand(next: Replacer, s: Strand)
    requires s.cells != []
    ensures At(s, 0, 0) && WalkedStrand(next, s, 0, 0) == s
  {
    HashChain.WalkStarts(next, s.cells);
  }

  /** The buckets from `b` on up to `r` have no pages, and `r` has some. */
  ghost predicate NextUsedStrand(strands: seq<Strand>, b: nat, r: nat) {
    && b <= r <= |strands| && (forall a | b <= a < r :: strands[a].cells == []) && (r < |strands| ==> strands[r].cells != [])
  }

  lemma StageStart(next: Replacer, olds: seq<Strand>, b: nat)
    requires |olds| == NUM_BUCKETS && NextUsedStrand(olds, 0, b)
    ensures Stage(next, olds, olds, b, 0, 0)
  {
    if b < NUM_BUCKETS { StartOfStrand(next, olds[b]); }
    forall a | 0 <= a < NUM_BUCKETS ensures StageAt(next, olds, olds, b, 0, 0, a) {
      if a < b { EmptyStrand(next, olds[a]); }
    }
  }

  /** Only bucket `b` moves on. */
  lemma StageMoves(next: Replacer, olds: seq<Strand>, nows: seq<Strand>, b: nat, d: nat, pos: nat, after: seq<Strand>, e: nat, q: nat)
    requires b < NUM_BUCKETS && Stage(next, olds, nows, b, d, pos) && At(olds[b], e, q) && |after| == NUM_BUCKETS
    requires after[b] == WalkedStrand(next, olds[b], e, q) && forall a | 0 <= a < NUM_BUCKETS && a != b :: after[a] == nows[a]
    ensures Stage(next, olds, after, b, e, q)
  {
    forall a | 0 <= a < NUM_BUCKETS ensures StageAt(next, olds, after, b, e, q, a) {
      assert StageAt(next, olds, nows, b, d, pos, a);
    }
  }

  lemma StageHere(next: Replacer, olds: seq<Strand>, nows: seq<Strand>, b: nat, d: nat, pos: nat)
    requires b < NUM_BUCKETS && Stage(next, olds, nows, b, d, pos)
    ensures nows[b] == WalkedStrand(next, olds[b], d, pos)
  {
    assert StageAt(next, olds, nows, b, d, pos, b);
  }

  lemma StageOver(next: Replacer, olds: seq<Strand>, nows: seq<Strand>, b: nat, d: nat, pos: nat)
    requires b < NUM_BUCKETS && Stage(next, olds, nows, b, d, pos) && pos < |olds[b].cells[d].entries|
    requires next(olds[b].cells[d].entries[pos]).None?
    ensures Stage(next, olds, nows, b, d, pos + 1)
  {
    StageHere(next, olds, nows, b, d, pos);
    HashChain.WalkOver(next, olds[b].cells, d, pos);
    StageMoves(next, olds, nows, b, d, pos, nows, d, pos + 1);
  }

  lemma StageStore(next: Replacer, olds: seq<Strand>, nows: seq<Strand>, b: nat, d: nat, pos: nat, after: seq<Strand>)
    requires b < NUM_BUCKETS && Stage(next, olds, nows, b, d, pos) && pos < |olds[b].cells[d].entries|
    requires HashChain.Distinct(olds[b].cells[d].entries) && next(olds[b].cells[d].entries[pos]).Some? && |after| == NUM_BUCKETS
    requires var e := olds[b].cells[d].entries[pos];
             |nows[b].cells| > d && after[b] == Strand(Increment(nows[b].version), HashChain.SetValue(nows[b].cells, d, e.0, next(e).value))
    requires forall a | 0 <= a < NUM_BUCKETS && a != b :: after[a] == nows[a]
    ensures Stage(next, olds, after, b, d, pos + 1)
  {
    StageHere(next, olds, nows, b, d, pos);
    HashChain.WalkStore(next, olds[b].cells, d, pos);
    PlusOne(olds[b].version, HashChain.Ups(next, olds[b].cells, d, pos, 0));
    StageMoves(next, olds, nows, b, d, pos, after, d, pos + 1);
  }

  lemma StageNextPage(next: Replacer, olds: seq<Strand>, nows: seq<Strand>, b: nat, d: nat)
    requires |olds| == NUM_BUCKETS && b < NUM_BUCKETS && d + 1 < |olds[b].cells| && Stage(next, olds, nows, b, d, |olds[b].cells[d].entries|)
    ensures Stage(next, olds, nows, b, d + 1, 0)
  {
    StageHere(next, olds, nows, b, d, |olds[b].cells[d].entries|);
    HashChain.WalkNextPage(next, olds[b].cells, d);
    StageMoves(next, olds, nows, b, d, |olds[b].cells[d].entries|, nows, d + 1, 0);
  }

  lemma StageNextBucket(next: Replacer, olds: seq<Strand>, nows: seq<Strand>, b: nat, d: nat, r: nat)
    requires |olds| == NUM_BUCKETS && b < NUM_BUCKETS && d + 1 == |olds[b].cells| && Stage(next, olds, nows, b, d, |olds[b].cells[d].entries|)
    requires NextUsedStrand(olds, b + 1, r)
    ensures Stage(next, olds, nows, r, 0, 0)
  {
    HashChain.WalkEnds(next, olds[b].cells, d);
    if r < NUM_BUCKETS { StartOfStrand(next, olds[r]); }
    forall a | 0 <= a < NUM_BUCKETS ensures StageAt(next, olds, nows, r, 0, 0, a) {
      assert StageAt(next, olds, nows, b, d, |olds[b].cells[d].entries|, a);
      if b < a < r { EmptyStrand(next, olds[a]); }
    }
  }

  // --------------------------------------------------------------------------- the links

  /** Page `i` of the strand has the version that the link to it expects. */
  ghost predicate Holds(s: Strand, i: nat) {
    i < |s.cells| && Matches(s.version, s.cells, i)
  }

  ghost predicate AllHold(s: Strand) {
    forall i | 0 <= i < |s.cells| :: Holds(s, i)
  }

  /** Every link the walk has followed on its way was in order before. */
  ghost predicate Followed(olds: seq<Strand>, b: nat, d: nat) {
    && |olds| == NUM_BUCKETS && b <= NUM_BUCKETS
    && (forall a | 0 <= a < b :: AllHold(olds[a]))
    && (b < NUM_BUCKETS ==> forall i | 0 <= i <= d :: Holds(olds[b], i))
  }

  /** A link ahead of the walk holds exactly if it did before. */
  lemma LinkAhead(next: Replacer, olds: seq<Strand>, nows: seq<Strand>, b: nat, d: nat, pos: nat, a: nat, i: nat)
    requires b < NUM_BUCKETS && Stage(next, olds, nows, b, d, pos) && b <= a < NUM_BUCKETS && (a == b ==> d < i)
    ensures Holds(nows[a], i) <==> Holds(olds[a], i)
  {
    assert StageAt(next, olds, nows, b, d, pos, a);
    if a == b && i < |olds[b].cells| {
      assert nows[b].cells[i] == HashChain.WalkedCell(next, olds[b].cells, d, pos, i);
      assert nows[b].cells[i - 1] == HashChain.WalkedCell(next, olds[b].cells, d, pos, i - 1);
    }
  }

  /** A check that passed was of a link that holds. */
  lemma HoldsIs(m: HashMap, b: nat, i: nat)
    requires m.Shaped() && Readable(m) && b < NUM_BUCKETS && i < |m.chains[b]|
    ensures LinkHolds(m.pages, m.buckets, m.chains, m.pages, b, i) <==> Holds(Strands(m)[b], i)
  {
    ReadableAt(m.pages, m.buckets, m.chains, b);
  }

  lemma ValidIffAllHold(m: HashMap)
    requires m.Shaped()
    ensures m.Valid() <==> forall b | 0 <= b < NUM_BUCKETS :: AllHold(Strands(m)[b])
  {
    var strands := Strands(m);
    forall b | 0 <= b < NUM_BUCKETS ensures BucketLinked(m.pages, m.buckets[b], m.chains[b]) <==> AllHold(strands[b]) {
      BucketAt(m.layout, m.hash, m.pages, m.buckets, m.chains, b);
      StrandLinkedIff(strands[b]);
    }
    if m.Valid() {
      forall b | 0 <= b < NUM_BUCKETS ensures AllHold(strands[b]) { LinkedAt(m.pages, m.buckets, m.chains, b); }
    }
  }

  lemma StrandLinkedIff(s: Strand)
    requires EndsInZero(s.version, s.cells)
    ensures Linked(s.version, s.cells) <==> AllHold(s)
  {
    LinkedIff(s.version, s.cells);
    if AllHold(s) { forall i | 0 <= i < |s.cells| ensures Matches(s.version, s.cells, i) { assert Holds(s, i); } }
  }

  // ----------------------------------------------------------------- how far the walk gets

  ghost predicate KeyAt(s: Strand, i: nat, k: Key) {
    i < |s.cells| && HashChain.HasKey(s.cells[i].entries, k)
  }

  /** The walk gets to the key's page: every link on the way there is in order. */
  ghost predicate GetsTo(olds: seq<Strand>, k: Key) {
    exists b, i {:trigger KeyAt(olds[b], i, k)} | 0 <= b < |olds| && 0 <= i :: KeyAt(olds[b], i, k) && Followed(olds, b, i)
  }

  /** The entries of the first `b` buckets. */
  ghost function FlatsUpTo(olds: seq<Strand>, b: nat): seq<Pair>
    requires b <= |olds|
  {
    if b == 0 then [] else FlatsUpTo(olds, b - 1) + Flat(olds[b - 1].cells)
  }

  /** The entries before page `n` of bucket `b`. */
  ghost function Front(olds: seq<Strand>, b: nat, n: nat): seq<Pair>
    requires b <= |olds| && (b < |olds| ==> n <= |olds[b].cells|)
  {
    FlatsUpTo(olds, b) + if b < |olds| then Flat(olds[b].cells[..n]) else []
  }

  /** The entries the walk has met when it stands at entry `pos` of page `d` of bucket `b`. */
  ghost function Visited(olds: seq<Strand>, b: nat, d: nat, pos: nat): seq<Pair>
    requires b <= |olds| && (b < |olds| ==> At(olds[b], d, pos))
  {
    if b < |olds| then Front(olds, b, d) + olds[b].cells[d].entries[..pos] else Front(olds, b, 0)
  }

  lemma FlatSnoc(cells: seq<Cell<Pair>>, n: nat)
    requires n < |cells|
    ensures Flat(cells[..n + 1]) == Flat(cells[..n]) + cells[n].entries
  {
    var last := [cells[n]];
    assert cells[..n + 1] == cells[..n] + last && last[1..] == [];
    FlatConcat(cells[..n], last);
  }

  lemma VisitedEntry(olds: seq<Strand>, b: nat, d: nat, pos: nat)
    requires b < |olds| && At(olds[b], d, pos + 1)
    ensures Visited(olds, b, d, pos + 1) == Visited(olds, b, d, pos) + [olds[b].cells[d].entries[pos]]
  {
    var es := olds[b].cells[d].entries;
    assert es[..pos + 1] == es[..pos] + [es[pos]];
  }

  lemma VisitedStart(olds: seq<Strand>, b: nat, d: nat)
    requires b < |olds| && d < |olds[b].cells|
    ensures Visited(olds, b, d, 0) == Front(olds, b, d)
  {
  }

  lemma VisitedPage(olds: seq<Strand>, b: nat, d: nat)
    requires b < |olds| && d < |olds[b].cells|
    ensures Visited(olds, b, d, |olds[b].cells[d].entries|) == Front(olds, b, d + 1)
  {
    var cells := olds[b].cells;
    FlatSnoc(cells, d);
    assert cells[d].entries[..|cells[d].entries|] == cells[d].entries;
    assert FlatsUpTo(olds, b) + (Flat(cells[..d]) + cells[d].entries) == (FlatsUpTo(olds, b) + Flat(cells[..d])) + cells[d].entries;
  }

  lemma {:induction false} EmptyBuckets(olds: seq<Strand>, b: nat, r: nat)
    requires NextUsedStrand(olds, b, r)
    ensures FlatsUpTo(olds, r) == FlatsUpTo(olds, b)
    decreases r - b
  {
    if b < r {
      EmptyBuckets(olds, b + 1, r);
      assert Flat(olds[b].cells) == [];
    }
  }

  /** From the end of a bucket on to the next one that has pages. */
  lemma FrontBucket(olds: seq<Strand>, b: nat, r: nat)
    requires b < |olds| && NextUsedStrand(olds, b + 1, r)
    ensures Front(olds, r, 0) == Front(olds, b, |olds[b].cells|)
  {
    EmptyBuckets(olds, b + 1, r);
    assert olds[b].cells[..|olds[b].cells|] == olds[b].cells;
  }

  lemma FrontFirst(olds: seq<Strand>, r: nat)
    requires NextUsedStrand(olds, 0, r)
    ensures Front(olds, r, 0) == []
  {
    EmptyBuckets(olds, 0, r);
  }

  lemma {:induction false} FlatsGrow(olds: seq<Strand>, b: nat, r: nat)
    requires b <= r <= |olds|
    ensures FlatsUpTo(olds, b) <= FlatsUpTo(olds, r)
    decreases r - b
  {
    if b < r { FlatsGrow(olds, b, r - 1); }
  }

  lemma {:induction false} FlatGrows(cells: seq<Cell<Pair>>, n: nat)
    requires n <= |cells|
    ensures Flat(cells[..n]) <= Flat(cells)
  {
    assert cells == cells[..n] + cells[n..];
    FlatConcat(cells[..n], cells[n..]);
  }

  lemma PrefixUnder(a: seq<Pair>, b: seq<Pair>, c: seq<Pair>)
    requires b <= c
    ensures a + b <= a + c
  {
  }

  lemma PrefixTrans(a: seq<Pair>, b: seq<Pair>, c: seq<Pair>)
    requires a <= b <= c
    ensures a <= c
  {
  }

  /** What has been met comes first among all the entries. */
  lemma VisitedFirst(olds: seq<Strand>, b: nat, d: nat, pos: nat)
    requires b < |olds| && At(olds[b], d, pos)
    ensures Visited(olds, b, d, pos) <= FlatsUpTo(olds, |olds|)
  {
    var cells := olds[b].cells;
    var page := Visited(olds, b, d, |cells[d].entries|);
    PrefixUnder(Front(olds, b, d), cells[d].entries[..pos], cells[d].entries[..|cells[d].entries|]);
    VisitedPage(olds, b, d);
    FlatGrows(cells, d + 1);
    PrefixUnder(FlatsUpTo(olds, b), Flat(cells[..d + 1]), Flat(cells));
    FlatsGrow(olds, b + 1, |olds|);
    PrefixTrans(Visited(olds, b, d, pos), page, FlatsUpTo(olds, b + 1));
    PrefixTrans(Visited(olds, b, d, pos), FlatsUpTo(olds, b + 1), FlatsUpTo(olds, |olds|));
  }

  ghost function FlatsIn(olds: seq<Strand>): seq<seq<Pair>> {
    seq(|olds|, b requires 0 <= b < |olds| => Flat(olds[b].cells))
  }

  lemma {:induction false} FlatsAreEntries(olds: seq<Strand>, b: nat)
    requires b <= |olds|
    ensures FlatsUpTo(olds, b) + EntriesFrom(FlatsIn(olds), b) == EntriesFrom(FlatsIn(olds), 0)
  {
    if b > 0 {
      FlatsAreEntries(olds, b - 1);
      var flats := FlatsIn(olds);
      assert EntriesFrom(flats, b - 1) == flats[b - 1] + EntriesFrom(flats, b);
      assert FlatsUpTo(olds, b - 1) + (flats[b - 1] + EntriesFrom(flats, b)) == FlatsUpTo(olds, b) + EntriesFrom(flats, b);
    }
  }

  /** All the entries of a map, in the order of the walk: no key twice. */
  lemma AllAreDistinct(m: HashMap)
    requires m.Shaped()
    ensures HashChain.Distinct(FlatsUpTo(Strands(m), NUM_BUCKETS))
  {
    var olds := Strands(m);
    ShapedIsReadable(m);
    FlatsAreEntries(olds, NUM_BUCKETS);
    assert FlatsIn(olds) == Flats(m) by {
      forall b | 0 <= b < NUM_BUCKETS ensures Flats(m)[b] == Flat(olds[b].cells) { ReadableAt(m.pages, m.buckets, m.chains, b); }
    }
    assert FlatsUpTo(olds, NUM_BUCKETS) + [] == FlatsUpTo(olds, NUM_BUCKETS);
    EntriesAreDistinct(m.hash, Flats(m), 0);
  }

  /** A key that is bound is on some page. */
  lemma BoundIsKept(m: HashMap, k: Key)
    requires m.Shaped() && m.Binding(k).Some?
    ensures KeyIn(Strands(m)[m.ToBucket(k)], k)
  {
    var s := Strands(m)[m.ToBucket(k)];
    HashChain.LookupIsFind(s.cells, k);
    HashChain.FindHas(Flat(s.cells), k);
    StrandHas(s, k);
  }

  lemma {:induction false} FlatHas(s: Strand, n: nat, k: Key)
    requires n <= |s.cells|
    ensures HashChain.HasKey(Flat(s.cells[..n]), k) <==> exists i | 0 <= i < n :: KeyAt(s, i, k)
  {
    if n > 0 {
      FlatHas(s, n - 1, k);
      FlatSnoc(s.cells, n - 1);
      HashChain.HasKeyConcat(Flat(s.cells[..n - 1]), s.cells[n - 1].entries, k);
      assert HashChain.HasKey(s.cells[n - 1].entries, k) <==> KeyAt(s, n - 1, k);
    }
  }

  ghost predicate KeyIn(s: Strand, k: Key) {
    exists i | 0 <= i < |s.cells| :: KeyAt(s, i, k)
  }

  lemma StrandHas(s: Strand, k: Key)
    ensures HashChain.HasKey(Flat(s.cells), k) <==> KeyIn(s, k)
  {
    FlatHas(s, |s.cells|, k);
    assert s.cells[..|s.cells|] == s.cells;
  }

  lemma {:induction false} FlatsHave(olds: seq<Strand>, b: nat, k: Key)
    requires b <= |olds|
    ensures HashChain.HasKey(FlatsUpTo(olds, b), k) <==> exists a {:trigger KeyIn(olds[a], k)} | 0 <= a < b :: KeyIn(olds[a], k)
  {
    if b > 0 {
      FlatsHave(olds, b - 1, k);
      StrandHas(olds[b - 1], k);
      HashChain.HasKeyConcat(FlatsUpTo(olds, b - 1), Flat(olds[b - 1].cells), k);
    }
  }

  /** The walk cannot get past page `n` of bucket `b`: its link is broken, or everything is behind. */
  ghost predicate Blocked(olds: seq<Strand>, b: nat, n: nat) {
    && |olds| == NUM_BUCKETS && b <= NUM_BUCKETS && (forall a | 0 <= a < b :: AllHold(olds[a]))
    && (b < NUM_BUCKETS ==> n < |olds[b].cells| && (forall i | 0 <= i < n :: Holds(olds[b], i)) && !Holds(olds[b], n))
  }

  /** Then it has met exactly the keys it gets to. */
  lemma BlockedHasMet(olds: seq<Strand>, b: nat, n: nat, k: Key)
    requires Blocked(olds, b, n)
    ensures HashChain.HasKey(Front(olds, b, n), k) <==> GetsTo(olds, k)
  {
    FlatsHave(olds, b, k);
    if b < NUM_BUCKETS {
      FlatHas(olds[b], n, k);
      HashChain.HasKeyConcat(FlatsUpTo(olds, b), Flat(olds[b].cells[..n]), k);
    } else {
      assert FlatsUpTo(olds, b) + [] == FlatsUpTo(olds, b);
    }
    if GetsTo(olds, k) {
      var a, i :| 0 <= a < |olds| && 0 <= i && KeyAt(olds[a], i, k) && Followed(olds, a, i);
      NotPast(olds, b, n, a, i);
    }
    if a :| 0 <= a < b && KeyIn(olds[a], k) {
      var i :| 0 <= i < |olds[a].cells| && KeyAt(olds[a], i, k);
      assert Followed(olds, a, i);
    }
    if b < NUM_BUCKETS {
      if i :| 0 <= i < n && KeyAt(olds[b], i, k) {
        assert Followed(olds, b, i);
      }
    }
  }

  lemma NotPast(olds: seq<Strand>, b: nat, n: nat, a: nat, i: nat)
    requires Blocked(olds, b, n) && a < |olds| && i < |olds[a].cells| && Followed(olds, a, i)
    ensures a < b || (a == b && i < n)
  {
    if a >= b {
      assert !Holds(olds[b], n);
      assert a == b;
    }
  }

  /** Exactly the keys the walk gets to are among the entries. */
  ghost predicate Met(olds: seq<Strand>, es: seq<Pair>) {
    forall k :: HashChain.HasKey(es, k) <==> GetsTo(olds, k)
  }

  lemma BlockedMeets(olds: seq<Strand>, b: nat, n: nat)
    requires Blocked(olds, b, n)
    ensures Met(olds, Front(olds, b, n))
  {
    forall k ensures HashChain.HasKey(Front(olds, b, n), k) <==> GetsTo(olds, k) { BlockedHasMet(olds, b, n, k); }
  }

  /** In a map in order the walk gets everywhere. */
  lemma AllAreReached(olds: seq<Strand>, a: nat, i: nat, k: Key)
    requires |olds| == NUM_BUCKETS && (forall b | 0 <= b < NUM_BUCKETS :: AllHold(olds[b])) && a < NUM_BUCKETS && KeyAt(olds[a], i, k)
    ensures GetsTo(olds, k)
  {
    assert Followed(olds, a, i);
  }

  // ---------------------------------------------------------------------------- the loop

  /** Where the iterator stands. */
  ghost function Depth(it: Iterator): nat
    reads it
  {
    if it.AtEnd() || it.nodes == [] then 0 else |it.nodes| - 1
  }

  /** The walk is where the iterator is. */
  ghost predicate Walking(m: HashMap, it: Iterator, next: Replacer, olds: seq<Strand>)
    reads m, it
  {
    && it.table == m && m.Shaped() && Readable(m) && it.Valid() && |olds| == NUM_BUCKETS
    && Stage(next, olds, Strands(m), it.bucket, Depth(it), it.pos)
    && Followed(olds, it.bucket, Depth(it))
    && SameShape(m, olds)
  }

  /** The walk has done the entry the iterator is on. */
  ghost predicate Stepping(m: HashMap, it: Iterator, next: Replacer, olds: seq<Strand>)
    reads m, it
  {
    && it.table == m && m.Shaped() && Readable(m) && it.Valid() && !it.AtEnd() && |olds| == NUM_BUCKETS
    && Stage(next, olds, Strands(m), it.bucket, Depth(it), it.pos + 1)
    && |m.pages[it.nodes[|it.nodes| - 1]].cell.entries| == |olds[it.bucket].cells[Depth(it)].entries|
    && Followed(olds, it.bucket, Depth(it))
    && SameShape(m, olds)
  }

  ghost predicate SameShape(m: HashMap, olds: seq<Strand>)
    reads m
  {
    && |olds| == |m.chains| == NUM_BUCKETS
    && forall b {:trigger Proper(olds[b])} | 0 <= b < NUM_BUCKETS :: Proper(olds[b]) && |olds[b].cells| == |m.chains[b]|
  }

  /** The iterator stands on the entry that was there before. */
  lemma CurrentIs(m: HashMap, it: Iterator, next: Replacer, olds: seq<Strand>)
    requires Walking(m, it, next, olds) && !it.AtEnd()
    ensures var es := olds[it.bucket].cells[Depth(it)].entries;
            && m.pages[it.nodes[|it.nodes| - 1]].cell == Strands(m)[it.bucket].cells[Depth(it)]
            && |m.pages[it.nodes[|it.nodes| - 1]].cell.entries| == |es| && it.pos < |es| && it.Current() == es[it.pos]
  {
    var b, d := it.bucket, Depth(it);
    StageHere(next, olds, Strands(m), b, d, it.pos);
    BucketAt(m.layout, m.hash, m.pages, m.buckets, m.chains, b);
    assert Strands(m)[b].cells[d] == HashChain.WalkedCell(next, olds[b].cells, d, it.pos, d);
    assert m.pages[m.chains[b][d]].cell == Cells(m.pages, m.chains[b])[d];
  }

  lemma StillThere(m: HashMap, it: Iterator, next: Replacer, olds: seq<Strand>)
    requires it.table == m && m.Shaped() && it.bucket < NUM_BUCKETS && 0 < |it.nodes| <= |m.chains[it.bucket]|
    requires it.nodes == m.chains[it.bucket][..|it.nodes|] && Stage(next, olds, Strands(m), it.bucket, Depth(it), it.pos + 1)
    ensures Readable(m) && it.Valid()
    ensures |m.pages[it.nodes[|it.nodes| - 1]].cell.entries| == |olds[it.bucket].cells[Depth(it)].entries|
  {
    var b, d := it.bucket, Depth(it);
    ShapedIsReadable(m);
    StageHere(next, olds, Strands(m), b, d, it.pos + 1);
    BucketAt(m.layout, m.hash, m.pages, m.buckets, m.chains, b);
    assert Strands(m)[b].cells[d] == HashChain.WalkedCell(next, olds[b].cells, d, it.pos + 1, d);
    assert m.pages[m.chains[b][d]].cell == Cells(m.pages, m.chains[b])[d];
  }

  /** `set_value`, by what it does to the strands and the bindings. */
  method SetValueBinds(m: HashMap, it: Iterator, value: EventId)
    requires it.table == m && it.Valid() && !it.AtEnd() && m.Shaped()
    modifies m
    ensures m.Shaped() && m.chains == old(m.chains) && m.size == old(m.size)
    ensures Strands(m)[it.bucket] == Strand(Increment(old(Strands(m))[it.bucket].version),
              HashChain.SetValue(old(Strands(m))[it.bucket].cells, |it.nodes| - 1, old(it.Current()).0, value))
    ensures forall b | 0 <= b < NUM_BUCKETS && b != it.bucket :: Strands(m)[b] == old(Strands(m))[b]
    ensures Rebound(m.hash, old(Strands(m)), Strands(m), old(it.Current()).0, Some(value))
  {
    ghost var key, was := it.Current().0, Strands(m);
    BucketAt(m.layout, m.hash, m.pages, m.buckets, m.chains, it.bucket);
    CurrentIn(m, it);
    it.SetValue(value);
    SetValueRebinds(m.hash, was, Strands(m), it.bucket, |it.nodes| - 1, key, value);
  }

  lemma SetValueRebinds(hash: Key -> nat, olds: seq<Strand>, nows: seq<Strand>, b: nat, d: nat, key: Key, value: EventId)
    requires |olds| == |nows| == NUM_BUCKETS && b < NUM_BUCKETS && hash(key) % NUM_BUCKETS == b && d < |olds[b].cells|
    requires HashChain.HasKey(olds[b].cells[d].entries, key) && HashChain.Distinct(Flat(olds[b].cells))
    requires nows[b].cells == HashChain.SetValue(olds[b].cells, d, key, value)
    requires forall a | 0 <= a < NUM_BUCKETS && a != b :: nows[a] == olds[a]
    ensures Rebound(hash, olds, nows, key, Some(value))
  {
    forall k ensures Bound(hash, nows, k) == if k == key then Some(value) else Bound(hash, olds, k) {
      HashChain.SetValueLookup(olds[b].cells, d, key, value, k);
    }
  }

  /** The key the iterator stands on is of its bucket and page. */
  lemma CurrentIn(m: HashMap, it: Iterator)
    requires it.table == m && it.Valid() && !it.AtEnd() && m.Shaped()
    ensures m.ToBucket(it.Current().0) == it.bucket && |it.nodes| <= |m.CellsOf(it.bucket)|
    ensures HashChain.HasKey(m.CellsOf(it.bucket)[|it.nodes| - 1].entries, it.Current().0)
  {
    var b, d := it.bucket, |it.nodes| - 1;
    BucketAt(m.layout, m.hash, m.pages, m.buckets, m.chains, b);
    assert m.pages[m.chains[b][d]].cell == Cells(m.pages, m.chains[b])[d];
    PageInFlat(m.CellsOf(b), d, it.pos);
  }

  lemma {:induction false} PageInFlat(cells: seq<Cell<Pair>>, d: nat, pos: nat)
    requires d < |cells| && pos < |cells[d].entries|
    ensures cells[d].entries[pos] in Flat(cells)
    decreases d
  {
    if d > 0 { PageInFlat(cells[1..], d - 1, pos); }
  }

  /** The body of the loop up to the step: the present entry gets its new value, if it gets one. */
  method ReplaceCurrent(m: HashMap, it: Iterator, value: Option<EventId>, ghost next: Replacer, ghost olds: seq<Strand>)
    requires Walking(m, it, next, olds) && !it.AtEnd() && value == next(it.Current())
    modifies m
    ensures m.chains == old(m.chains) && m.size == old(m.size) && Stepping(m, it, next, olds)
    ensures Rebound(m.hash, old(Strands(m)), Strands(m), old(it.Current()).0, value)
  {
    CurrentIs(m, it, next, olds);
    ghost var e := it.Current();
    ghost var was, b, d := Strands(m), it.bucket, Depth(it);
    assert Proper(olds[b]);
    if value.Some? {
      SetValueBinds(m, it, value.value);
      StageStore(next, olds, was, b, d, it.pos, Strands(m));
    } else {
      StageOver(next, olds, was, b, d, it.pos);
    }
    StillThere(m, it, next, olds);
  }

  /** The step: on to the next entry.  It stops exactly at a link that was not in order before. */
  method Advance(m: HashMap, it: Iterator, ghost next: Replacer, ghost olds: seq<Strand>) returns (ok: bool)
    requires Stepping(m, it, next, olds)
    modifies it
    ensures ok ==> Moved(m, it, next, olds, old(it.bucket), old(Depth(it)), old(it.pos))
    ensures !ok ==> Stuck(olds, Visited(olds, old(it.bucket), old(Depth(it)), old(it.pos) + 1))
  {
    HonestIsAllTrusted(m.pages, m.buckets, m.chains);
    ghost var b, d, pos := it.bucket, Depth(it), it.pos;
    ghost var failed;
    ok, failed := it.Next(m.pages);
    if !ok {
      StepFailed(m, next, olds, b, d, it.bucket, failed);
    } else if pos + 1 == |olds[b].cells[d].entries| {
      StepEntered(m, it, next, olds, b, d);
      StepVisited(m, it, olds, b, d);
    } else {
      StepInPage(m, it, next, olds, b, d, pos);
    }
  }

  /** The iterator has gone on from entry `pos` of page `d` of bucket `b`. */
  ghost predicate Moved(m: HashMap, it: Iterator, next: Replacer, olds: seq<Strand>, b: nat, d: nat, pos: nat)
    reads m, it
  {
    && Walking(m, it, next, olds)
    && b < NUM_BUCKETS && At(olds[b], d, pos + 1)
    && Visited(olds, it.bucket, Depth(it), it.pos) == Visited(olds, b, d, pos + 1)
  }

  lemma StepInPage(m: HashMap, it: Iterator, next: Replacer, olds: seq<Strand>, b: nat, d: nat, pos: nat)
    requires it.table == m && m.Shaped() && Readable(m) && it.Valid() && |olds| == NUM_BUCKETS && b < NUM_BUCKETS
    requires it.bucket == b && Depth(it) == d && it.pos == pos + 1 && Stage(next, olds, Strands(m), b, d, pos + 1)
    requires Followed(olds, b, d) && SameShape(m, olds)
    ensures Moved(m, it, next, olds, b, d, pos)
  {
  }

  /** The walk is where the iterator is, and has met these entries. */
  ghost predicate WalkingAt(m: HashMap, it: Iterator, next: Replacer, olds: seq<Strand>, met: seq<Pair>)
    reads m, it
  {
    Walking(m, it, next, olds) && met == Visited(olds, it.bucket, Depth(it), it.pos)
  }

  /** The walk is stopped by a broken link, and has met the keys it gets to. */
  ghost predicate Stuck(olds: seq<Strand>, met: seq<Pair>) {
    |olds| == NUM_BUCKETS && Met(olds, met) && exists b | 0 <= b < NUM_BUCKETS :: !AllHold(olds[b])
  }

  /** The entry the iterator is on comes right behind those met. */
  lemma {:induction false} CurrentIsNext(m: HashMap, it: Iterator, next: Replacer, olds: seq<Strand>, met: seq<Pair>)
    requires WalkingAt(m, it, next, olds, met) && !it.AtEnd()
    ensures At(olds[it.bucket], Depth(it), it.pos + 1)
    ensures met + [it.Current()] == Visited(olds, it.bucket, Depth(it), it.pos + 1)
    ensures met + [it.Current()] <= FlatsUpTo(olds, |olds|)
  {
    CurrentIs(m, it, next, olds);
    VisitedEntry(olds, it.bucket, Depth(it), it.pos);
    VisitedFirst(olds, it.bucket, Depth(it), it.pos + 1);
  }

  /** One turn of a loop that overwrites values. */
  method ReplaceAndStep(m: HashMap, it: Iterator, value: Option<EventId>, ghost next: Replacer, ghost olds: seq<Strand>, ghost met: seq<Pair>)
    returns (ok: bool)
    requires WalkingAt(m, it, next, olds, met) && !it.AtEnd() && value == next(it.Current())
    modifies m, it
    ensures m.Shaped() && m.chains == old(m.chains) && m.size == old(m.size)
    ensures Rebound(m.hash, old(Strands(m)), Strands(m), old(it.Current()).0, value)
    ensures ok ==> WalkingAt(m, it, next, olds, met + [old(it.Current())])
    ensures !ok ==> Stuck(olds, met + [old(it.Current())])
  {
    CurrentIsNext(m, it, next, olds, met);
    ReplaceCurrent(m, it, value, next, olds);
    ok := Advance(m, it, next, olds);
  }

  lemma StepFailed(m: HashMap, next: Replacer, olds: seq<Strand>, b: nat, d: nat, bucket: nat, failed: nat)
    requires m.Shaped() && Readable(m) && |olds| == NUM_BUCKETS && b < NUM_BUCKETS && d < |olds[b].cells|
    requires Stage(next, olds, Strands(m), b, d, |olds[b].cells[d].entries|) && Followed(olds, b, d)
    requires SomeLinkFails(m.pages, m.buckets, m.chains, m.pages, bucket, failed) && FailedAt(m.chains, b, d + 1, bucket, failed)
    requires SameShape(m, olds)
    ensures Stuck(olds, Visited(olds, b, d, |olds[b].cells[d].entries|))
  {
    assert Proper(olds[bucket]);
    HoldsIs(m, bucket, failed);
    LinkAhead(next, olds, Strands(m), b, d, |olds[b].cells[d].entries|, bucket, failed);
    assert !Holds(olds[bucket], failed);
    assert !AllHold(olds[bucket]);
    assert Proper(olds[b]);
    if bucket != b { UsedStrands(m, olds, b + 1, bucket); }
    Stops(olds, b, d, bucket, failed);
  }

  /** The walk has done page `d` of bucket `b`, and the next link is broken. */
  lemma {:induction false} Stops(olds: seq<Strand>, b: nat, d: nat, bucket: nat, failed: nat)
    requires |olds| == NUM_BUCKETS && b < NUM_BUCKETS && bucket < NUM_BUCKETS && d < |olds[b].cells| && Followed(olds, b, d)
    requires failed < |olds[bucket].cells| && !Holds(olds[bucket], failed)
    requires if bucket == b then failed == d + 1 else failed == 0 && d + 1 == |olds[b].cells| && NextUsedStrand(olds, b + 1, bucket)
    ensures Met(olds, Visited(olds, b, d, |olds[b].cells[d].entries|))
  {
    VisitedPage(olds, b, d);
    if bucket != b {
      FrontBucket(olds, b, bucket);
      FollowedBuckets(olds, b, d, bucket);
    }
    BlockedMeets(olds, bucket, failed);
  }

  /** The walk goes on from the end of page `d` of bucket `b` to page `e` of bucket `r`. */
  lemma VisitedEntered(olds: seq<Strand>, b: nat, d: nat, r: nat, e: nat)
    requires b < |olds| && d < |olds[b].cells| && r <= |olds| && (r < |olds| ==> e < |olds[r].cells|)
    requires if d + 1 < |olds[b].cells| then r == b && e == d + 1 else NextUsedStrand(olds, b + 1, r) && e == 0
    ensures Visited(olds, r, e, 0) == Visited(olds, b, d, |olds[b].cells[d].entries|)
  {
    VisitedPage(olds, b, d);
    if d + 1 >= |olds[b].cells| { FrontBucket(olds, b, r); }
    if r < |olds| { VisitedStart(olds, r, e); }
  }

  lemma {:induction false} StepEntered(m: HashMap, it: Iterator, next: Replacer, olds: seq<Strand>, b: nat, d: nat)
    requires it.table == m && m.Shaped() && Readable(m) && it.Valid() && |olds| == NUM_BUCKETS && b < NUM_BUCKETS
    requires d < |olds[b].cells| && Stage(next, olds, Strands(m), b, d, |olds[b].cells[d].entries|) && Followed(olds, b, d)
    requires SameShape(m, olds)
    requires it.Entered(b, d + 1, m.pages)
    ensures Walking(m, it, next, olds)
  {
    var nows := Strands(m);
    assert Proper(olds[b]);
    if d + 1 < |olds[b].cells| {
      HoldsIs(m, b, d + 1);
      LinkAhead(next, olds, nows, b, d, |olds[b].cells[d].entries|, b, d + 1);
      StageNextPage(next, olds, nows, b, d);
    } else {
      UsedStrands(m, olds, b + 1, it.bucket);
      if !it.AtEnd() {
        HoldsIs(m, it.bucket, 0);
        LinkAhead(next, olds, nows, b, d, |olds[b].cells[d].entries|, it.bucket, 0);
      }
      StageNextBucket(next, olds, nows, b, d, it.bucket);
      FollowedOn(olds, b, d, it.bucket);
    }
  }

  lemma StepVisited(m: HashMap, it: Iterator, olds: seq<Strand>, b: nat, d: nat)
    requires it.table == m && it.Valid() && SameShape(m, olds) && b < NUM_BUCKETS && d < |olds[b].cells| && it.Entered(b, d + 1, m.pages)
    ensures it.bucket < NUM_BUCKETS ==> Depth(it) < |olds[it.bucket].cells|
    ensures it.pos == 0 && Visited(olds, it.bucket, Depth(it), 0) == Visited(olds, b, d, |olds[b].cells[d].entries|)
  {
    assert Proper(olds[b]);
    if it.bucket < NUM_BUCKETS { assert Proper(olds[it.bucket]); }
    if d + 1 >= |olds[b].cells| { UsedStrands(m, olds, b + 1, it.bucket); }
    VisitedEntered(olds, b, d, it.bucket, Depth(it));
  }

  lemma UsedStrands(m: HashMap, olds: seq<Strand>, b: nat, r: nat)
    requires SameShape(m, olds) && NextUsed(m.chains, b, r)
    ensures NextUsedStrand(olds, b, r)
  {
    forall a | b <= a < r ensures olds[a].cells == [] { assert Proper(olds[a]); assert m.chains[a] == []; }
    if r < NUM_BUCKETS { assert Proper(olds[r]); }
  }

  lemma FollowedBuckets(olds: seq<Strand>, b: nat, d: nat, r: nat)
    requires |olds| == NUM_BUCKETS && b < NUM_BUCKETS && Followed(olds, b, d) && d + 1 == |olds[b].cells| && NextUsedStrand(olds, b + 1, r)
    ensures forall a | 0 <= a < r :: AllHold(olds[a])
  {
    forall a | 0 <= a < r ensures AllHold(olds[a]) {
      if a == b { forall i | 0 <= i < |olds[b].cells| ensures Holds(olds[b], i) {} }
    }
  }

  lemma FollowedOn(olds: seq<Strand>, b: nat, d: nat, r: nat)
    requires |olds| == NUM_BUCKETS && b < NUM_BUCKETS && Followed(olds, b, d) && d + 1 == |olds[b].cells| && NextUsedStrand(olds, b + 1, r)
    requires r < NUM_BUCKETS ==> Holds(olds[r], 0)
    ensures Followed(olds, r, 0)
  {
    FollowedBuckets(olds, b, d, r);
  }

  /** `begin`: on to the first entry. */
  method Begin(m: HashMap, ghost next: Replacer, ghost olds: seq<Strand>) returns (it: Iterator, ok: bool)
    requires m.Shaped() && olds == Strands(m)
    ensures fresh(it) && it.table == m
    ensures ok ==> WalkingAt(m, it, next, olds, [])
    ensures !ok ==> Stuck(olds, [])
  {
    ShapedIsReadable(m);
    HonestIsAllTrusted(m.pages, m.buckets, m.chains);
    SameShapeAtFirst(m, olds);
    it := new Iterator(m);
    ok := it.NextBucket(m.pages);
    if ok {
      FirstEntered(m, it, next, olds);
    } else {
      FirstFailed(m, olds, it.bucket);
    }
  }

  /**
   A walk over a map that overwrites values as it goes: it ends, and goes through exactly if every
   link was in order before.
   */
  method WalkAll(m: HashMap, next: Replacer, ghost olds: seq<Strand>) returns (ok: bool)
    requires m.Shaped() && olds == Strands(m)
    modifies m
    ensures m.Shaped() && m.chains == old(m.chains) && m.size == old(m.size)
    ensures ok ==> forall b | 0 <= b < NUM_BUCKETS :: AllHold(olds[b])
    ensures !ok ==> exists b | 0 <= b < NUM_BUCKETS :: !AllHold(olds[b])
    ensures ok ==> forall b | 0 <= b < NUM_BUCKETS :: Strands(m)[b] == ReplacedStrand(next, olds[b])
  {
    ghost var met := [];
    var it;
    it, ok := Begin(m, next, olds);
    while ok && !it.AtEnd()
      invariant fresh(it) && m.Shaped() && m.chains == old(m.chains) && m.size == old(m.size)
      invariant if ok then WalkingAt(m, it, next, olds, met) else Stuck(olds, met)
      decreases ok, |FlatsUpTo(olds, |olds|)| - |met|
    {
      CurrentIsNext(m, it, next, olds, met);
      ghost var e := it.Current();
      ok := ReplaceAndStep(m, it, next(it.Current()), next, olds, met);
      met := met + [e];
    }
    if ok { WalkedAll(m, it, next, olds, met); }
  }

  lemma SameShapeAtFirst(m: HashMap, olds: seq<Strand>)
    requires m.Shaped() && olds == Strands(m)
    ensures SameShape(m, olds)
  {
    forall b | 0 <= b < NUM_BUCKETS ensures Proper(olds[b]) && |olds[b].cells| == |m.chains[b]| { StrandIsProper(m, b); }
  }

  lemma FirstFailed(m: HashMap, olds: seq<Strand>, b: nat)
    requires m.Shaped() && Readable(m) && olds == Strands(m) && SomeLinkFails(m.pages, m.buckets, m.chains, m.pages, b, 0)
    requires SameShape(m, olds) && NextUsed(m.chains, 0, b)
    ensures Stuck(olds, [])
  {
    StrandIsProper(m, b);
    HoldsIs(m, b, 0);
    assert !Holds(olds[b], 0);
    assert !AllHold(olds[b]);
    UsedStrands(m, olds, 0, b);
    FrontFirst(olds, b);
    forall a | 0 <= a < b ensures AllHold(olds[a]) {}
    BlockedMeets(olds, b, 0);
  }

  lemma FirstEntered(m: HashMap, it: Iterator, next: Replacer, olds: seq<Strand>)
    requires it.table == m && m.Shaped() && Readable(m) && it.Valid() && olds == Strands(m) && SameShape(m, olds)
    requires NextUsed(m.chains, 0, it.bucket) && it.pos == 0
    requires !it.AtEnd() ==> |it.nodes| == 1 && LinkHolds(m.pages, m.buckets, m.chains, m.pages, it.bucket, 0)
    ensures WalkingAt(m, it, next, olds, [])
  {
    UsedStrands(m, olds, 0, it.bucket);
    StageStart(next, olds, it.bucket);
    FrontFirst(olds, it.bucket);
    if !it.AtEnd() {
      HoldsIs(m, it.bucket, 0);
      VisitedStart(olds, it.bucket, 0);
    }
    forall a | 0 <= a < it.bucket ensures AllHold(olds[a]) {}
  }

  lemma WalkedAll(m: HashMap, it: Iterator, next: Replacer, olds: seq<Strand>, met: seq<Pair>)
    requires WalkingAt(m, it, next, olds, met) && it.AtEnd()
    ensures forall b | 0 <= b < NUM_BUCKETS :: AllHold(olds[b]) && Strands(m)[b] == ReplacedStrand(next, olds[b])
    ensures Met(olds, met)
  {
    forall b | 0 <= b < NUM_BUCKETS ensures Strands(m)[b] == ReplacedStrand(next, olds[b]) {
      assert StageAt(next, olds, Strands(m), it.bucket, Depth(it), it.pos, b);
    }
    BlockedMeets(olds, NUM_BUCKETS, 0);
  }

  // ------------------------------------------------------------------ what the walk leaves

  /** From every page but the first of the bucket on, the values overwritten are a multiple of the version range. */
  ghost predicate WholeRanges(next: Replacer, cells: seq<Cell<Pair>>) {
    forall i | 0 <= i < |cells| :: HashChain.WholeRange(next, cells, i)
  }

  ghost predicate AllWholeRanges(next: Replacer, strands: seq<Strand>) {
    forall b | 0 <= b < |strands| :: WholeRanges(next, strands[b].cells)
  }

  lemma ReplacedHoldsIff(next: Replacer, s: Strand)
    requires AllHold(s) && EndsInZero(s.version, s.cells)
    ensures AllHold(ReplacedStrand(next, s)) <==> WholeRanges(next, s.cells)
  {
    var r := ReplacedStrand(next, s);
    StrandLinkedIff(s);
    assert EndsInZero(r.version, r.cells) by {
      if s.cells == [] { assert HashChain.HitsIn(next, s.cells, 0, 0) == 0; }
    }
    StrandLinkedIff(r);
    HashChain.ReplacedLinkedIff(next, s.version, s.cells);
  }

  /**
   Give some entries of a map a new value in one walk over it.  It goes through exactly if the map
   was in order.  Then every key is bound to its new value, or to the old one where there is none,
   and the map is in order again if and only if, from every page but a bucket's first on, the
   number of values overwritten is a multiple of 65535.
   */
  method ReplaceAll(m: HashMap, next: Replacer) returns (ok: bool)
    requires m.Shaped()
    modifies m
    ensures m.Shaped() && m.size == old(m.size)
    ensures ok <==> old(m.Valid())
    ensures ok ==> forall k :: m.Binding(k) == match old(m.Binding(k)) case None => None case Some(v) => Some(HashChain.NewEntry(next, (k, v)).1)
    ensures ok ==> forall b | 0 <= b < NUM_BUCKETS ::
              && m.CellsOf(b) == HashChain.Replaced(next, old(m.CellsOf(b)))
              && m.buckets[b].version == Plus(old(m.buckets[b].version), HashChain.HitsIn(next, old(m.CellsOf(b)), 0, |old(m.CellsOf(b))|))
    ensures ok ==> (m.Valid() <==> AllWholeRanges(next, old(Strands(m))))
  {
    ghost var olds := Strands(m);
    ValidIffAllHold(m);
    StrandsEnd(m);
    ok := WalkAll(m, next, olds);
    if ok {
      ReplacedValidIff(m, next, olds);
      forall b | 0 <= b < NUM_BUCKETS
        ensures m.CellsOf(b) == HashChain.Replaced(next, olds[b].cells)
        ensures m.buckets[b].version == Plus(olds[b].version, HashChain.HitsIn(next, olds[b].cells, 0, |olds[b].cells|))
      {
        assert Strands(m)[b] == ReplacedStrand(next, olds[b]);
      }
      forall k ensures m.Binding(k) == match old(m.Binding(k)) case None => None case Some(v) => Some(HashChain.NewEntry(next, (k, v)).1) {
        HashChain.ReplacedLookup(next, olds[m.ToBucket(k)].cells, k);
      }
    }
  }

  /** A map whose values a walk has overwritten is in order exactly if the numbers overwritten are whole ranges. */
  lemma ReplacedValidIff(m: HashMap, next: Replacer, olds: seq<Strand>)
    requires m.Shaped() && |olds| == NUM_BUCKETS
    requires forall b | 0 <= b < NUM_BUCKETS :: AllHold(olds[b])
    requires forall b {:trigger olds[b]} | 0 <= b < NUM_BUCKETS :: EndsInZero(olds[b].version, olds[b].cells)
    requires forall b | 0 <= b < NUM_BUCKETS :: Strands(m)[b] == ReplacedStrand(next, olds[b])
    ensures m.Valid() <==> AllWholeRanges(next, olds)
  {
    ValidIffAllHold(m);
    forall b | 0 <= b < NUM_BUCKETS ensures AllHold(Strands(m)[b]) <==> WholeRanges(next, olds[b].cells) {
      assert Strands(m)[b] == ReplacedStrand(next, olds[b]);
      ReplacedHoldsIff(next, olds[b]);
    }
  }

  /** Only which entries are overwritten counts for the order of the map, not with what. */
  lemma SameRanges(next: Replacer, other: Replacer, strands: seq<Strand>)
    requires forall e :: next(e).Some? <==> other(e).Some?
    ensures AllWholeRanges(next, strands) <==> AllWholeRanges(other, strands)
  {
    forall b | 0 <= b < |strands| ensures WholeRanges(next, strands[b].cells) <==> WholeRanges(other, strands[b].cells) {
      forall i | 0 <= i < |strands[b].cells|
        ensures HashChain.WholeRange(next, strands[b].cells, i) <==> HashChain.WholeRange(other, strands[b].cells, i)
      {
        HashChain.SameHitsIn(next, other, strands[b].cells, i, |strands[b].cells|);
      }
    }
  }

  lemma StrandsEnd(m: HashMap)
    requires m.Shaped()
    ensures forall b {:trigger Strands(m)[b]} | 0 <= b < NUM_BUCKETS :: EndsInZero(Strands(m)[b].version, Strands(m)[b].cells)
  {
    forall b | 0 <= b < NUM_BUCKETS ensures EndsInZero(Strands(m)[b].version, Strands(m)[b].cells) {
      BucketAt(m.layout, m.hash, m.pages, m.buckets, m.chains, b);
    }
  }
}
