/**
 The paged hash map behind every primary index: buckets that lead to chains of pages in a
 page store, each link carrying the version it expects.
 */
module HashMap {
  import opened EventLog
  import opened VersionNumber
  import opened PageChain
  import HashChain

  type Key = string
  type Pair = (Key, EventId)
  type PageNo = nat

  datatype Page = Page(cell: Cell<Pair>, succ: Option<PageNo>)
  datatype Bucket = Bucket(page: Option<PageNo>, version: Version)

  type Pages = map<PageNo, Page>
  type Chain = seq<PageNo>

  // ------------------------------------------------------------------ page chains

  ghost predicate InStore(pages: Pages, c: Chain) {
    forall i | 0 <= i < |c| :: c[i] in pages
  }

  ghost function Cells(pages: Pages, c: Chain): (r: seq<Cell<Pair>>)
    requires InStore(pages, c)
    ensures |r| == |c| && forall i {:trigger r[i]} | 0 <= i < |c| :: r[i] == pages[c[i]].cell
  {
    seq(|c|, i requires 0 <= i < |c| => pages[c[i]].cell)
  }

  /** Where the link after page `i` of the chain leads. */
  ghost function After(c: Chain, i: int): Option<PageNo>
    requires -1 <= i < |c|
  {
    if i + 1 < |c| then Some(c[i + 1]) else None
  }

  /** The chain is what one gets by following the links from `start`. */
  ghost predicate Threaded(pages: Pages, start: Option<PageNo>, c: Chain) {
    && start == After(c, -1)
    && InStore(pages, c)
    && forall i {:trigger pages[c[i]]} | 0 <= i < |c| :: pages[c[i]].succ == After(c, i)
  }

  /** No page belongs to two places. */
  ghost predicate Apart(chains: seq<Chain>) {
    && (forall b, i, j | 0 <= b < |chains| && 0 <= i < j < |chains[b]| :: chains[b][i] != chains[b][j])
    && (forall a, b, i, j | 0 <= a < b < |chains| && 0 <= i < |chains[a]| && 0 <= j < |chains[b]| ::
          chains[a][i] != chains[b][j])
  }

  /** What holds of a bucket whatever its versions. */
  ghost predicate BucketShaped(l: Layout<Pair>, hash: Key -> nat, pages: Pages, bucket: Bucket, c: Chain, b: nat) {
    && Threaded(pages, bucket.page, c)
    && HashChain.Shaped(l, bucket.version, Cells(pages, c))
    && forall i | 0 <= i < |Flat(Cells(pages, c))| :: hash(Flat(Cells(pages, c))[i].0) % NUM_BUCKETS == b
  }

  /** Every page of the bucket has the version that the link to it expects. */
  ghost predicate BucketLinked(pages: Pages, bucket: Bucket, c: Chain) {
    InStore(pages, c) && Linked(bucket.version, Cells(pages, c))
  }

  /** A bucket does not notice changes of pages that are not its own. */
  lemma BucketFrame(l: Layout<Pair>, hash: Key -> nat, pages: Pages, pages': Pages, bucket: Bucket, c: Chain, b: nat)
    requires BucketShaped(l, hash, pages, bucket, c, b)
    requires forall i | 0 <= i < |c| :: c[i] in pages' && pages'[c[i]] == pages[c[i]]
    ensures BucketShaped(l, hash, pages', bucket, c, b) && Cells(pages', c) == Cells(pages, c)
  {
    assert Cells(pages', c) == Cells(pages, c);
  }

  // ----------------------------------------------------- an insert on its way along a chain

  ghost predicate NoRepeats(c: Chain) {
    forall i, j | 0 <= i < j < |c| :: c[i] != c[j]
  }

  /** Page `j` of the chain when an insert has reached page `i`: passed, untouched or new. */
  ghost function PageAt(before: Pages, c: Chain, d: Chain, i: nat, j: nat): Page
    requires InStore(before, c)
  {
    if j < i && j < |c| && j + 1 < |d| then Page(Pass(before[c[j]].cell), Some(d[j + 1]))
    else if j < |c| then before[c[j]]
    else Page(EmptyCell(), None)
  }

  /**
   An insert has reached page `i` of the chain `d`, which is `c` with at most one new page at
   its end: the pages before `i` have been passed, all others are as they were.
   */
  ghost predicate Reached(before: Pages, c: Chain, now: Pages, d: Chain, i: nat) {
    && InStore(before, c) && InStore(now, d) && NoRepeats(d) && i < |d|
    && |c| <= |d| <= |c| + 1 && d[..|c|] == c
    && (|d| > |c| ==> i == |c| && d[i] !in before)
    && (forall q | q in before && q !in d :: q in now && now[q] == before[q])
    && (forall j {:trigger now[d[j]]} | 0 <= j < |d| :: now[d[j]] == PageAt(before, c, d, i, j))
  }

  lemma OldPageAt(before: Pages, c: Chain, now: Pages, d: Chain, i: nat, next: Pages, j: nat)
    requires Reached(before, c, now, d, i) && i + 1 < |c| && j < |d|
    requires next == now[d[i] := Page(Pass(now[d[i]].cell), Some(d[i + 1]))]
    ensures next[d[j]] == PageAt(before, c, d, i + 1, j)
  {
    assert now[d[j]] == PageAt(before, c, d, i, j);
    assert j != i ==> d[j] != d[i];
  }

  lemma ReachedOldPage(before: Pages, c: Chain, now: Pages, d: Chain, i: nat, next: Pages)
    requires Reached(before, c, now, d, i) && i + 1 < |c|
    requires next == now[d[i] := Page(Pass(now[d[i]].cell), Some(d[i + 1]))]
    ensures Reached(before, c, next, d, i + 1)
  {
    forall j | 0 <= j < |d| ensures next[d[j]] == PageAt(before, c, d, i + 1, j) {
      OldPageAt(before, c, now, d, i, next, j);
    }
  }

  lemma NewPageAt(before: Pages, c: Chain, now: Pages, d: Chain, i: nat, q: PageNo, next: Pages, j: nat)
    requires Reached(before, c, now, d, i) && i + 1 == |c| == |d| && q !in now && q !in before && j <= |d|
    requires next == now[q := Page(EmptyCell(), None)][d[i] := Page(Pass(now[d[i]].cell), Some(q))]
    ensures var e := d + [q]; e[j] in next && next[e[j]] == PageAt(before, c, e, i + 1, j)
  {
    if j < |d| {
      assert d[j] in now && d[j] != q;
      assert now[d[j]] == PageAt(before, c, d, i, j);
      assert j != i ==> d[j] != d[i];
    }
  }

  lemma ReachedNewPage(before: Pages, c: Chain, now: Pages, d: Chain, i: nat, q: PageNo, next: Pages)
    requires Reached(before, c, now, d, i) && i + 1 == |c| == |d| && q !in now && q !in before
    requires next == now[q := Page(EmptyCell(), None)][d[i] := Page(Pass(now[d[i]].cell), Some(q))]
    ensures Reached(before, c, next, d + [q], i + 1)
  {
    var e := d + [q];
    assert NoRepeats(e) by { assert forall j | 0 <= j < |d| :: d[j] in now && d[j] != q; }
    forall j | 0 <= j < |e| ensures e[j] in next && next[e[j]] == PageAt(before, c, e, i + 1, j) {
      NewPageAt(before, c, now, d, i, q, next, j);
    }
    assert forall p | p in d :: p in e;
    assert e[..|c|] == c;
  }

  lemma StoredAt(before: Pages, c: Chain, now: Pages, d: Chain, i: nat, k: Key, v: EventId, next: Pages, j: nat)
    requires Reached(before, c, now, d, i) && Threaded(before, After(c, -1), c) && j < |d|
    requires next == now[d[i] := Page(HashChain.Store(now[d[i]].cell, k, v), now[d[i]].succ)]
    ensures next[d[j]].succ == After(d, j)
    ensures next[d[j]].cell == if j < i then Pass(before[c[j]].cell)
                               else if j == i then HashChain.Store(if i < |c| then before[c[i]].cell else EmptyCell(), k, v)
                               else before[c[j]].cell
  {
    assert now[d[j]] == PageAt(before, c, d, i, j);
    assert j != i ==> d[j] != d[i];
  }

  /** The chain of cells an insert leaves behind once page `i` has taken the entry. */
  lemma StoredCells(l: Layout<Pair>, cells: seq<Cell<Pair>>, i: nat, k: Key, v: EventId, r: seq<Cell<Pair>>)
    requires i <= |cells| && HashChain.NoneTakes(l, cells, k, i)
    requires i < |cells| ==> HashChain.Takes(l, cells[i], k)
    requires |r| == if i < |cells| then |cells| else i + 1
    requires forall j | 0 <= j < |r| ::
               r[j] == if j < i then Pass(cells[j])
                       else if j == i then HashChain.Store(if i < |cells| then cells[i] else EmptyCell(), k, v)
                       else cells[j]
    ensures r == HashChain.Insert(l, cells, k, v)
  {
    HashChain.InsertAfterPassing(l, cells, k, v, i);
    assert r[..i] == PassAll(cells[..i]);
    StoredTail(l, cells, i, k, v, r);
    assert r == r[..i] + r[i..];
  }

  lemma StoredTail(l: Layout<Pair>, cells: seq<Cell<Pair>>, i: nat, k: Key, v: EventId, r: seq<Cell<Pair>>)
    requires i <= |cells| && (i < |cells| ==> HashChain.Takes(l, cells[i], k))
    requires |r| == if i < |cells| then |cells| else i + 1
    requires r[i] == HashChain.Store(if i < |cells| then cells[i] else EmptyCell(), k, v)
    requires forall j | i < j < |r| :: r[j] == cells[j]
    ensures r[i..] == HashChain.Insert(l, cells[i..], k, v)
  {
    if i < |cells| {
      assert cells[i..][0] == cells[i] && cells[i..][1..] == cells[i + 1..];
      assert r[i..] == [r[i]] + cells[i + 1..];
    } else {
      assert cells[i..] == [] && r[i..] == [r[i]];
    }
  }

  /** The chain is `c`, perhaps with a page at its end that the store did not have before. */
  ghost predicate Extends(before: Pages, c: Chain, d: Chain) {
    && NoRepeats(d) && |c| <= |d| <= |c| + 1 && d[..|c|] == c
    && (|d| > |c| ==> d[|c|] !in before)
  }

  /** An insert of `k` is at page `i`, and no page before it takes the entry. */
  ghost predicate Searching(l: Layout<Pair>, k: Key, before: Pages, c: Chain, now: Pages, d: Chain, i: nat) {
    && Reached(before, c, now, d, i)
    && HashChain.NoneTakes(l, Cells(before, c), k, if i < |c| then i else |c|)
  }

  lemma SearchNext(l: Layout<Pair>, k: Key, before: Pages, c: Chain, now: Pages, d: Chain, i: nat, q: PageNo, next: Pages)
    returns (e: Chain)
    requires HashChain.Sane(l) && Searching(l, k, before, c, now, d, i) && Threaded(before, After(c, -1), c)
    requires !HashChain.Takes(l, now[d[i]].cell, k)
    requires match now[d[i]].succ
             case Some(n) => q == n && next == now[d[i] := Page(Pass(now[d[i]].cell), Some(q))]
             case None => q !in now && q !in before
                          && next == now[q := Page(EmptyCell(), None)][d[i] := Page(Pass(now[d[i]].cell), Some(q))]
    ensures i < |c|
    ensures Searching(l, k, before, c, next, e, i + 1) && e[i + 1] == q && e[0] == d[0]
  {
    assert now[d[i]] == PageAt(before, c, d, i, i);
    assert i < |c| && before[c[i]].succ == After(c, i);
    NoneTakesSnoc(l, Cells(before, c), k, i);
    if i + 1 < |c| {
      ReachedOldPage(before, c, now, d, i, next);
      e := d;
    } else {
      ReachedNewPage(before, c, now, d, i, q, next);
      e := d + [q];
    }
  }

  /** The chain `d` is what inserting into the chain `c` leaves, and no other page has changed. */
  ghost predicate ChainInserted(l: Layout<Pair>, before: Pages, c: Chain, after: Pages, d: Chain, k: Key, v: EventId)
    requires InStore(before, c)
  {
    && Threaded(after, After(d, -1), d) && d != [] && Extends(before, c, d)
    && Cells(after, d) == HashChain.Insert(l, Cells(before, c), k, v)
    && forall q | q in before && q !in d :: q in after && after[q] == before[q]
  }

  lemma SearchDone(l: Layout<Pair>, before: Pages, c: Chain, now: Pages, d: Chain, i: nat, k: Key, v: EventId, next: Pages)
    requires Searching(l, k, before, c, now, d, i) && Threaded(before, After(c, -1), c)
    requires HashChain.Takes(l, now[d[i]].cell, k)
    requires next == now[d[i] := Page(HashChain.Store(now[d[i]].cell, k, v), now[d[i]].succ)]
    ensures ChainInserted(l, before, c, next, d, k, v)
  {
    assert now[d[i]] == PageAt(before, c, d, i, i);
    forall j | 0 <= j < |d|
      ensures next[d[j]].succ == After(d, j)
      ensures next[d[j]].cell == if j < i then Pass(before[c[j]].cell)
                                 else if j == i then HashChain.Store(if i < |c| then before[c[i]].cell else EmptyCell(), k, v)
                                 else before[c[j]].cell
    {
      StoredAt(before, c, now, d, i, k, v, next, j);
    }
    StoredCells(l, Cells(before, c), i, k, v, Cells(next, d));
  }

  /** An insert was stopped behind page `i`; no other page has changed. */
  ghost predicate ChainAbandoned(before: Pages, c: Chain, after: Pages, i: nat)
    requires InStore(before, c)
  {
    && Threaded(after, After(c, -1), c) && i < |c|
    && Cells(after, c) == Abandoned(Cells(before, c), i)
    && forall q | q in before && q !in c :: q in after && after[q] == before[q]
  }

  lemma AbandonedAt(before: Pages, c: Chain, now: Pages, d: Chain, i: nat, next: Pages, j: nat)
    requires Reached(before, c, now, d, i) && Threaded(before, After(c, -1), c) && i + 1 < |c| && j < |c|
    requires next == now[d[i] := Page(Bump(now[d[i]].cell), now[d[i]].succ)]
    ensures d == c && next[c[j]].succ == After(c, j) && next[c[j]].cell == Abandoned(Cells(before, c), i)[j]
  {
    assert |d| == |c|;
    assert now[d[j]] == PageAt(before, c, d, i, j);
    assert j != i ==> d[j] != d[i];
  }

  lemma SearchStopped(before: Pages, c: Chain, now: Pages, d: Chain, i: nat, next: Pages)
    requires Reached(before, c, now, d, i) && Threaded(before, After(c, -1), c) && i + 1 < |c|
    requires next == now[d[i] := Page(Bump(now[d[i]].cell), now[d[i]].succ)]
    ensures ChainAbandoned(before, c, next, i)
  {
    assert d == c by { assert |d| == |c|; }
    forall j | 0 <= j < |c| ensures next[c[j]].succ == After(c, j) && next[c[j]].cell == Abandoned(Cells(before, c), i)[j] {
      AbandonedAt(before, c, now, d, i, next, j);
    }
  }

  lemma ReachedFirst(before: Pages, c: Chain, start: Option<PageNo>, p: PageNo, now: Pages)
    requires Threaded(before, start, c) && NoRepeats(c)
    requires match start
             case Some(q) => p == q && now == before
             case None => p !in before && now == before[p := Page(EmptyCell(), None)]
    ensures Reached(before, c, now, if c == [] then [p] else c, 0)
  {
  }

  /** Extending one chain by a page nobody had keeps all chains apart. */
  lemma ApartAfter(chains: seq<Chain>, b: nat, d: Chain, before: Pages)
    requires Apart(chains) && b < |chains| && Extends(before, chains[b], d)
    requires forall a | 0 <= a < |chains| :: InStore(before, chains[a])
    ensures Apart(chains[b := d])
    ensures forall a, i | 0 <= a < |chains| && a != b && 0 <= i < |chains[a]| :: chains[a][i] !in d
  {
    forall a, i, j | 0 <= a < |chains| && a != b && 0 <= i < |chains[a]| && 0 <= j < |d| ensures chains[a][i] != d[j] {
      assert chains[a][i] in before;
      if j < |chains[b]| { assert d[j] == chains[b][j]; }
    }
  }

  // --------------------------------------------------------------------- lookup

  /** Stale stands for every version error. */
  datatype Answer = Absent | Found(value: EventId) | Stale

  /** What a lookup sees that follows the links through the pages it is given, up to `n` pages. */
  function Walk(loaded: Pages, link: Option<PageNo>, version: Version, k: Key, n: nat): Answer
    decreases n
  {
    match link
    case None => Absent
    case Some(p) =>
      if n == 0 || p !in loaded || loaded[p].cell.version != version then Stale
      else
        match HashChain.Find(loaded[p].cell.entries, k)
        case Some(v) => Found(v)
        case None => Walk(loaded, loaded[p].succ, loaded[p].cell.succVersion, k, n - 1)
  }

  /** What it should see in a chain of cells: a version error at the first page that does not match its link. */
  function Probe(version: Version, cells: seq<Cell<Pair>>, k: Key): Answer
    decreases |cells|
  {
    if cells == [] then Absent
    else if cells[0].version != version then Stale
    else
      match HashChain.Find(cells[0].entries, k)
      case Some(v) => Found(v)
      case None => Probe(cells[0].succVersion, cells[1..], k)
  }

  function AsAnswer(v: Option<EventId>): Answer {
    match v case None => Absent case Some(x) => Found(x)
  }

  /** In a linked chain there is no version error, and the answer is the binding. */
  lemma {:induction false} LinkedProbe(version: Version, cells: seq<Cell<Pair>>, k: Key)
    requires Linked(version, cells)
    ensures Probe(version, cells, k) == AsAnswer(HashChain.Lookup(cells, k))
    decreases |cells|
  {
    if cells != [] {
      HashChain.FindHas(cells[0].entries, k);
      LinkedProbe(cells[0].succVersion, cells[1..], k);
    }
  }

  /**
   Every page that passes its check is the present one: then the walk sees the present chain, or
   stops with a version error.
   */
  lemma {:induction false} WalkIsProbe(pages: Pages, loaded: Pages, c: Chain, version: Version, k: Key, i: nat)
    requires Threaded(pages, After(c, -1), c) && i <= |c| && loaded.Keys == pages.Keys
    requires Trusted(pages, version, c, loaded)
    ensures var v := Expected(version, Cells(pages, c), i);
            var w := Walk(loaded, After(c, i - 1), v, k, |c| - i);
            && (w.Stale? || w == Probe(v, Cells(pages, c)[i..], k))
            && (loaded == pages ==> w == Probe(v, Cells(pages, c)[i..], k))
    decreases |c| - i
  {
    var cells := Cells(pages, c);
    if i < |c| {
      assert cells[i..][0] == cells[i] && cells[i..][1..] == cells[i + 1..];
      assert Passing(pages, version, c, loaded, i);
      assert pages[c[i]].succ == After(c, i);
      WalkIsProbe(pages, loaded, c, version, k, i + 1);
    }
  }

  /** Every image leads where its page leads, or nowhere. */
  ghost predicate LeadAlong(pages: Pages, loaded: Pages) {
    && loaded.Keys == pages.Keys
    && forall p | p in pages :: loaded[p].succ.None? || loaded[p].succ == pages[p].succ
  }

  /** The loop of a lookup. */
  method Follow(loaded: Pages, start: Option<PageNo>, expected: Version, key: Key, ghost pages: Pages, ghost c: Chain) returns (r: Answer)
    requires Threaded(pages, start, c) && LeadAlong(pages, loaded)
    ensures r == Walk(loaded, start, expected, key, |c|)
  {
    var link, version := start, expected;
    ghost var i := 0;
    while link.Some?
      invariant i <= |c| && Walk(loaded, link, version, key, |c| - i) == Walk(loaded, start, expected, key, |c|)
      invariant link.Some? ==> i < |c| && link.value == c[i]
      decreases |c| - i
    {
      var p := link.value;
      assert pages[c[i]].succ == After(c, i);
      if loaded[p].cell.version != version {
        return Stale;
      }
      var value := HashChain.Find(loaded[p].cell.entries, key);
      if value.Some? {
        return Found(value.value);
      }
      link, version, i := loaded[p].succ, loaded[p].cell.succVersion, i + 1;
    }
    return Absent;
  }

  /** If the image of page `i` passes its version check, it is the page. */
  ghost predicate Passing(pages: Pages, version: Version, c: Chain, loaded: Pages, i: nat)
    requires InStore(pages, c) && i < |c|
  {
    c[i] in loaded && (loaded[c[i]].cell.version == Expected(version, Cells(pages, c), i) ==> loaded[c[i]] == pages[c[i]])
  }

  ghost predicate Trusted(pages: Pages, version: Version, c: Chain, loaded: Pages)
    requires InStore(pages, c)
  {
    forall i | 0 <= i < |c| :: Passing(pages, version, c, loaded, i)
  }

  // ----------------------------------------------------------------- page histories

  /** Every image a page ever had, oldest first: the i-th one has version i, wrapped, and no image led elsewhere. */
  ghost predicate HistoryOk(pages: Pages, history: map<PageNo, seq<Page>>) {
    && pages.Keys == history.Keys
    && forall p {:trigger PageHistory(history[p], pages[p])} | p in pages :: PageHistory(history[p], pages[p])
  }

  ghost predicate PageHistory(images: seq<Page>, page: Page) {
    && images != [] && images[|images| - 1] == page
    && forall i | 0 <= i < |images| ::
         images[i].cell.version == Count(i) && (images[i].succ.None? || images[i].succ == page.succ)
  }

  lemma HistoryGrows(images: seq<Page>, page: Page, next: Page)
    requires PageHistory(images, page) && next.cell.version == Increment(page.cell.version)
    requires page.succ.None? || next.succ == page.succ
    ensures PageHistory(images + [next], next)
  {
    CountNext(|images| - 1);
  }

  lemma HistoryWith(pages: Pages, history: map<PageNo, seq<Page>>, p: PageNo, page: Page, images: seq<Page>)
    requires HistoryOk(pages, history) && PageHistory(images, page)
    ensures HistoryOk(pages[p := page], history[p := images])
  {
    var pages', history' := pages[p := page], history[p := images];
    forall q | q in pages' ensures PageHistory(history'[q], pages'[q]) {
      if q != p { assert PageHistory(history[q], pages[q]); }
    }
  }

  /** Images only ever join the history. */
  ghost predicate Longer(a: map<PageNo, seq<Page>>, b: map<PageNo, seq<Page>>) {
    forall p {:trigger a[p]} {:trigger b[p]} | p in a :: p in b && a[p] <= b[p]
  }

  lemma LongerOne(a: map<PageNo, seq<Page>>, p: PageNo, images: seq<Page>)
    requires p in a ==> a[p] <= images
    ensures Longer(a, a[p := images])
  {
  }

  lemma LongerTrans(a: map<PageNo, seq<Page>>, b: map<PageNo, seq<Page>>, c: map<PageNo, seq<Page>>)
    requires Longer(a, b) && Longer(b, c)
    ensures Longer(a, c)
  {
    forall p | p in a ensures p in c && a[p] <= c[p] { assert a[p] <= b[p] && b[p] <= c[p]; }
  }

  /** `image` is an earlier (or the present) image of the page, `age` versions old. */
  ghost predicate IsImage(history: map<PageNo, seq<Page>>, p: PageNo, image: Page, age: nat) {
    p in history && age < |history[p]| && image == history[p][|history[p]| - 1 - age]
  }

  /** Every page is given as an image it has or had. */
  ghost predicate Images(pages: Pages, history: map<PageNo, seq<Page>>, loaded: Pages) {
    && loaded.Keys == pages.Keys
    && forall p {:trigger loaded[p]} | p in pages :: exists age: nat :: IsImage(history, p, loaded[p], age)
  }

  /** The same, each fewer than 65535 versions old. */
  ghost predicate RecentImages(pages: Pages, history: map<PageNo, seq<Page>>, loaded: Pages) {
    && loaded.Keys == pages.Keys
    && forall p {:trigger loaded[p]} | p in pages :: exists age: nat :: age < MAX_VALUE && IsImage(history, p, loaded[p], age)
  }

  /** The version check passes exactly for images a whole number of version ranges old. */
  lemma CheckPassesIff(pages: Pages, history: map<PageNo, seq<Page>>, p: PageNo, image: Page, age: nat)
    requires HistoryOk(pages, history) && p in pages && IsImage(history, p, image, age)
    ensures image.cell.version == pages[p].cell.version <==> age % MAX_VALUE == 0
  {
    var n := |history[p]| - 1;
    assert PageHistory(history[p], pages[p]);
    SameVersionIff(n - age, n);
  }

  /** An image fewer than 65535 versions old that passes the check is the present one. */
  lemma RecentImageIsCurrent(pages: Pages, history: map<PageNo, seq<Page>>, p: PageNo, image: Page, age: nat)
    requires HistoryOk(pages, history) && p in pages && IsImage(history, p, image, age) && age < MAX_VALUE
    requires image.cell.version == pages[p].cell.version
    ensures image == pages[p]
  {
    CheckPassesIff(pages, history, p, image, age);
    assert PageHistory(history[p], pages[p]);
  }

  lemma PresentIsImage(pages: Pages, history: map<PageNo, seq<Page>>)
    requires HistoryOk(pages, history)
    ensures RecentImages(pages, history, pages)
  {
    forall p | p in pages ensures exists age: nat :: age < MAX_VALUE && IsImage(history, p, pages[p], age) {
      assert PageHistory(history[p], pages[p]);
      assert IsImage(history, p, pages[p], 0);
    }
  }

  /** In a linked chain, recent images that pass their check are the present pages. */
  lemma RecentIsTrusted(pages: Pages, history: map<PageNo, seq<Page>>, version: Version, c: Chain, loaded: Pages)
    requires HistoryOk(pages, history) && RecentImages(pages, history, loaded)
    requires InStore(pages, c) && Linked(version, Cells(pages, c))
    ensures Trusted(pages, version, c, loaded)
  {
    LinkedIff(version, Cells(pages, c));
    forall i | 0 <= i < |c| ensures Passing(pages, version, c, loaded, i) {
      assert Matches(version, Cells(pages, c), i);
      var age: nat :| age < MAX_VALUE && IsImage(history, c[i], loaded[c[i]], age);
      if loaded[c[i]].cell.version == pages[c[i]].cell.version {
        RecentImageIsCurrent(pages, history, c[i], loaded[c[i]], age);
      }
    }
  }

  lemma HonestIsTrusted(pages: Pages, version: Version, c: Chain)
    requires InStore(pages, c)
    ensures Trusted(pages, version, c, pages)
  {
    forall i | 0 <= i < |c| ensures Passing(pages, version, c, pages, i) {}
  }

  lemma ImagesLead(pages: Pages, history: map<PageNo, seq<Page>>, loaded: Pages)
    requires HistoryOk(pages, history) && Images(pages, history, loaded)
    ensures LeadAlong(pages, loaded)
  {
    forall p | p in pages ensures loaded[p].succ.None? || loaded[p].succ == pages[p].succ {
      assert PageHistory(history[p], pages[p]);
      var age: nat :| IsImage(history, p, loaded[p], age);
    }
  }

  // ------------------------------------------------------------------------ the map

  /** After an insert, the bucket is in order again. */
  lemma BucketAfterInsert(l: Layout<Pair>, hash: Key -> nat, before: Pages, old_: Bucket, c: Chain, b: nat,
                          after: Pages, d: Chain, k: Key, v: EventId)
    requires HashChain.Sane(l) && BucketShaped(l, hash, before, old_, c, b) && hash(k) % NUM_BUCKETS == b
    requires ChainInserted(l, before, c, after, d, k, v)
    ensures var next := Bucket(Some(d[0]), Increment(old_.version));
            && BucketShaped(l, hash, after, next, d, b)
            && (BucketLinked(before, old_, c) ==> BucketLinked(after, next, d))
  {
    var es, r := Flat(Cells(before, c)), Flat(Cells(after, d));
    HashChain.InsertKeepsChain(l, old_.version, Cells(before, c), k, v);
    HashChain.InsertIsPut(l, Cells(before, c), k, v);
    forall i | 0 <= i < |r| ensures hash(r[i].0) % NUM_BUCKETS == b {
      if i < |es| { assert r[i].0 == es[i].0; }
    }
  }

  /** After an insert that was stopped, too, and it holds the same entries. */
  lemma BucketAfterStop(l: Layout<Pair>, hash: Key -> nat, before: Pages, old_: Bucket, c: Chain, b: nat, after: Pages, i: nat)
    requires HashChain.Sane(l) && BucketShaped(l, hash, before, old_, c, b) && ChainAbandoned(before, c, after, i)
    ensures var next := Bucket(old_.page, Increment(old_.version));
            && BucketShaped(l, hash, after, next, c, b) && Flat(Cells(after, c)) == Flat(Cells(before, c))
            && (BucketLinked(before, old_, c) ==> BucketLinked(after, next, c))
  {
    HashChain.AbandonedShaped(l, old_.version, Cells(before, c), i);
    if BucketLinked(before, old_, c) { AbandonedLinked(old_.version, Cells(before, c), i); }
  }

  ghost predicate AllShaped(l: Layout<Pair>, hash: Key -> nat, pages: Pages, buckets: seq<Bucket>, chains: seq<Chain>) {
    && |buckets| == |chains| == NUM_BUCKETS
    && forall b {:trigger BucketShaped(l, hash, pages, buckets[b], chains[b], b)} | 0 <= b < NUM_BUCKETS ::
         BucketShaped(l, hash, pages, buckets[b], chains[b], b)
  }

  ghost predicate AllLinked(pages: Pages, buckets: seq<Bucket>, chains: seq<Chain>) {
    && |buckets| == |chains| == NUM_BUCKETS
    && forall b {:trigger BucketLinked(pages, buckets[b], chains[b])} | 0 <= b < NUM_BUCKETS ::
         BucketLinked(pages, buckets[b], chains[b])
  }

  lemma BucketAt(l: Layout<Pair>, hash: Key -> nat, pages: Pages, buckets: seq<Bucket>, chains: seq<Chain>, b: nat)
    requires AllShaped(l, hash, pages, buckets, chains) && b < NUM_BUCKETS
    ensures BucketShaped(l, hash, pages, buckets[b], chains[b], b)
  {
  }

  lemma LinkedAt(pages: Pages, buckets: seq<Bucket>, chains: seq<Chain>, b: nat)
    requires AllLinked(pages, buckets, chains) && b < NUM_BUCKETS
    ensures BucketLinked(pages, buckets[b], chains[b])
  {
  }

  /** Only pages of bucket `b`, and pages that did not exist, have changed. */
  ghost predicate OnlyBucket(before: Pages, chains: seq<Chain>, b: nat, after: Pages, d: Chain) {
    && b < |chains| && Extends(before, chains[b], d)
    && forall q | q in before && q !in d :: q in after && after[q] == before[q]
  }

  /** The other buckets are as they were. */
  lemma OtherBucketKept(l: Layout<Pair>, hash: Key -> nat, before: Pages, buckets: seq<Bucket>, chains: seq<Chain>,
                        b: nat, after: Pages, d: Chain, a: nat)
    requires AllShaped(l, hash, before, buckets, chains) && Apart(chains)
    requires OnlyBucket(before, chains, b, after, d) && a < NUM_BUCKETS && a != b
    ensures BucketShaped(l, hash, before, buckets[a], chains[a], a) && BucketShaped(l, hash, after, buckets[a], chains[a], a)
    ensures Cells(after, chains[a]) == Cells(before, chains[a])
  {
    BucketAt(l, hash, before, buckets, chains, a);
    forall i | 0 <= i < |chains[a]| ensures chains[a][i] !in d {
      forall j | 0 <= j < |d| ensures chains[a][i] != d[j] {
        if j < |chains[b]| { assert d[j] == chains[b][j]; }
      }
    }
    BucketFrame(l, hash, before, after, buckets[a], chains[a], a);
  }

  lemma ApartKept(l: Layout<Pair>, hash: Key -> nat, before: Pages, buckets: seq<Bucket>, chains: seq<Chain>, b: nat, d: Chain)
    requires AllShaped(l, hash, before, buckets, chains) && Apart(chains)
    requires b < NUM_BUCKETS && Extends(before, chains[b], d)
    ensures Apart(chains[b := d])
  {
    forall a | 0 <= a < |chains| ensures InStore(before, chains[a]) { BucketAt(l, hash, before, buckets, chains, a); }
    ApartAfter(chains, b, d, before);
  }

  /** When one bucket changes and keeps its shape, all buckets have theirs. */
  lemma AllShapedAfter(l: Layout<Pair>, hash: Key -> nat, before: Pages, buckets: seq<Bucket>, chains: seq<Chain>,
                       b: nat, after: Pages, d: Chain, bucket: Bucket)
    requires AllShaped(l, hash, before, buckets, chains) && Apart(chains)
    requires OnlyBucket(before, chains, b, after, d) && BucketShaped(l, hash, after, bucket, d, b)
    ensures AllShaped(l, hash, after, buckets[b := bucket], chains[b := d])
  {
    var buckets', chains' := buckets[b := bucket], chains[b := d];
    forall a | 0 <= a < NUM_BUCKETS ensures BucketShaped(l, hash, after, buckets'[a], chains'[a], a) {
      if a != b { OtherBucketKept(l, hash, before, buckets, chains, b, after, d, a); }
    }
  }

  lemma AllLinkedAfter(l: Layout<Pair>, hash: Key -> nat, before: Pages, buckets: seq<Bucket>, chains: seq<Chain>,
                       b: nat, after: Pages, d: Chain, bucket: Bucket)
    requires AllShaped(l, hash, before, buckets, chains) && Apart(chains) && AllLinked(before, buckets, chains)
    requires OnlyBucket(before, chains, b, after, d) && BucketLinked(after, bucket, d)
    ensures AllLinked(after, buckets[b := bucket], chains[b := d])
  {
    var buckets', chains' := buckets[b := bucket], chains[b := d];
    forall a | 0 <= a < NUM_BUCKETS ensures BucketLinked(after, buckets'[a], chains'[a]) {
      if a != b {
        OtherBucketKept(l, hash, before, buckets, chains, b, after, d, a);
        LinkedAt(before, buckets, chains, a);
      }
    }
  }

  ghost function LookupIn(pages: Pages, chains: seq<Chain>, b: nat, q: Key): Option<EventId>
    requires b < |chains| && InStore(pages, chains[b])
  {
    HashChain.Lookup(Cells(pages, chains[b]), q)
  }

  /** What the key `q` is bound to before and after. */
  lemma LookupAfterInsert(l: Layout<Pair>, hash: Key -> nat, before: Pages, buckets: seq<Bucket>, chains: seq<Chain>,
                          b: nat, after: Pages, d: Chain, k: Key, v: EventId, q: Key)
    requires HashChain.Sane(l) && AllShaped(l, hash, before, buckets, chains) && Apart(chains)
    requires b == hash(k) % NUM_BUCKETS && InStore(before, chains[b]) && ChainInserted(l, before, chains[b], after, d, k, v)
    ensures var a := hash(q) % NUM_BUCKETS;
            && InStore(after, chains[b := d][a]) && InStore(before, chains[a])
            && LookupIn(after, chains[b := d], a, q) == if q == k then Some(v) else LookupIn(before, chains, a, q)
  {
    var a := hash(q) % NUM_BUCKETS;
    if a == b {
      BucketAt(l, hash, before, buckets, chains, b);
      HashChain.InsertLookup(l, Cells(before, chains[b]), k, v, q);
    } else {
      OtherBucketKept(l, hash, before, buckets, chains, b, after, d, a);
    }
  }

  lemma LookupAfterStop(l: Layout<Pair>, hash: Key -> nat, before: Pages, buckets: seq<Bucket>, chains: seq<Chain>,
                        b: nat, after: Pages, i: nat, q: Key)
    requires HashChain.Sane(l) && AllShaped(l, hash, before, buckets, chains) && Apart(chains)
    requires b < NUM_BUCKETS && InStore(before, chains[b]) && ChainAbandoned(before, chains[b], after, i)
    ensures var a := hash(q) % NUM_BUCKETS;
            InStore(after, chains[a]) && InStore(before, chains[a]) && LookupIn(after, chains, a, q) == LookupIn(before, chains, a, q)
  {
    var a := hash(q) % NUM_BUCKETS;
    if a == b {
      BucketAt(l, hash, before, buckets, chains, b);
      BucketAfterStop(l, hash, before, buckets[b], chains[b], b, after, i);
      HashChain.LookupIsFind(Cells(before, chains[b]), q);
      HashChain.LookupIsFind(Cells(after, chains[b]), q);
    } else {
      OtherBucketKept(l, hash, before, buckets, chains, b, after, chains[b], a);
    }
  }

  /** The given page `j` has the version that the link to it expects. */
  ghost predicate MatchAt(before: Pages, version: Version, c: Chain, loaded: Pages, j: nat)
    requires InStore(before, c) && j < |c|
  {
    c[j] in loaded && loaded[c[j]].cell.version == Expected(version, Cells(before, c), j)
  }

  /** So do all up to `i`. */
  ghost predicate MatchTo(before: Pages, version: Version, c: Chain, loaded: Pages, i: nat)
    requires InStore(before, c)
  {
    forall j {:trigger MatchAt(before, version, c, loaded, j)} | 0 <= j <= i && j < |c| :: MatchAt(before, version, c, loaded, j)
  }

  /** No page before `i` takes the entry, and page `i` fails its check. */
  ghost predicate StoppedAt(l: Layout<Pair>, before: Pages, version: Version, c: Chain, loaded: Pages, k: Key, i: nat)
    requires InStore(before, c)
  {
    && i < |c| && HashChain.NoneTakes(l, Cells(before, c), k, i)
    && c[i] in loaded && loaded[c[i]].cell.version != Expected(version, Cells(before, c), i)
  }

  /** An insert of `k` stands at page `p`, the `i`-th of its chain, and every page so far has passed its check. */
  ghost predicate Turn(l: Layout<Pair>, k: Key, before: Pages, version: Version, c: Chain, loaded: Pages, now: Pages, d: Chain, i: nat, p: PageNo) {
    && Searching(l, k, before, c, now, d, i) && MatchTo(before, version, c, loaded, i)
    && p == d[i] && p in now && before.Keys <= now.Keys
  }

  lemma MatchOneMore(before: Pages, version: Version, c: Chain, loaded: Pages, i: nat)
    requires InStore(before, c) && MatchTo(before, version, c, loaded, i) && i < |c|
    requires i + 1 < |c| ==> c[i + 1] in loaded && loaded[c[i + 1]].cell.version == before[c[i]].cell.succVersion
    ensures MatchTo(before, version, c, loaded, i + 1)
  {
  }

  lemma StopHere(l: Layout<Pair>, before: Pages, version: Version, c: Chain, loaded: Pages, k: Key, now: Pages, d: Chain, i: nat)
    requires Searching(l, k, before, c, now, d, i) && i + 1 < |c| && !HashChain.Takes(l, before[c[i]].cell, k)
    requires c[i + 1] in loaded && loaded[c[i + 1]].cell.version != before[c[i]].cell.succVersion
    ensures StoppedAt(l, before, version, c, loaded, k, i + 1)
  {
    NoneTakesSnoc(l, Cells(before, c), k, i);
  }

  lemma NoneTakesSnoc(l: Layout<Pair>, cells: seq<Cell<Pair>>, k: Key, i: nat)
    requires i < |cells| && HashChain.NoneTakes(l, cells, k, i) && !HashChain.Takes(l, cells[i], k)
    ensures HashChain.NoneTakes(l, cells, k, i + 1)
  {
  }

  lemma StopMeans(l: Layout<Pair>, before: Pages, version: Version, c: Chain, loaded: Pages, k: Key, i: nat)
    requires InStore(before, c) && StoppedAt(l, before, version, c, loaded, k, i)
    ensures loaded == before ==> !HashChain.Admits(l, version, Cells(before, c), k)
  {
    if loaded == before { HashChain.NotAdmitted(l, version, Cells(before, c), k, i); }
  }

  lemma DoneMeans(l: Layout<Pair>, before: Pages, version: Version, c: Chain, loaded: Pages, k: Key, i: nat)
    requires InStore(before, c) && i <= |c| && HashChain.NoneTakes(l, Cells(before, c), k, i)
    requires i < |c| ==> HashChain.Takes(l, before[c[i]].cell, k)
    requires MatchTo(before, version, c, loaded, i)
    ensures loaded == before ==> HashChain.Admits(l, version, Cells(before, c), k)
  {
    if loaded == before {
      var cells := Cells(before, c);
      forall j | 0 <= j <= i && j < |c| ensures Matches(version, cells, j) { assert MatchAt(before, version, c, loaded, j); }
      HashChain.AdmitsIff(l, version, cells, k, i);
    }
  }

  /** Buckets other than `b` hold the same cells. */
  ghost predicate SameElsewhere(before: Pages, chains: seq<Chain>, after: Pages, chains': seq<Chain>, b: nat) {
    && |chains| == |chains'|
    && forall a {:trigger chains[a]} | 0 <= a < |chains| && a != b ::
         InStore(before, chains[a]) && InStore(after, chains'[a]) && Cells(after, chains'[a]) == Cells(before, chains[a])
  }

  lemma InsertedIsOnlyBucket(l: Layout<Pair>, before: Pages, chains: seq<Chain>, b: nat, after: Pages, d: Chain, k: Key, v: EventId)
    requires b < |chains| && InStore(before, chains[b]) && ChainInserted(l, before, chains[b], after, d, k, v)
    ensures OnlyBucket(before, chains, b, after, d)
  {
  }

  /** After an insert all buckets are in order, and linked if they were. */
  lemma Inserted(l: Layout<Pair>, hash: Key -> nat, before: Pages, buckets: seq<Bucket>, chains: seq<Chain>,
                 b: nat, after: Pages, d: Chain, k: Key, v: EventId, bucket: Bucket)
    requires HashChain.Sane(l) && AllShaped(l, hash, before, buckets, chains) && Apart(chains)
    requires b == hash(k) % NUM_BUCKETS && InStore(before, chains[b]) && ChainInserted(l, before, chains[b], after, d, k, v)
    requires bucket == Bucket(Some(d[0]), Increment(buckets[b].version))
    ensures AllShaped(l, hash, after, buckets[b := bucket], chains[b := d]) && Apart(chains[b := d])
    ensures AllLinked(before, buckets, chains) ==> AllLinked(after, buckets[b := bucket], chains[b := d])
    ensures SameElsewhere(before, chains, after, chains[b := d], b)
  {
    BucketAt(l, hash, before, buckets, chains, b);
    BucketAfterInsert(l, hash, before, buckets[b], chains[b], b, after, d, k, v);
    InsertedIsOnlyBucket(l, before, chains, b, after, d, k, v);
    AllShapedAfter(l, hash, before, buckets, chains, b, after, d, bucket);
    ApartKept(l, hash, before, buckets, chains, b, d);
    if AllLinked(before, buckets, chains) {
      LinkedAt(before, buckets, chains, b);
      AllLinkedAfter(l, hash, before, buckets, chains, b, after, d, bucket);
    }
    ElsewhereKept(l, hash, before, buckets, chains, b, after, d);
  }

  lemma ElsewhereKept(l: Layout<Pair>, hash: Key -> nat, before: Pages, buckets: seq<Bucket>, chains: seq<Chain>, b: nat, after: Pages, d: Chain)
    requires AllShaped(l, hash, before, buckets, chains) && Apart(chains) && OnlyBucket(before, chains, b, after, d)
    ensures SameElsewhere(before, chains, after, chains[b := d], b)
  {
    forall a | 0 <= a < |chains| && a != b
      ensures InStore(before, chains[a]) && InStore(after, chains[b := d][a]) && Cells(after, chains[b := d][a]) == Cells(before, chains[a])
    {
      OtherBucketKept(l, hash, before, buckets, chains, b, after, d, a);
    }
  }

  /** After an insert that was stopped, too. */
  lemma Stopped(l: Layout<Pair>, hash: Key -> nat, before: Pages, buckets: seq<Bucket>, chains: seq<Chain>,
                b: nat, after: Pages, i: nat, bucket: Bucket)
    requires HashChain.Sane(l) && AllShaped(l, hash, before, buckets, chains) && Apart(chains)
    requires b < NUM_BUCKETS && InStore(before, chains[b]) && ChainAbandoned(before, chains[b], after, i)
    requires bucket == Bucket(buckets[b].page, Increment(buckets[b].version))
    ensures AllShaped(l, hash, after, buckets[b := bucket], chains)
    ensures AllLinked(before, buckets, chains) ==> AllLinked(after, buckets[b := bucket], chains)
    ensures SameElsewhere(before, chains, after, chains, b)
  {
    BucketAt(l, hash, before, buckets, chains, b);
    BucketAfterStop(l, hash, before, buckets[b], chains[b], b, after, i);
    assert OnlyBucket(before, chains, b, after, chains[b]);
    assert chains[b := chains[b]] == chains;
    AllShapedAfter(l, hash, before, buckets, chains, b, after, chains[b], bucket);
    if AllLinked(before, buckets, chains) {
      LinkedAt(before, buckets, chains, b);
      AllLinkedAfter(l, hash, before, buckets, chains, b, after, chains[b], bucket);
    }
    ElsewhereKept(l, hash, before, buckets, chains, b, after, chains[b]);
  }

  class HashMap {
    const layout: Layout<Pair>
    const hash: Key -> nat
    var buckets: seq<Bucket>
    var pages: Pages
    var nextPage: PageNo
    var size: nat
    ghost var chains: seq<Chain>
    ghost var history: map<PageNo, seq<Page>>

    /** The next page number is free, and every page's images are known. */
    ghost predicate PagesOk()
      reads this
    {
      (forall p | p in pages :: p < nextPage) && HistoryOk(pages, history)
    }

    ghost predicate StoreOk()
      reads this
    {
      && HashChain.Sane(layout)
      && |buckets| == |chains| == NUM_BUCKETS
      && Apart(chains)
      && PagesOk()
    }

    /** All that holds whatever the versions: the chains can be followed and hold each key once, in its bucket. */
    ghost predicate Shaped()
      reads this
    {
      && StoreOk()
      && AllShaped(layout, hash, pages, buckets, chains)
    }

    /** And every page has the version that the link to it expects. */
    ghost predicate Valid()
      reads this
    {
      && Shaped()
      && AllLinked(pages, buckets, chains)
    }

    function ToBucket(key: Key): nat
    {
      hash(key) % NUM_BUCKETS
    }

    ghost function CellsOf(b: nat): seq<Cell<Pair>>
      reads this
      requires Shaped() && b < NUM_BUCKETS
    {
      BucketAt(layout, hash, pages, buckets, chains, b);
      Cells(pages, chains[b])
    }

    /** The map this object stands for. */
    ghost function Binding(key: Key): Option<EventId>
      reads this
      requires Shaped()
    {
      HashChain.Lookup(CellsOf(ToBucket(key)), key)
    }

    constructor (layout: Layout<Pair>, hash: Key -> nat)
      requires HashChain.Sane(layout)
      ensures Valid() && this.layout == layout && this.hash == hash
      ensures size == 0 && forall key :: Binding(key).None?
      ensures forall b | 0 <= b < NUM_BUCKETS :: CellsOf(b) == [] && buckets[b] == Bucket(None, 0)
    {
      this.layout, this.hash := layout, hash;
      buckets := seq(NUM_BUCKETS, _ => Bucket(None, 0));
      pages, nextPage, size := map[], 1, 0;
      chains := seq(NUM_BUCKETS, _ => []);
      history := map[];
    }

    /** A fresh page from the buffer manager. */
    method NewPage() returns (p: PageNo)
      requires PagesOk()
      modifies this
      ensures buckets == old(buckets) && chains == old(chains) && size == old(size)
      ensures PagesOk()
      ensures p !in old(pages) && p == old(nextPage) && pages == old(pages)[p := Page(EmptyCell(), None)]
      ensures history == old(history)[p := [Page(EmptyCell(), None)]] && Longer(old(history), history)
    {
      p := nextPage;
      assert Count(0) == 0;
      HistoryWith(pages, history, p, Page(EmptyCell(), None), [Page(EmptyCell(), None)]);
      nextPage := nextPage + 1;
      LongerOne(history, p, [Page(EmptyCell(), None)]);
      pages := pages[p := Page(EmptyCell(), None)];
      history := history[p := [Page(EmptyCell(), None)]];
    }

    /** Change a page, one version up; a link once made stays. */
    method WritePage(p: PageNo, page: Page)
      requires p in pages && HistoryOk(pages, history)
      requires page.cell.version == Increment(pages[p].cell.version) && (pages[p].succ.None? || page.succ == pages[p].succ)
      modifies this
      ensures buckets == old(buckets) && chains == old(chains) && size == old(size) && nextPage == old(nextPage)
      ensures HistoryOk(pages, history) && pages == old(pages)[p := page]
      ensures history == old(history)[p := old(history)[p] + [page]] && Longer(old(history), history)
    {
      assert PageHistory(history[p], pages[p]);
      HistoryGrows(history[p], pages[p], page);
      HistoryWith(pages, history, p, page, history[p] + [page]);
      LongerOne(history, p, history[p] + [page]);
      history := history[p := history[p] + [page]];
      pages := pages[p := page];
    }

    /**
     Lookup.  `loaded` is what the buffer manager returns for each page: the page itself or,
     if the page was evicted and the disk is not trusted, an image it had at some time.
     Of a linked map and images fewer than 65535 versions old, the answer is the present binding
     or a staleness error, never an old value.
     */
    method Get(key: Key, loaded: Pages) returns (r: Answer)
      requires Shaped() && Images(pages, history, loaded)
      ensures r == Walk(loaded, buckets[ToBucket(key)].page, buckets[ToBucket(key)].version, key, |chains[ToBucket(key)]|)
      ensures Valid() && RecentImages(pages, history, loaded) ==> r.Stale? || r == AsAnswer(Binding(key))
      ensures loaded == pages ==> r == Probe(buckets[ToBucket(key)].version, CellsOf(ToBucket(key)), key)
      ensures loaded == pages && Valid() ==> r == AsAnswer(Binding(key))
    {
      var b := ToBucket(key);
      BucketAt(layout, hash, pages, buckets, chains, b);
      ImagesLead(pages, history, loaded);
      r := Follow(loaded, buckets[b].page, buckets[b].version, key, pages, chains[b]);
      GetMeans(key, loaded, r);
    }

    /** What the walk of a lookup comes to. */
    lemma GetMeans(key: Key, loaded: Pages, w: Answer)
      requires Shaped() && Images(pages, history, loaded)
      requires w == Walk(loaded, buckets[ToBucket(key)].page, buckets[ToBucket(key)].version, key, |chains[ToBucket(key)]|)
      ensures Valid() && RecentImages(pages, history, loaded) ==> w.Stale? || w == AsAnswer(Binding(key))
      ensures loaded == pages ==> w == Probe(buckets[ToBucket(key)].version, CellsOf(ToBucket(key)), key)
      ensures loaded == pages && Valid() ==> w == AsAnswer(Binding(key))
    {
      var b := ToBucket(key);
      BucketAt(layout, hash, pages, buckets, chains, b);
      var v, c := buckets[b].version, chains[b];
      assert Cells(pages, c)[0..] == Cells(pages, c);
      if Valid() {
        LinkedAt(pages, buckets, chains, b);
        LinkedProbe(v, Cells(pages, c), key);
        if RecentImages(pages, history, loaded) {
          RecentIsTrusted(pages, history, v, c, loaded);
          WalkIsProbe(pages, loaded, c, v, key, 0);
        }
      }
      if loaded == pages {
        HonestIsTrusted(pages, v, c);
        WalkIsProbe(pages, loaded, c, v, key, 0);
      }
    }

    /** `get_node` with `create`: the bucket's first page, if it passes its check, and the bucket one version up. */
    method FirstPage(b: nat, loaded: Pages) returns (p: Option<PageNo>)
      requires b < |buckets| && PagesOk()
      requires buckets[b].page.Some? ==>
                 var q := buckets[b].page.value;
                 q in pages && q in loaded && (loaded[q].cell.version == buckets[b].version ==> loaded[q] == pages[q])
      modifies this
      ensures chains == old(chains) && size == old(size)
      ensures PagesOk() && Longer(old(history), history)
      ensures p.None? <==> old(buckets[b].page).Some? && loaded[old(buckets[b].page).value].cell.version != old(buckets[b].version)
      ensures p.None? ==> buckets == old(buckets) && pages == old(pages) && history == old(history)
      ensures p.Some? ==> buckets == old(buckets)[b := Bucket(p, Increment(old(buckets[b].version)))]
      ensures p.Some? ==>
              match old(buckets[b].page)
              case Some(q) => p.value == q && pages == old(pages) && nextPage == old(nextPage)
              case None => p.value == old(nextPage) && pages == old(pages)[p.value := Page(EmptyCell(), None)]
    {
      if buckets[b].page.None? {
        var q := NewPage();
        p := Some(q);
      } else if loaded[buckets[b].page.value].cell.version != buckets[b].version {
        return None;
      } else {
        p := buckets[b].page;
      }
      buckets := buckets[b := Bucket(p, Increment(buckets[b].version))];
    }

    /**
     `get_successor` with `create`: the next page, if it passes its check, and the link to it one
     version up.  The page itself has counted up before the check.
     */
    method NextPage(p: PageNo, loaded: Pages) returns (q: Option<PageNo>)
      requires p in pages && PagesOk()
      requires pages[p].succ.Some? ==>
                 var n := pages[p].succ.value;
                 n in pages && n in loaded && (loaded[n].cell.version == pages[p].cell.succVersion ==> loaded[n] == pages[n])
      modifies this
      ensures buckets == old(buckets) && chains == old(chains) && size == old(size)
      ensures PagesOk() && Longer(old(history), history)
      ensures q.None? <==> old(pages[p].succ).Some? && loaded[old(pages[p].succ).value].cell.version != old(pages[p].cell.succVersion)
      ensures q.None? ==> nextPage == old(nextPage) && pages == old(pages)[p := Page(Bump(old(pages[p].cell)), old(pages[p].succ))]
      ensures q.Some? ==>
              match old(pages[p].succ)
              case Some(n) =>
                q.value == n && nextPage == old(nextPage) && pages == old(pages)[p := Page(Pass(old(pages[p].cell)), q)]
              case None =>
                && q.value == old(nextPage)
                && pages == old(pages)[q.value := Page(EmptyCell(), None)][p := Page(Pass(old(pages[p].cell)), q)]
    {
      ghost var between := history;
      if pages[p].succ.None? {
        var n := NewPage();
        q := Some(n);
        between := history;
      } else if loaded[pages[p].succ.value].cell.version != pages[p].cell.succVersion {
        WritePage(p, Page(Bump(pages[p].cell), pages[p].succ));
        return None;
      } else {
        q := pages[p].succ;
      }
      WritePage(p, Page(Pass(pages[p].cell), q));
      LongerTrans(old(history), between, history);
    }

    /** One turn of `insert`'s loop that finds the page full. */
    method PassPage(p: PageNo, key: Key, loaded: Pages, ghost before: Pages, ghost version: Version, ghost c: Chain, ghost d: Chain, ghost i: nat)
      returns (q: Option<PageNo>, ghost e: Chain)
      requires HashChain.Sane(layout) && PagesOk() && Threaded(before, After(c, -1), c) && before.Keys == loaded.Keys
      requires Trusted(before, version, c, loaded)
      requires Turn(layout, key, before, version, c, loaded, pages, d, i, p) && !HashChain.Takes(layout, pages[p].cell, key)
      modifies this
      ensures buckets == old(buckets) && chains == old(chains) && size == old(size) && PagesOk() && Longer(old(history), history)
      ensures i < |c|
      ensures q.None? ==> ChainAbandoned(before, c, pages, i) && StoppedAt(layout, before, version, c, loaded, key, i + 1)
      ensures q.Some? ==> Turn(layout, key, before, version, c, loaded, pages, e, i + 1, q.value) && e[0] == d[0]
    {
      ghost var now := pages;
      assert now[d[i]] == PageAt(before, c, d, i, i);
      assert i < |c| && before[c[i]].succ == After(c, i);
      if i + 1 < |c| {
        assert now[d[i + 1]] == PageAt(before, c, d, i, i + 1);
        assert Passing(before, version, c, loaded, i + 1);
      }
      q := NextPage(p, loaded);
      e := d;
      if q.None? {
        StopHere(layout, before, version, c, loaded, key, now, d, i);
        SearchStopped(before, c, now, d, i, pages);
      } else {
        MatchOneMore(before, version, c, loaded, i);
        e := SearchNext(layout, key, before, c, now, d, i, q.value, pages);
      }
    }

    /** The loop of `insert`: pass pages until one takes the entry or one fails its check. */
    method PassPages(start: PageNo, key: Key, loaded: Pages, ghost before: Pages, ghost version: Version, ghost c: Chain, ghost first: Chain)
      returns (p: Option<PageNo>, ghost d: Chain, ghost i: nat)
      requires HashChain.Sane(layout) && PagesOk() && Threaded(before, After(c, -1), c) && before.Keys == loaded.Keys
      requires Trusted(before, version, c, loaded) && Turn(layout, key, before, version, c, loaded, pages, first, 0, start)
      modifies this
      ensures buckets == old(buckets) && chains == old(chains) && size == old(size) && PagesOk() && Longer(old(history), history)
      ensures p.Some? ==>
                && Turn(layout, key, before, version, c, loaded, pages, d, i, p.value) && d[0] == first[0]
                && HashChain.Takes(layout, pages[p.value].cell, key)
      ensures p.None? ==> ChainAbandoned(before, c, pages, i) && StoppedAt(layout, before, version, c, loaded, key, i + 1)
    {
      var q := start;
      d, i := first, 0;
      while !HashChain.Takes(layout, pages[q].cell, key)
        invariant buckets == old(buckets) && chains == old(chains) && size == old(size) && PagesOk() && Longer(old(history), history)
        invariant Turn(layout, key, before, version, c, loaded, pages, d, i, q) && d[0] == first[0]
        decreases |c| - i
      {
        ghost var sofar := history;
        p, d := PassPage(q, key, loaded, before, version, c, d, i);
        LongerTrans(old(history), sofar, history);
        if p.None? {
          return;
        }
        q, i := p.value, i + 1;
      }
      p := Some(q);
    }

    /** The page that takes the entry stores it. */
    method StoreEntry(p: PageNo, key: Key, value: EventId, loaded: Pages,
                      ghost before: Pages, ghost version: Version, ghost c: Chain, ghost d: Chain, ghost i: nat)
      requires PagesOk() && Threaded(before, After(c, -1), c)
      requires Turn(layout, key, before, version, c, loaded, pages, d, i, p) && HashChain.Takes(layout, pages[p].cell, key)
      modifies this
      ensures buckets == old(buckets) && chains == old(chains) && size == old(size) && PagesOk() && Longer(old(history), history)
      ensures ChainInserted(layout, before, c, pages, d, key, value)
      ensures loaded == before ==> HashChain.Admits(layout, version, Cells(before, c), key)
    {
      ghost var now := pages;
      assert now[d[i]] == PageAt(before, c, d, i, i);
      WritePage(p, Page(HashChain.Store(pages[p].cell, key, value), pages[p].succ));
      SearchDone(layout, before, c, now, d, i, key, value, pages);
      DoneMeans(layout, before, version, c, loaded, key, i);
    }

    /** `insert` on one chain. */
    method InsertInChain(b: nat, key: Key, value: EventId, loaded: Pages) returns (ok: bool, ghost d: Chain, ghost i: nat)
      requires HashChain.Sane(layout) && b < |buckets| == |chains| && loaded.Keys == pages.Keys && PagesOk()
      requires Threaded(pages, buckets[b].page, chains[b]) && NoRepeats(chains[b])
      requires Trusted(pages, buckets[b].version, chains[b], loaded)
      modifies this
      ensures chains == old(chains) && size == old(size) && PagesOk() && Longer(old(history), history)
      ensures loaded == old(pages) ==> (ok <==> HashChain.Admits(layout, old(buckets[b].version), Cells(old(pages), chains[b]), key))
      ensures ok ==> ChainInserted(layout, old(pages), chains[b], pages, d, key, value)
      ensures ok ==> buckets == old(buckets)[b := Bucket(Some(d[0]), Increment(old(buckets[b].version)))]
      ensures !ok ==> || (buckets == old(buckets) && pages == old(pages) && history == old(history))
                      || (ChainAbandoned(old(pages), chains[b], pages, i) &&
                          buckets == old(buckets)[b := Bucket(old(buckets[b].page), Increment(old(buckets[b].version)))])
    {
      ghost var before, c, version := pages, chains[b], buckets[b].version;
      d, i := c, 0;
      if c != [] { assert Passing(pages, version, c, loaded, 0); }
      var first := FirstPage(b, loaded);
      if first.None? {
        StopMeans(layout, before, version, c, loaded, key, 0);
        return false, d, i;
      }
      ReachedFirst(before, c, old(buckets[b].page), first.value, pages);
      d := if c == [] then [first.value] else c;
      ghost var one := history;
      var p;
      p, d, i := PassPages(first.value, key, loaded, before, version, c, d);
      LongerTrans(old(history), one, history);
      if p.None? {
        StopMeans(layout, before, version, c, loaded, key, i + 1);
        return false, d, i;
      }
      ghost var two := history;
      StoreEntry(p.value, key, value, loaded, before, version, c, d, i);
      LongerTrans(old(history), two, history);
      ok := true;
    }

    lemma ReadyToInsert(key: Key, loaded: Pages, b: nat)
      requires Shaped() && RecentImages(pages, history, loaded) && (Valid() || loaded == pages) && b < NUM_BUCKETS
      ensures Threaded(pages, buckets[b].page, chains[b]) && NoRepeats(chains[b])
      ensures Trusted(pages, buckets[b].version, chains[b], loaded)
      ensures Valid() ==> HashChain.Admits(layout, buckets[b].version, Cells(pages, chains[b]), key)
    {
      BucketAt(layout, hash, pages, buckets, chains, b);
      if Valid() {
        LinkedAt(pages, buckets, chains, b);
        RecentIsTrusted(pages, history, buckets[b].version, chains[b], loaded);
        HashChain.LinkedAdmits(layout, buckets[b].version, Cells(pages, chains[b]), key);
      } else {
        HonestIsTrusted(pages, buckets[b].version, chains[b]);
      }
    }

    /**
     Insert.  With every link in order, the insert is made whole or not at all: either the map gains
     the one binding, or a page fails its check and all bindings and links are as they were.  On
     the present pages it goes through exactly if the links up to the page that takes the entry
     match.  `size` counts calls, not keys.
     */
    method Insert(key: Key, value: EventId, loaded: Pages) returns (ok: bool)
      requires Shaped() && RecentImages(pages, history, loaded) && (Valid() || loaded == pages)
      modifies this
      ensures Shaped() && (old(Valid()) ==> Valid()) && Longer(old(history), history)
      ensures loaded == old(pages) ==>
                (ok <==> HashChain.Admits(layout, old(buckets[ToBucket(key)].version), old(CellsOf(ToBucket(key))), key))
      ensures loaded == old(pages) && old(Valid()) ==> ok
      ensures ok ==> size == old(size) + 1 && CellsOf(ToBucket(key)) == HashChain.Insert(layout, old(CellsOf(ToBucket(key))), key, value)
      ensures ok ==> buckets[ToBucket(key)].version == Increment(old(buckets[ToBucket(key)].version))
      ensures old(buckets[ToBucket(key)].page).Some? ==> buckets[ToBucket(key)].page == old(buckets[ToBucket(key)].page)
      ensures ok ==> forall q :: Binding(q) == if q == key then Some(value) else old(Binding(q))
      ensures !ok ==> size == old(size) && forall q :: Binding(q) == old(Binding(q))
      ensures forall b | 0 <= b < NUM_BUCKETS && b != ToBucket(key) ::
                buckets[b] == old(buckets[b]) && CellsOf(b) == old(CellsOf(b))
    {
      var b := ToBucket(key);
      ReadyToInsert(key, loaded, b);
      ghost var before, was, c := pages, buckets, chains;
      ghost var d, i;
      ok, d, i := InsertInChain(b, key, value, loaded);
      if ok {
        Inserted(layout, hash, before, was, c, b, pages, d, key, value, buckets[b]);
        size := size + 1;
        chains := chains[b := d];
        forall q ensures Binding(q) == if q == key then Some(value) else old(Binding(q)) {
          LookupAfterInsert(layout, hash, before, was, c, b, pages, d, key, value, q);
        }
      } else if pages != before || buckets != was || history != old(history) {
        Stopped(layout, hash, before, was, c, b, pages, i, buckets[b]);
        forall q ensures Binding(q) == old(Binding(q)) {
          LookupAfterStop(layout, hash, before, was, c, b, pages, i, q);
        }
      }
    }
  }
}
