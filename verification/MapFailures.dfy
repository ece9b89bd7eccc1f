/**
 Maps, each built by inserts from the empty one, on which a version check does not do what it is
 there for: an old page that passes, and present pages that do not.
 */
module MapFailures {
  import opened EventLog
  import opened VersionNumber
  import opened PageChain
  import HashChain
  import opened HashMap
  import opened HashMapClear
  import MM = MultiMap
  import BagChain
  import PageImages

  /** Every entry fills a page. */
  function BigEntries(): (l: Layout<Pair>)
    ensures HashChain.Sane(l)
  {
    Layout(0, (e: Pair) => MAX_NODE_SIZE)
  }

  function OneBucket(): Key -> nat { (k: Key) => 0 }

  function Id(n: nat): EventId { EventId(0, Pos(1, n)) }

  // ------------------------------------------------------------- an old page that passes

  /** The one page of a map whose only key has been inserted `n` times. */
  function OnePage(n: nat, v: EventId): seq<Cell<Pair>> {
    [Cell(Count(n), 0, [("k", v)])]
  }

  lemma FirstInsert(v: EventId)
    ensures HashChain.Insert(BigEntries(), [], "k", v) == OnePage(1, v)
  {
    PutFirst("k", v);
  }

  lemma PutFirst(k: Key, v: EventId)
    ensures HashChain.Store(EmptyCell(), k, v) == Cell(1, 0, [(k, v)])
  {
    assert !HashChain.HasKey<Key, EventId>([], k);
    assert HashChain.Put([], k, v) == [(k, v)];
  }

  lemma InsertAgain(n: nat, v: EventId, w: EventId)
    ensures HashChain.Insert(BigEntries(), OnePage(n, v), "k", w) == OnePage(n + 1, w)
  {
    CountNext(n);
    assert OnePage(n, v)[0].entries[0].0 == "k";
    assert HashChain.HasKey(OnePage(n, v)[0].entries, "k");
    assert HashChain.Put([("k", v)], "k", w) == [("k", w)];
    assert OnePage(n, v)[1..] == [];
  }

  /** One insert on the present pages. */
  method InsertHonestly(m: HashMap, k: Key, v: EventId)
    requires m.Valid() && m.hash == OneBucket() && m.layout == BigEntries()
    modifies m
    ensures m.Valid() && Longer(old(m.history), m.history)
    ensures m.CellsOf(0) == HashChain.Insert(BigEntries(), old(m.CellsOf(0)), k, v)
    ensures m.buckets[0].version == Increment(old(m.buckets[0].version))
    ensures old(m.buckets[0].page).Some? ==> m.buckets[0].page == old(m.buckets[0].page)
    ensures m.Binding(k) == Some(v)
  {
    PresentIsImage(m.pages, m.history);
    assert m.ToBucket(k) == 0;
    var ok := m.Insert(k, v, m.pages);
  }

  /** The page a bucket with one page has. */
  lemma OnlyPage(m: HashMap, c: Cell<Pair>)
    requires m.Shaped() && m.CellsOf(0) == [c]
    ensures m.buckets[0].page.Some? && m.buckets[0].page.value in m.pages && |m.chains[0]| == 1
    ensures m.pages[m.buckets[0].page.value] == Page(c, None)
  {
    BucketAt(m.layout, m.hash, m.pages, m.buckets, m.chains, 0);
    assert m.CellsOf(0)[0] == m.pages[m.chains[0][0]].cell;
    assert m.pages[m.chains[0][0]].succ == After(m.chains[0], 0);
  }

  lemma PresentInHistory(m: HashMap, p: PageNo)
    requires m.Shaped() && p in m.pages
    ensures p in m.history && m.pages[p] in m.history[p]
  {
    assert PageHistory(m.history[p], m.pages[p]);
  }

  lemma OldInHistory(m: HashMap, p: PageNo, image: Page)
    requires m.Shaped() && p in m.pages && p in m.history && image in m.history[p]
    ensures Images(m.pages, m.history, m.pages[p := image])
  {
    var loaded := m.pages[p := image];
    PresentIsImage(m.pages, m.history);
    forall q | q in m.pages ensures exists age: nat :: IsImage(m.history, q, loaded[q], age) {
      if q == p {
        var i :| 0 <= i < |m.history[p]| && m.history[p][i] == image;
        var age: nat := |m.history[p]| - 1 - i;
        assert IsImage(m.history, q, loaded[q], age);
      } else {
        var age: nat :| age < MAX_VALUE && IsImage(m.history, q, m.pages[q], age);
        assert IsImage(m.history, q, loaded[q], age);
      }
    }
  }

  /** The map holds the one key, inserted `n` times, and `image` is among the images of its page. */
  ghost predicate Holding(m: HashMap, p: PageNo, image: Page, n: nat, v: EventId)
    reads m
  {
    && m.Valid() && m.hash == OneBucket() && m.layout == BigEntries()
    && m.CellsOf(0) == OnePage(n, v) && m.buckets[0] == Bucket(Some(p), Count(n)) && m.Binding("k") == Some(v)
    && p in m.history && image in m.history[p]
  }

  method InsertOnce(m: HashMap, ghost p: PageNo, ghost image: Page, ghost n: nat, ghost v: EventId, w: EventId)
    requires Holding(m, p, image, n, v)
    modifies m
    ensures Holding(m, p, image, n + 1, w)
  {
    ghost var before := m.history;
    InsertAgain(n, v, w);
    CountNext(n);
    InsertHonestly(m, "k", w);
    assert before[p] <= m.history[p];
  }

  method FirstOne() returns (m: HashMap, p: PageNo, image: Page)
    ensures fresh(m) && Holding(m, p, image, 1, Id(0)) && image == Page(OnePage(1, Id(0))[0], None)
  {
    m := new HashMap(BigEntries(), OneBucket());
    FirstInsert(Id(0));
    InsertHonestly(m, "k", Id(0));
    OnlyPage(m, OnePage(1, Id(0))[0]);
    p := m.buckets[0].page.value;
    image := m.pages[p];
    PresentInHistory(m, p);
  }

  /** An image exactly 65535 inserts old passes, and the lookup returns the old binding. */
  method OldImagePasses() returns (m: HashMap, r: Answer)
    ensures m.Valid() && m.Binding("k") == Some(Id(1)) && r == Found(Id(0))
  {
    var p, image;
    m, p, image := FirstOne();
    InsertOnce(m, p, image, 1, Id(0), Id(1));
    for i := 1 to MAX_VALUE
      invariant fresh(m) && Holding(m, p, image, 1 + i, Id(1))
    {
      InsertOnce(m, p, image, 1 + i, Id(1), Id(1));
    }
    OnlyPage(m, OnePage(1 + MAX_VALUE, Id(1))[0]);
    OldInHistory(m, p, image);
    assert Count(1 + MAX_VALUE) == Count(1);
    assert m.ToBucket("k") == 0;
    r := m.Get("k", m.pages[p := image]);
    OldWalk(m.pages[p := image], p);
  }

  lemma OldWalk(loaded: Pages, p: PageNo)
    requires p in loaded && loaded[p] == Page(OnePage(1, Id(0))[0], None)
    ensures Walk(loaded, Some(p), Count(1), "k", 1) == Found(Id(0))
  {
    assert HashChain.Find([("k", Id(0))], "k") == Some(Id(0));
  }

  // ------------------------------------------------------------- present pages that fail

  lemma TwoInserts(v: EventId)
    ensures HashChain.Insert(BigEntries(), [], "a", v) == [Cell(1, 0, [("a", v)])]
    ensures HashChain.Insert(BigEntries(), [Cell(1, 0, [("a", v)])], "b", v) == [Cell(2, 1, [("a", v)]), Cell(1, 0, [("b", v)])]
  {
    var c: Cell<Pair> := Cell(1, 0, [("a", v)]);
    assert [c][1..] == [];
    PutFirst("a", v);
    PutFirst("b", v);
    assert !HashChain.HasKey(c.entries, "b");
    assert Bytes(BigEntries().size, c.entries) == MAX_NODE_SIZE + Bytes(BigEntries().size, c.entries[1..]);
    assert Full(BigEntries(), c);
    HashChain.OnePassed(BigEntries(), [c], "b", v);
  }

  function AllTo(v: EventId): Replacer { (e: Pair) => Some(v) }

  lemma ClearedPages(v: EventId, w: EventId)
    ensures var cells: seq<Cell<Pair>> := [Cell(2, 1, [("a", v)]), Cell(1, 0, [("b", v)])];
            && HashChain.HitsIn(AllTo(w), cells, 0, 2) == 2 && !WholeRanges(AllTo(w), cells)
            && HashChain.Replaced(AllTo(w), cells) == [Cell(4, 1, [("a", w)]), Cell(2, 0, [("b", w)])]
  {
    var cells: seq<Cell<Pair>> := [Cell(2, 1, [("a", v)]), Cell(1, 0, [("b", v)])];
    assert cells[0].entries[..0] == [] && cells[1].entries[..0] == [];
    assert HashChain.Hits(AllTo(w), cells[0].entries) == 1 && HashChain.Hits(AllTo(w), cells[1].entries) == 1;
    assert HashChain.HitsIn(AllTo(w), cells, 1, 2) == 1;
    assert HashChain.NewEntries(AllTo(w), cells[0].entries) == [("a", w)];
    assert HashChain.NewEntries(AllTo(w), cells[1].entries) == [("b", w)];
    assert !HashChain.WholeRange(AllTo(w), cells, 1);
  }

  lemma ClearedProbe(w: EventId)
    ensures Probe(4, [Cell(4, 1, [("a", w)]), Cell(2, 0, [("b", w)])], "b") == Stale
  {
    var first: Cell<Pair> := Cell(4, 1, [("a", w)]);
    assert HashChain.Find(first.entries, "b").None?;
  }

  method TwoPages() returns (m: HashMap)
    ensures fresh(m) && m.Valid() && m.hash == OneBucket() && m.buckets[0].version == 2 && m.Binding("b") == Some(Id(0))
    ensures m.CellsOf(0) == [Cell(2, 1, [("a", Id(0))]), Cell(1, 0, [("b", Id(0))])]
  {
    m := new HashMap(BigEntries(), OneBucket());
    TwoInserts(Id(0));
    InsertHonestly(m, "a", Id(0));
    InsertHonestly(m, "b", Id(0));
  }

  /** Two keys on two pages of one bucket are cleared: the second one is bound, and looking it up is a staleness error. */
  method StaleAfterClear() returns (m: HashMap, r: Answer)
    ensures m.Shaped() && !m.Valid() && m.Binding("b") == Some(Id(1)) && r == Stale
  {
    m := TwoPages();
    ClearedPages(Id(0), Id(1));
    var ok := ReplaceAll(m, AllTo(Id(1)));
    ClearedProbe(Id(1));
    Present(m);
    r := m.Get("b", m.pages);
  }

  lemma Present(m: HashMap)
    requires m.Shaped() && m.hash == OneBucket()
    ensures Images(m.pages, m.history, m.pages) && m.ToBucket("b") == 0
  {
    PresentIsImage(m.pages, m.history);
    forall p | p in m.pages ensures exists age: nat :: IsImage(m.history, p, m.pages[p], age) {
      var age: nat :| age < MAX_VALUE && IsImage(m.history, p, m.pages[p], age);
    }
  }

  // ------------------------------------------------------- removing what is not there

  lemma RemoveAbsent(l: Layout<MM.Entry>)
    requires l.overhead < MAX_NODE_SIZE
    ensures var one := BagChain.Insert(l, [], (1, "a"));
            && one == [Cell(1, 0, [(1, "a")])]
            && BagChain.Remove(one, (1, "b")) == one && !BagChain.Consistent(2, one)
  {
    assert [] + [(1, "a")] == [(1, "a")];
  }

  /** One entry is inserted and an absent one removed from the same bucket: the entry is there and cannot be looked up. */
  method StaleAfterRemoval(shape: MM.Shape) returns (m: MM.MultiMap, ok: bool)
    ensures m.Valid() && (1, "a") in MM.Contents(m.table) && !MM.Intact(m.table) && !ok
  {
    m := new MM.MultiMap(shape);
    RemoveAbsent(shape.layout);
    var done := m.Insert(1, "a");
    var removal := m.Remove(1, "b");
    var r;
    r, ok := m.FindUnion(1, {});
  }

  // --------------------------------------------------------- an image from before a `clear`

  lemma OneImage(history: seq<MM.Table>, b: nat)
    requires b < NUM_BUCKETS && |history| == 3
    requires history[1][b].cells == [Cell(1, 0, [(1, "a")])] && history[2][b].cells == [Cell(1, 0, [])]
    ensures PageImages.AllRecent(MM.ChainsOf(history, b), [PageImages.ImageAt(history[1][b].cells, 0)])
  {
    var h := MM.ChainsOf(history, b);
    assert PageImages.Ups(h, 0, 2) == 0 && PageImages.Ups(h, 0, 1) == 0;
  }

  /** Reading just that image. */
  lemma OneImageRead(x: PageImages.Image<MM.Entry>)
    requires x == PageImages.Image(Cell(1, 0, [(1, "a")]), true)
    ensures PageImages.Pass(1, [x]) && MM.ValuesIn(PageImages.CellsRead([x]), 1) == {"a"}
  {
    assert PageImages.CellsRead([x])[1..] == [];
    assert Flat(PageImages.CellsRead([x])) == [(1, "a")];
    assert (1, "a") in Flat(PageImages.CellsRead([x]));
  }

  /** One entry is inserted and the map cleared: through the page's image from before, the entry is still found. */
  method FoundAfterClear(shape: MM.Shape) returns (m: MM.MultiMap, image: PageImages.Image<MM.Entry>, r: set<string>, ok: bool)
    ensures m.Valid() && MM.Intact(m.table) && MM.Contents(m.table) == multiset{} && ok && r == {"a"}
    ensures PageImages.AllRecent(MM.ChainsOf(m.history, MM.ToBucket(m.shape, 1)), [image])
  {
    m := new MM.MultiMap(shape);
    RemoveAbsent(shape.layout);
    var done := m.Insert(1, "a");
    image := PageImages.ImageAt(m.table[MM.ToBucket(shape, 1)].cells, 0);
    var cleared := m.Clear();
    OneImage(m.history, MM.ToBucket(shape, 1));
    OneImageRead(image);
    r, ok := m.FindUnionIn(1, {}, [image]);
  }
}
