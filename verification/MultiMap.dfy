/**
 One bucket of a multi-map: a chain of pages that holds a bag of entries.
 */
module BagChain {
  import opened VersionNumber
  import opened PageChain
  import PageImages

  function Store<E>(c: Cell<E>, e: E): Cell<E> {
    c.(version := Increment(c.version), entries := c.entries + [e])
  }

  /** `MultiMap::insert` along the chain: the first page with room takes the entry. */
  function Insert<E>(l: Layout<E>, cells: seq<Cell<E>>, e: E): seq<Cell<E>> {
    if cells == [] then [Store(EmptyCell(), e)]
    else if !Full(l, cells[0]) then [Store(cells[0], e)] + cells[1..]
    else [Pass(cells[0])] + Insert(l, cells[1..], e)
  }

  function WithoutFirst<E(==)>(es: seq<E>, e: E): seq<E> {
    if es == [] then [] else if es[0] == e then es[1..] else [es[0]] + WithoutFirst(es[1..], e)
  }

  function Drop<E(==)>(c: Cell<E>, e: E): Cell<E> {
    c.(version := Increment(c.version), entries := WithoutFirst(c.entries, e))
  }

  /** `MultiMap::remove` along the chain: the first page that holds the entry loses it; a last page that does not stays. */
  function Remove<E(==)>(cells: seq<Cell<E>>, e: E): seq<Cell<E>> {
    if cells == [] then []
    else if e in cells[0].entries then [Drop(cells[0], e)] + cells[1..]
    else if |cells| == 1 then cells
    else [Pass(cells[0])] + Remove(cells[1..], e)
  }

  /** `MultiMap::clear` on one chain: pages lose their entries and keep their versions. */
  function Clear<E>(cells: seq<Cell<E>>): (r: seq<Cell<E>>)
    ensures |r| == |cells|
  {
    seq(|cells|, i requires 0 <= i < |cells| => cells[i].(entries := []))
  }

  /** What a reader that follows the whole chain checks. */
  predicate Consistent<E>(v: Version, cells: seq<Cell<E>>)
    decreases |cells|
  {
    cells == [] || (cells[0].version == v && Consistent(cells[0].succVersion, cells[1..]))
  }

  lemma {:induction false} LinkedIsConsistent<E>(v: Version, cells: seq<Cell<E>>)
    requires Linked(v, cells)
    ensures Consistent(v, cells)
    decreases |cells|
  {
    if cells != [] { LinkedIsConsistent(cells[0].succVersion, cells[1..]); }
  }

  // ------------------------------------------------------------------ as bags

  lemma {:induction false} WithoutFirstBag<E>(es: seq<E>, e: E)
    ensures multiset(WithoutFirst(es, e)) == multiset(es) - multiset{e}
    ensures e in es ==> |WithoutFirst(es, e)| == |es| - 1
  {
    if es != [] {
      assert es == [es[0]] + es[1..];
      if es[0] != e { WithoutFirstBag(es[1..], e); }
    }
  }

  /** Inserting adds the entry once, whatever is there. */
  lemma {:induction false} InsertBag<E>(l: Layout<E>, cells: seq<Cell<E>>, e: E)
    ensures multiset(Flat(Insert(l, cells, e))) == multiset(Flat(cells)) + multiset{e}
  {
    var r := Insert(l, cells, e);
    if cells == [] {
      assert r[1..] == [];
    } else {
      var rest := cells[1..];
      assert r[1..] == if !Full(l, cells[0]) then rest else Insert(l, rest, e);
      if Full(l, cells[0]) { InsertBag(l, rest, e); }
    }
  }

  /** Removing takes the entry away once, if it is there. */
  lemma {:induction false} RemoveBag<E>(cells: seq<Cell<E>>, e: E)
    ensures multiset(Flat(Remove(cells, e))) == multiset(Flat(cells)) - multiset{e}
  {
    var r := Remove(cells, e);
    if cells != [] {
      var rest := cells[1..];
      if e in cells[0].entries {
        assert r[1..] == rest;
        WithoutFirstBag(cells[0].entries, e);
      } else if |cells| > 1 {
        assert r[1..] == Remove(rest, e);
        RemoveBag(rest, e);
      } else {
        assert Flat(rest) == [];
      }
    }
  }

  lemma {:induction false} ClearBag<E>(cells: seq<Cell<E>>)
    ensures Flat(Clear(cells)) == []
  {
    if cells != [] {
      ClearBag(cells[1..]);
      assert Clear(cells)[1..] == Clear(cells[1..]);
    }
  }

  // ---------------------------------------------------------------- the links

  lemma {:induction false} InsertKeepsLinks<E>(l: Layout<E>, v: Version, cells: seq<Cell<E>>, e: E)
    requires Linked(v, cells)
    ensures Linked(Increment(v), Insert(l, cells, e))
    decreases |cells|
  {
    var r := Insert(l, cells, e);
    if cells == [] {
      assert r[1..] == [];
    } else if Full(l, cells[0]) {
      InsertKeepsLinks(l, cells[0].succVersion, cells[1..], e);
      assert r[1..] == Insert(l, cells[1..], e);
    } else {
      assert r[1..] == cells[1..];
    }
  }

  /** A removal keeps the links exactly when it finds something to remove, or has no page to touch. */
  lemma {:induction false} RemoveKeepsLinksIff<E>(v: Version, cells: seq<Cell<E>>, e: E)
    requires Linked(v, cells)
    ensures cells == [] ==> Linked(v, Remove(cells, e))
    ensures cells != [] ==> (Linked(Increment(v), Remove(cells, e)) <==> e in Flat(cells))
    decreases |cells|
  {
    if cells != [] {
      var r, rest := Remove(cells, e), cells[1..];
      if e in cells[0].entries {
        assert r[1..] == rest;
      } else if |cells| > 1 {
        assert r[1..] == Remove(rest, e);
        RemoveKeepsLinksIff(cells[0].succVersion, rest, e);
      }
    }
  }

  lemma {:induction false} ClearKeepsLinks<E>(v: Version, cells: seq<Cell<E>>)
    requires Linked(v, cells)
    ensures Linked(v, Clear(cells))
    decreases |cells|
  {
    if cells != [] {
      ClearKeepsLinks(cells[0].succVersion, cells[1..]);
      assert Clear(cells)[1..] == Clear(cells[1..]);
    }
  }

  // ------------------------------------------------------------------- which page changes

  /** The pages before page `i` passed, page `i` replaced, the rest as it was. */
  function PassedTo<E>(cells: seq<Cell<E>>, i: nat, page: Cell<E>): seq<Cell<E>>
    requires i <= |cells|
  {
    PassAll(cells[..i]) + [page] + if i < |cells| then cells[i + 1..] else []
  }

  lemma PassedCons<E>(cells: seq<Cell<E>>, i: nat, page: Cell<E>)
    requires cells != [] && i < |cells|
    ensures PassedTo(cells, i + 1, page) == [Pass(cells[0])] + PassedTo(cells[1..], i, page)
  {
    var rest := cells[1..];
    assert PassAll(cells[..i + 1]) == [Pass(cells[0])] + PassAll(rest[..i]);
  }

  /** The entry goes to the first page with fewer than 1024 bytes, or to a new one; the pages before it are passed. */
  lemma {:induction false} InsertPlace<E>(l: Layout<E>, cells: seq<Cell<E>>, e: E) returns (i: nat)
    ensures i <= |cells| && (forall j | 0 <= j < i :: l.overhead + Bytes(l.size, cells[j].entries) >= 1024)
    ensures i < |cells| ==> l.overhead + Bytes(l.size, cells[i].entries) < 1024
    ensures var page := if i < |cells| then cells[i] else EmptyCell();
            Insert(l, cells, e) == PassedTo(cells, i, Cell(Increment(page.version), page.succVersion, page.entries + [e]))
  {
    i := 0;
    if cells != [] && Full(l, cells[0]) {
      var k := InsertPlace(l, cells[1..], e);
      var page := if k < |cells[1..]| then cells[1..][k] else EmptyCell();
      PassedCons(cells, k, Cell(Increment(page.version), page.succVersion, page.entries + [e]));
      i := k + 1;
    } else {
      assert PassAll(cells[..0]) == [];
    }
  }

  /** The first page that holds the entry loses its first copy; without one the last page stays as it was. */
  lemma {:induction false} RemovePlace<E>(cells: seq<Cell<E>>, e: E) returns (i: nat)
    requires cells != []
    ensures i < |cells| && (forall j | 0 <= j < i :: e !in cells[j].entries)
    ensures e !in cells[i].entries ==> i == |cells| - 1
    ensures Remove(cells, e) == PassedTo(cells, i, if e in cells[i].entries then Drop(cells[i], e) else cells[i])
  {
    i := 0;
    if e !in cells[0].entries && |cells| > 1 {
      var k := RemovePlace(cells[1..], e);
      var page := cells[1..][k];
      PassedCons(cells, k, if e in page.entries then Drop(page, e) else page);
      i := k + 1;
    } else {
      assert PassAll(cells[..0]) == [];
    }
  }

  // ------------------------------------------------------------- what the pages go through

  lemma {:induction false} InsertSteps<E>(l: Layout<E>, cells: seq<Cell<E>>, e: E)
    ensures PageImages.ChainSteps(cells, Insert(l, cells, e))
  {
    var r := Insert(l, cells, e);
    if cells != [] {
      if Full(l, cells[0]) {
        InsertSteps(l, cells[1..], e);
        assert r[1..] == Insert(l, cells[1..], e);
      } else {
        assert r[1..] == cells[1..];
        PageImages.Stays(cells[1..]);
      }
      PageImages.StepsCons(cells, r);
    }
  }

  lemma {:induction false} RemoveSteps<E>(cells: seq<Cell<E>>, e: E)
    ensures PageImages.ChainSteps(cells, Remove(cells, e)) && |Remove(cells, e)| == |cells|
  {
    var r := Remove(cells, e);
    if cells != [] {
      if e in cells[0].entries {
        assert r[1..] == cells[1..];
        PageImages.Stays(cells[1..]);
        PageImages.StepsCons(cells, r);
      } else if |cells| > 1 {
        RemoveSteps(cells[1..], e);
        assert r[1..] == Remove(cells[1..], e);
        PageImages.StepsCons(cells, r);
      }
    }
  }

  /** `clear` that has come as far as page `i`. */
  function Clearing<E>(cells: seq<Cell<E>>, i: nat): (r: seq<Cell<E>>)
    ensures |r| == |cells|
  {
    seq(|cells|, j requires 0 <= j < |cells| => if j < i then cells[j].(entries := []) else cells[j])
  }

  lemma ClearingSteps<E>(cells: seq<Cell<E>>, i: nat)
    ensures PageImages.ChainSteps(cells, Clearing(cells, i))
  {
    var r := Clearing(cells, i);
    forall j: nat ensures PageImages.PageStep(PageImages.ImageAt(cells, j), PageImages.ImageAt(r, j)) {}
  }
}

/**
 The multi-map behind every secondary index: buckets of page chains, and why they amount to
 one bag of entries.
 */
module MultiMap {
  import opened VersionNumber
  import opened PageChain
  import opened BagChain
  import opened Sequences
  import PageImages

  type Entry = (int, string)

  datatype Bucket = Bucket(version: Version, cells: seq<Cell<Entry>>)
  type Table = t: seq<Bucket> | |t| == NUM_BUCKETS witness seq(NUM_BUCKETS, _ => Bucket(0, []))

  /** Byte sizes and the key hash, both of which come from libraries. */
  datatype Shape_ = Shape(layout: Layout<Entry>, hash: int -> nat)
  type Shape = s: Shape_ | s.layout.overhead < MAX_NODE_SIZE witness Shape(Layout(0, _ => 0), _ => 0)

  function ToBucket(s: Shape, key: int): (b: nat)
    ensures b < NUM_BUCKETS
  {
    s.hash(key) % NUM_BUCKETS
  }

  // ---------------------------------------------------------------- the whole table

  ghost function Contents(t: seq<Bucket>): multiset<Entry> {
    if t == [] then multiset{} else multiset(Flat(t[0].cells)) + Contents(t[1..])
  }

  /** Every entry is in the bucket of its key. */
  ghost predicate Homed(s: Shape, t: Table) {
    forall b, e | 0 <= b < NUM_BUCKETS && e in Flat(t[b].cells) :: s.hash(e.0) % 8192 == b
  }

  /** Every chain passes its version checks. */
  ghost predicate Intact(t: Table) {
    forall b | 0 <= b < NUM_BUCKETS :: Linked(t[b].version, t[b].cells)
  }

  function TableInsert(s: Shape, t: Table, e: Entry): Table {
    var b := ToBucket(s, e.0);
    t[b := Bucket(Increment(t[b].version), BagChain.Insert(s.layout, t[b].cells, e))]
  }

  /** An empty bucket keeps its version. */
  function TableRemove(s: Shape, t: Table, e: Entry): Table {
    var b := ToBucket(s, e.0);
    t[b := Bucket(if t[b].cells == [] then t[b].version else Increment(t[b].version), BagChain.Remove(t[b].cells, e))]
  }

  lemma {:induction false} ContentsUpdate(t: seq<Bucket>, b: nat, x: Bucket, e: Entry)
    requires b < |t|
    ensures Contents(t[b := x])[e] + multiset(Flat(t[b].cells))[e] == Contents(t)[e] + multiset(Flat(x.cells))[e]
    ensures multiset(Flat(t[b].cells))[e] <= Contents(t)[e]
  {
    var u := t[b := x];
    if b == 0 {
      assert u[1..] == t[1..];
    } else {
      ContentsUpdate(t[1..], b - 1, x, e);
      assert u[1..] == t[1..][b - 1 := x];
    }
  }

  lemma {:induction false} ContentsFrom(s: Shape, t: seq<Bucket>, first: nat, e: Entry)
    requires forall b, x | 0 <= b < |t| && x in Flat(t[b].cells) :: ToBucket(s, x.0) == first + b
    ensures var b := ToBucket(s, e.0) - first;
            Contents(t)[e] == if 0 <= b < |t| then multiset(Flat(t[b].cells))[e] else 0
  {
    if t != [] {
      forall b, x | 0 <= b < |t[1..]| && x in Flat(t[1..][b].cells) ensures ToBucket(s, x.0) == first + 1 + b {
        assert x in Flat(t[b + 1].cells);
      }
      ContentsFrom(s, t[1..], first + 1, e);
      assert e in Flat(t[0].cells) ==> ToBucket(s, e.0) == first;
    }
  }

  /** An entry occurs in the table as often as in its own bucket. */
  lemma ContentsAtHome(s: Shape, t: Table, e: Entry)
    requires Homed(s, t)
    ensures Contents(t)[e] == multiset(Flat(t[ToBucket(s, e.0)].cells))[e]
  {
    ContentsFrom(s, t, 0, e);
  }

  /** A bucket that keeps to its own keys may replace what it holds. */
  lemma HomedUpdate(s: Shape, t: Table, b: nat, x: Bucket)
    requires Homed(s, t) && b < NUM_BUCKETS && forall e | e in Flat(x.cells) :: ToBucket(s, e.0) == b
    ensures Homed(s, t[b := x])
  {
  }

  /** Inserting adds the entry to the bag, once. */
  lemma InsertIsPlus(s: Shape, t: Table, e: Entry)
    requires Homed(s, t)
    ensures Homed(s, TableInsert(s, t, e)) && Contents(TableInsert(s, t, e)) == Contents(t) + multiset{e}
  {
    var b := ToBucket(s, e.0);
    var x := TableInsert(s, t, e)[b];
    InsertBag(s.layout, t[b].cells, e);
    forall y ensures Contents(TableInsert(s, t, e))[y] == (Contents(t) + multiset{e})[y] {
      ContentsUpdate(t, b, x, y);
    }
    forall y | y in Flat(x.cells) ensures ToBucket(s, y.0) == b {
      assert y in multiset(Flat(x.cells));
    }
    HomedUpdate(s, t, b, x);
  }

  lemma InsertKeepsIntact(s: Shape, t: Table, e: Entry)
    requires Intact(t)
    ensures Intact(TableInsert(s, t, e))
  {
    var b := ToBucket(s, e.0);
    InsertKeepsLinks(s.layout, t[b].version, t[b].cells, e);
  }

  lemma RemoveCount(s: Shape, t: Table, e: Entry, y: Entry)
    requires Homed(s, t)
    ensures Contents(TableRemove(s, t, e))[y] == (Contents(t) - multiset{e})[y]
  {
    var b := ToBucket(s, e.0);
    RemoveBag(t[b].cells, e);
    ContentsUpdate(t, b, TableRemove(s, t, e)[b], y);
    ContentsAtHome(s, t, e);
  }

  /** Removing takes the entry out of the bag once, if it is there. */
  lemma RemoveIsMinus(s: Shape, t: Table, e: Entry)
    requires Homed(s, t)
    ensures Homed(s, TableRemove(s, t, e)) && Contents(TableRemove(s, t, e)) == Contents(t) - multiset{e}
  {
    var b := ToBucket(s, e.0);
    var x := TableRemove(s, t, e)[b];
    forall y { RemoveCount(s, t, e, y); }
    forall y | y in Flat(x.cells) ensures ToBucket(s, y.0) == b {
      RemoveBag(t[b].cells, e);
      assert y in multiset(Flat(x.cells));
    }
    HomedUpdate(s, t, b, x);
  }

  /** A removal leaves every chain intact exactly when the entry is there or its bucket has no page. */
  lemma RemoveKeepsIntactIff(s: Shape, t: Table, e: Entry)
    requires Homed(s, t) && Intact(t)
    ensures Intact(TableRemove(s, t, e)) <==> e in Contents(t) || t[ToBucket(s, e.0)].cells == []
  {
    var b := ToBucket(s, e.0);
    var r := TableRemove(s, t, e);
    ContentsAtHome(s, t, e);
    RemoveKeepsLinksIff(t[b].version, t[b].cells, e);
    assert Intact(r) <==> Linked(r[b].version, r[b].cells);
  }

  // ----------------------------------------------------------------------- look-up

  ghost function ValuesIn(cells: seq<Cell<Entry>>, key: int): set<string> {
    set e | e in Flat(cells) && e.0 == key :: e.1
  }

  ghost function Values(s: Shape, t: Table, key: int): set<string> {
    ValuesIn(t[ToBucket(s, key)].cells, key)
  }

  lemma ValuesAreContents(s: Shape, t: Table, key: int, value: string)
    requires Homed(s, t)
    ensures value in Values(s, t, key) <==> (key, value) in Contents(t)
  {
    ContentsAtHome(s, t, (key, value));
  }

  /** How many entries have the key. */
  ghost function CountIn(es: seq<Entry>, key: int): nat {
    if es == [] then 0 else (if es[0].0 == key then 1 else 0) + CountIn(es[1..], key)
  }

  // ------------------------------------------------------- walking along one chain

  lemma FlatMoves(passed: seq<Cell<Entry>>, rest: seq<Cell<Entry>>, c: Cell<Entry>)
    requires rest != [] && c.entries == rest[0].entries
    ensures Flat(passed + [c]) + Flat(rest[1..]) == Flat(passed) + Flat(rest)
  {
    FlatConcat(passed, [c]);
    assert [c][1..] == [] && Flat([c]) == c.entries;
  }

  lemma InsertMoves(l: Layout<Entry>, passed: seq<Cell<Entry>>, rest: seq<Cell<Entry>>, e: Entry)
    requires rest != [] && l.overhead < MAX_NODE_SIZE && Full(l, rest[0])
    ensures var next := if |rest| == 1 then [EmptyCell()] else rest[1..];
            passed + BagChain.Insert(l, rest, e) == passed + [Pass(rest[0])] + BagChain.Insert(l, next, e)
  {
    var next := if |rest| == 1 then [EmptyCell()] else rest[1..];
    assert BagChain.Insert(l, next, e) == BagChain.Insert(l, rest[1..], e) by {
      if |rest| == 1 { assert next[1..] == []; }
    }
    Regroup(passed, [Pass(rest[0])], BagChain.Insert(l, next, e));
  }

  lemma RemoveMoves(passed: seq<Cell<Entry>>, rest: seq<Cell<Entry>>, e: Entry)
    requires rest != []
    ensures e !in rest[0].entries && |rest| > 1 ==>
              passed + BagChain.Remove(rest, e) == passed + [Pass(rest[0])] + BagChain.Remove(rest[1..], e)
    ensures e in rest[0].entries ==> passed + BagChain.Remove(rest, e) == passed + [Drop(rest[0], e)] + rest[1..]
  {
    Regroup(passed, [Pass(rest[0])], BagChain.Remove(rest[1..], e));
    Regroup(passed, [Drop(rest[0], e)], rest[1..]);
  }

  /** The pages before the ones left have been passed; behind the last one a new page is made. */
  ghost predicate Along(cells: seq<Cell<Entry>>, passed: seq<Cell<Entry>>, rest: seq<Cell<Entry>>) {
    && |passed| <= |cells| && (forall i {:trigger passed[i]} | 0 <= i < |passed| :: passed[i] == Pass(cells[i]))
    && rest == if |passed| == |cells| then [EmptyCell()] else cells[|passed|..]
  }

  lemma AlongStart(cells: seq<Cell<Entry>>)
    ensures Along(cells, [], if cells == [] then [EmptyCell()] else cells)
  {
  }

  lemma AlongNext(cells: seq<Cell<Entry>>, passed: seq<Cell<Entry>>, rest: seq<Cell<Entry>>)
    requires Along(cells, passed, rest) && |passed| < |cells|
    ensures rest != [] && Along(cells, passed + [Pass(rest[0])], if |rest| == 1 then [EmptyCell()] else rest[1..])
    ensures |rest| > 1 <==> |passed| + 1 < |cells|
  {
  }

  lemma NotFullWhenNew(l: Layout<Entry>, cells: seq<Cell<Entry>>, passed: seq<Cell<Entry>>, rest: seq<Cell<Entry>>)
    requires l.overhead < MAX_NODE_SIZE && Along(cells, passed, rest) && rest != [] && Full(l, rest[0])
    ensures |passed| < |cells|
  {
  }

  /** A change that stopped behind page `|passed|`. */
  lemma HalfWay(cells: seq<Cell<Entry>>, passed: seq<Cell<Entry>>, rest: seq<Cell<Entry>>)
    requires Along(cells, passed, rest) && |passed| < |cells|
    ensures rest != [] && PageImages.ChainSteps(cells, passed + [Bump(rest[0])] + rest[1..])
  {
    PageImages.AbandonedSteps(cells, |passed|);
    assert passed + [Bump(rest[0])] + rest[1..] == Abandoned(cells, |passed|);
  }

  /**
   `MultiMap::insert` on one bucket: `passed + rest` is the chain while it is walked.  It fails
   only when a page is not of the version its link expects, and then no entry has changed and no
   page has done more than count up.
   */
  method InsertInBucket(l: Layout<Entry>, b: Bucket, e: Entry) returns (r: Bucket, done: bool)
    requires l.overhead < MAX_NODE_SIZE
    ensures done ==> r == Bucket(Increment(b.version), BagChain.Insert(l, b.cells, e))
    ensures !done ==> Flat(r.cells) == Flat(b.cells) && !Consistent(b.version, b.cells)
    ensures PageImages.ChainSteps(b.cells, r.cells)
  {
    var passed, rest: seq<Cell<Entry>> := [], b.cells;
    if rest == [] {
      rest := [EmptyCell()];
    } else if rest[0].version != b.version {
      PageImages.Stays(b.cells);
      return b, false;
    }
    AlongStart(b.cells);
    while Full(l, rest[0])
      invariant rest != []
      invariant passed + BagChain.Insert(l, rest, e) == BagChain.Insert(l, b.cells, e)
      invariant Flat(passed) + Flat(rest) == Flat(b.cells)
      invariant Consistent(b.version, b.cells) ==> Consistent(rest[0].version, rest)
      invariant Along(b.cells, passed, rest)
      decreases |rest|, Full(l, rest[0])
    {
      var page, next := rest[0].(version := Increment(rest[0].version)), rest[1..];
      NotFullWhenNew(l, b.cells, passed, rest);
      FlatMoves(passed, rest, page);
      if next == [] {
        next := [EmptyCell()];
      } else if next[0].version != page.succVersion {
        FlatConcat(passed + [page], next);
        HalfWay(b.cells, passed, rest);
        return Bucket(Increment(b.version), passed + [page] + next), false;
      }
      page := page.(succVersion := Increment(page.succVersion));
      FlatMoves(passed, rest, page);
      InsertMoves(l, passed, rest, e);
      AlongNext(b.cells, passed, rest);
      passed, rest := passed + [page], next;
    }
    Regroup(passed, [Store(rest[0], e)], rest[1..]);
    InsertSteps(l, b.cells, e);
    r, done := Bucket(Increment(b.version), passed + [Store(rest[0], e)] + rest[1..]), true;
  }

  datatype Removal = Removed | Absent | Stale

  /** `MultiMap::remove` on one bucket; an entry that is not there leaves the last page as it was. */
  method RemoveInBucket(b: Bucket, e: Entry) returns (r: Bucket, removal: Removal)
    ensures !removal.Stale? ==>
              && r == Bucket(if b.cells == [] then b.version else Increment(b.version), BagChain.Remove(b.cells, e))
              && (removal.Removed? <==> e in Flat(b.cells))
    ensures removal.Stale? ==> Flat(r.cells) == Flat(b.cells) && !Consistent(b.version, b.cells)
    ensures PageImages.ChainSteps(b.cells, r.cells)
  {
    if b.cells == [] {
      PageImages.Stays(b.cells);
      return b, Absent;
    } else if b.cells[0].version != b.version {
      PageImages.Stays(b.cells);
      return b, Stale;
    }
    var passed, rest: seq<Cell<Entry>> := [], b.cells;
    AlongStart(b.cells);
    while e !in rest[0].entries
      invariant rest != []
      invariant passed + BagChain.Remove(rest, e) == BagChain.Remove(b.cells, e)
      invariant Flat(passed) + Flat(rest) == Flat(b.cells)
      invariant e in Flat(b.cells) <==> e in Flat(rest)
      invariant Consistent(b.version, b.cells) ==> Consistent(rest[0].version, rest)
      invariant Along(b.cells, passed, rest) && |passed| < |b.cells|
      decreases |rest|
    {
      var next := rest[1..];
      if next == [] {
        RemoveSteps(b.cells, e);
        return Bucket(Increment(b.version), passed + rest), Absent;
      }
      var page := rest[0].(version := Increment(rest[0].version));
      FlatMoves(passed, rest, page);
      if next[0].version != page.succVersion {
        FlatConcat(passed + [page], next);
        HalfWay(b.cells, passed, rest);
        return Bucket(Increment(b.version), passed + [page] + next), Stale;
      }
      page := page.(succVersion := Increment(page.succVersion));
      FlatMoves(passed, rest, page);
      RemoveMoves(passed, rest, e);
      AlongNext(b.cells, passed, rest);
      passed, rest := passed + [page], next;
    }
    RemoveMoves(passed, rest, e);
    RemoveSteps(b.cells, e);
    r, removal := Bucket(Increment(b.version), passed + [Drop(rest[0], e)] + rest[1..]), Removed;
  }

  /** `find_union` on one bucket: every value of the key, unless a page is not of the expected version. */
  method FindInBucket(b: Bucket, key: int, out: set<string>) returns (r: set<string>, ok: bool)
    ensures ok <==> Consistent(b.version, b.cells)
    ensures ok ==> r == out + ValuesIn(b.cells, key)
  {
    var version, rest := b.version, b.cells;
    r := out;
    while rest != []
      invariant Consistent(b.version, b.cells) <==> Consistent(version, rest)
      invariant r + ValuesIn(rest, key) == out + ValuesIn(b.cells, key)
      decreases |rest|
    {
      if rest[0].version != version {
        return r, false;
      }
      var page := set e | e in rest[0].entries && e.0 == key :: e.1;
      assert ValuesIn(rest, key) == page + ValuesIn(rest[1..], key);
      r := r + page;
      version, rest := rest[0].succVersion, rest[1..];
    }
    ok := true;
  }

  /** `find_union` along the images of the pages as they are loaded. */
  method FindInImages(v: Version, images: seq<PageImages.Image<Entry>>, key: int, out: set<string>) returns (r: set<string>, ok: bool)
    ensures ok <==> PageImages.Pass(v, images)
    ensures ok ==> r == out + ValuesIn(PageImages.CellsRead(images), key)
  {
    var version, rest := v, images;
    r := out;
    while rest != []
      invariant PageImages.Pass(v, images) <==> PageImages.Pass(version, rest)
      invariant r + ValuesIn(PageImages.CellsRead(rest), key) == out + ValuesIn(PageImages.CellsRead(images), key)
      decreases |rest|
    {
      var x := rest[0];
      if x.cell.version != version {
        return r, false;
      }
      var page := set e | e in x.cell.entries && e.0 == key :: e.1;
      PageThenRest(rest, key, page);
      r := r + page;
      rest := if x.last then [] else rest[1..];
      version := x.cell.succVersion;
    }
    ok := true;
  }

  lemma PageThenRest(images: seq<PageImages.Image<Entry>>, key: int, page: set<string>)
    requires images != [] && page == set e | e in images[0].cell.entries && e.0 == key :: e.1
    ensures var rest := if images[0].last then [] else images[1..];
            ValuesIn(PageImages.CellsRead(images), key) == page + ValuesIn(PageImages.CellsRead(rest), key)
  {
    var rest := if images[0].last then [] else images[1..];
    assert PageImages.CellsRead(images)[1..] == PageImages.CellsRead(rest);
  }

  /** `has_entry` along one bucket, stopping at the first page that holds the entry. */
  method HasEntry(b: Bucket, e: Entry) returns (found: bool, ok: bool)
    ensures Consistent(b.version, b.cells) ==> ok
    ensures ok ==> (found <==> e in Flat(b.cells))
  {
    var version, rest := b.version, b.cells;
    while rest != []
      invariant Consistent(b.version, b.cells) <==> Consistent(version, rest)
      invariant e in Flat(b.cells) <==> e in Flat(rest)
      decreases |rest|
    {
      if rest[0].version != version {
        return false, false;
      }
      if e in rest[0].entries {
        return true, true;
      }
      version, rest := rest[0].succVersion, rest[1..];
    }
    found, ok := false, true;
  }

  /** `estimate_value_count` on one bucket, which is exact. */
  method CountInBucket(b: Bucket, key: int) returns (n: nat, ok: bool)
    ensures ok <==> Consistent(b.version, b.cells)
    ensures ok ==> n == CountIn(Flat(b.cells), key)
  {
    var version, rest := b.version, b.cells;
    n := 0;
    while rest != []
      invariant Consistent(b.version, b.cells) <==> Consistent(version, rest)
      invariant n + CountIn(Flat(rest), key) == CountIn(Flat(b.cells), key)
      decreases |rest|
    {
      if rest[0].version != version {
        return n, false;
      }
      var es := rest[0].entries;
      CountInConcat(es, Flat(rest[1..]), key);
      var i := 0;
      ghost var before := n;
      while i < |es|
        invariant i <= |es| && n + CountIn(es[i..], key) == before + CountIn(es, key)
      {
        assert es[i..][1..] == es[i + 1..];
        n := n + if es[i].0 == key then 1 else 0;
        i := i + 1;
      }
      version, rest := rest[0].succVersion, rest[1..];
    }
    ok := true;
  }

  lemma {:induction false} CountInConcat(a: seq<Entry>, b: seq<Entry>, key: int)
    ensures CountIn(a + b, key) == CountIn(a, key) + CountIn(b, key)
  {
    if a == [] {
      assert a + b == b;
    } else {
      CountInConcat(a[1..], b, key);
      assert (a + b)[1..] == a[1..] + b;
    }
  }

  lemma {:induction false} NoContents(t: seq<Bucket>)
    requires forall b | 0 <= b < |t| :: Flat(t[b].cells) == []
    ensures Contents(t) == multiset{}
  {
    if t != [] {
      forall b | 0 <= b < |t[1..]| ensures Flat(t[1..][b].cells) == [] { assert Flat(t[b + 1].cells) == []; }
      NoContents(t[1..]);
      assert Flat(t[0].cells) == [];
    }
  }

  /** Replacing a bucket by one with the same entries changes nothing. */
  lemma SameContents(s: Shape, t: Table, b: nat, x: Bucket)
    requires Homed(s, t) && b < NUM_BUCKETS && Flat(x.cells) == Flat(t[b].cells)
    ensures Homed(s, t[b := x]) && Contents(t[b := x]) == Contents(t)
  {
    forall e ensures Contents(t[b := x])[e] == Contents(t)[e] { ContentsUpdate(t, b, x, e); }
    HomedUpdate(s, t, b, x);
  }

  /** A bucket that only loses entries takes as many from the table. */
  lemma CardinalUpdate(s: Shape, t: Table, b: nat, x: Bucket)
    requires Homed(s, t) && b < NUM_BUCKETS && forall e | e in Flat(x.cells) :: e in Flat(t[b].cells)
    ensures Homed(s, t[b := x])
    ensures |Contents(t[b := x])| + |Flat(t[b].cells)| == |Contents(t)| + |Flat(x.cells)|
  {
    HomedUpdate(s, t, b, x);
    var l, r := Contents(t[b := x]) + multiset(Flat(t[b].cells)), Contents(t) + multiset(Flat(x.cells));
    forall e ensures l[e] == r[e] { ContentsUpdate(t, b, x, e); }
    assert l == r;
    assert |l| == |Contents(t[b := x])| + |Flat(t[b].cells)| && |r| == |Contents(t)| + |Flat(x.cells)|;
  }

  lemma ClearedIsIntact(t: Table, b: nat, x: Bucket)
    requires Intact(t) && b < NUM_BUCKETS
    requires Consistent(t[b].version, t[b].cells) ==> x == Bucket(t[b].version, Clear(t[b].cells))
    ensures Consistent(t[b].version, t[b].cells) && Intact(t[b := x])
  {
    LinkedIsConsistent(t[b].version, t[b].cells);
    ClearKeepsLinks(t[b].version, t[b].cells);
  }

  /** What is left when `clear` has emptied the first `n` pages. */
  lemma {:induction false} ClearingLeaves(cells: seq<Cell<Entry>>, n: nat)
    requires n <= |cells|
    ensures Flat(Clearing(cells, n)) == Flat(cells[n..])
    decreases n
  {
    if n == 0 {
      assert Clearing(cells, 0) == cells && cells[0..] == cells;
    } else {
      ClearingLeaves(cells[1..], n - 1);
      assert Clearing(cells, n)[1..] == Clearing(cells[1..], n - 1) && cells[1..][n - 1..] == cells[n..];
    }
  }

  /** `clear` on one bucket: the first `i` pages are empty while it is walked. */
  method ClearBucket(b: Bucket) returns (r: Bucket, n: nat, ok: bool)
    ensures ok <==> Consistent(b.version, b.cells)
    ensures ok ==> r == Bucket(b.version, Clear(b.cells))
    ensures n + |Flat(r.cells)| == |Flat(b.cells)|
    ensures forall e | e in Flat(r.cells) :: e in Flat(b.cells)
    ensures PageImages.ChainSteps(b.cells, r.cells)
  {
    var version, i, cells := b.version, 0, b.cells;
    n := 0;
    assert Clearing(b.cells, 0) == b.cells && b.cells[0..] == b.cells;
    while i < |cells|
      invariant i <= |b.cells| == |cells| && cells == Clearing(b.cells, i)
      invariant Consistent(b.version, b.cells) <==> Consistent(version, b.cells[i..])
      invariant n + |Flat(b.cells[i..])| == |Flat(b.cells)|
      invariant forall e | e in Flat(b.cells[i..]) :: e in Flat(b.cells)
    {
      assert b.cells[i..][0] == b.cells[i] && b.cells[i..][1..] == b.cells[i + 1..];
      if cells[i].version != version {
        break;
      }
      n := n + |cells[i].entries|;
      version, cells := cells[i].succVersion, cells[i := cells[i].(entries := [])];
      i := i + 1;
    }
    ok := i == |cells|;
    r := Bucket(b.version, cells);
    ClearingLeaves(b.cells, i);
    ClearingSteps(b.cells, i);
    if ok { assert cells == Clear(b.cells); }
  }

  lemma BucketInserted(s: Shape, t: Table, e: Entry, x: Bucket, done: bool)
    requires Homed(s, t)
    requires var b := t[ToBucket(s, e.0)];
             if done then x == Bucket(Increment(b.version), BagChain.Insert(s.layout, b.cells, e))
             else Flat(x.cells) == Flat(b.cells) && !Consistent(b.version, b.cells)
    ensures var u := t[ToBucket(s, e.0) := x];
            && |u| == NUM_BUCKETS && Homed(s, u)
            && Contents(u) == Contents(t) + (if done then multiset{e} else multiset{})
            && (done ==> u == TableInsert(s, t, e))
            && (Intact(t) ==> done && Intact(u))
  {
    var b := ToBucket(s, e.0);
    if Intact(t) { LinkedIsConsistent(t[b].version, t[b].cells); }
    if done {
      InsertIsPlus(s, t, e);
      if Intact(t) { InsertKeepsIntact(s, t, e); }
    } else {
      SameContents(s, t, b, x);
    }
  }

  lemma BucketRemoved(s: Shape, t: Table, e: Entry, x: Bucket, removal: Removal)
    requires Homed(s, t)
    requires var b := t[ToBucket(s, e.0)];
             if removal.Stale? then Flat(x.cells) == Flat(b.cells) && !Consistent(b.version, b.cells)
             else
               && x == Bucket(if b.cells == [] then b.version else Increment(b.version), BagChain.Remove(b.cells, e))
               && (removal.Removed? <==> e in Flat(b.cells))
    ensures var u := t[ToBucket(s, e.0) := x];
            && |u| == NUM_BUCKETS && Homed(s, u)
            && (!removal.Stale? ==> (removal.Removed? <==> e in Contents(t)) && u == TableRemove(s, t, e))
            && Contents(u) == Contents(t) - (if removal.Removed? then multiset{e} else multiset{})
            && (Intact(t) ==> !removal.Stale? && (Intact(u) <==> removal.Removed? || t[ToBucket(s, e.0)].cells == []))
  {
    var b := ToBucket(s, e.0);
    if Intact(t) { LinkedIsConsistent(t[b].version, t[b].cells); }
    ContentsAtHome(s, t, e);
    if removal.Stale? {
      SameContents(s, t, b, x);
    } else {
      RemoveIsMinus(s, t, e);
      if Intact(t) { RemoveKeepsIntactIff(s, t, e); }
    }
  }

  lemma BucketCleared(s: Shape, t: Table, b: nat, x: Bucket, n: nat, ok: bool)
    requires Homed(s, t) && b < NUM_BUCKETS && (ok <==> Consistent(t[b].version, t[b].cells))
    requires ok ==> x == Bucket(t[b].version, Clear(t[b].cells))
    requires n + |Flat(x.cells)| == |Flat(t[b].cells)| && forall e | e in Flat(x.cells) :: e in Flat(t[b].cells)
    ensures var u := t[b := x];
            && Homed(s, u) && |Contents(u)| + n == |Contents(t)|
            && (Intact(t) ==> ok && Intact(u))
            && (ok ==> Flat(x.cells) == [])
  {
    CardinalUpdate(s, t, b, x);
    if Intact(t) { ClearedIsIntact(t, b, x); }
    ClearBag(t[b].cells);
  }

  // ------------------------------------------------------------- the tables there have been

  /** One change of the table: every bucket's chain makes a step. */
  ghost predicate Evolves(t: Table, u: Table) {
    forall b {:trigger BucketSteps(t, u, b)} | 0 <= b < NUM_BUCKETS :: BucketSteps(t, u, b)
  }

  ghost predicate BucketSteps(t: Table, u: Table, b: nat)
    requires b < NUM_BUCKETS
  {
    PageImages.ChainSteps(t[b].cells, u[b].cells)
  }

  lemma EvolvesAt(t: Table, b: nat, x: Bucket)
    requires b < NUM_BUCKETS && PageImages.ChainSteps(t[b].cells, x.cells)
    ensures Evolves(t, t[b := x])
  {
    var u := t[b := x];
    forall a | 0 <= a < NUM_BUCKETS ensures BucketSteps(t, u, a) {
      if a != b { PageImages.Stays(t[a].cells); }
    }
  }

  ghost predicate HistoryOk(history: seq<Table>, table: Table) {
    && history != [] && history[|history| - 1] == table
    && forall n {:trigger EvolvesFrom(history, n)} | 0 <= n < |history| - 1 :: EvolvesFrom(history, n)
  }

  ghost predicate EvolvesFrom(history: seq<Table>, n: nat)
    requires n < |history| - 1
  {
    Evolves(history[n], history[n + 1])
  }

  lemma HistoryGrows(history: seq<Table>, table: Table, next: Table)
    requires HistoryOk(history, table) && Evolves(table, next)
    ensures HistoryOk(history + [next], next)
  {
    var h := history + [next];
    forall n | 0 <= n < |h| - 1 ensures EvolvesFrom(h, n) {
      if n < |history| - 1 { assert EvolvesFrom(history, n); }
    }
  }

  /** The chains one bucket has had. */
  ghost function ChainsOf(history: seq<Table>, b: nat): seq<seq<Cell<Entry>>>
    requires b < NUM_BUCKETS
  {
    seq(|history|, n requires 0 <= n < |history| => history[n][b].cells)
  }

  lemma ChainsRun(history: seq<Table>, table: Table, b: nat)
    requires HistoryOk(history, table) && b < NUM_BUCKETS
    ensures PageImages.ChainRun(ChainsOf(history, b)) && PageImages.Present(ChainsOf(history, b)) == table[b].cells
  {
    var h := ChainsOf(history, b);
    forall n | 0 <= n < |h| - 1 ensures PageImages.ChainSteps(h[n], h[n + 1]) {
      assert EvolvesFrom(history, n);
      assert BucketSteps(history[n], history[n + 1], b);
      assert h[n + 1] == history[n + 1][b].cells;
    }
  }

  ghost function ClearedTable(t: Table): Table {
    seq(NUM_BUCKETS, b requires 0 <= b < NUM_BUCKETS => Bucket(t[b].version, Clear(t[b].cells)))
  }

  /** `clear` that has done the first `n` buckets. */
  ghost predicate ClearedTo(t: Table, u: Table, n: nat) {
    forall b {:trigger u[b]} | 0 <= b < NUM_BUCKETS :: u[b] == if b < n then Bucket(t[b].version, Clear(t[b].cells)) else t[b]
  }

  lemma ClearedStart(t: Table)
    ensures ClearedTo(t, t, 0) && Evolves(t, t)
  {
    forall b | 0 <= b < NUM_BUCKETS ensures BucketSteps(t, t, b) { PageImages.Stays(t[b].cells); }
  }

  lemma WholeCleared(cells: seq<Cell<Entry>>)
    ensures PageImages.ChainSteps(cells, Clear(cells))
  {
    ClearingSteps(cells, |cells|);
    assert Clear(cells) == Clearing(cells, |cells|);
  }

  lemma ClearedNext(t: Table, u: Table, n: nat, x: Bucket, ok: bool)
    requires n < NUM_BUCKETS && ClearedTo(t, u, n) && PageImages.ChainSteps(u[n].cells, x.cells)
    requires ok ==> x == Bucket(u[n].version, Clear(u[n].cells))
    ensures Evolves(t, u[n := x]) && (ok ==> ClearedTo(t, u[n := x], n + 1))
  {
    var w := u[n := x];
    assert u[n] == t[n];
    forall b | 0 <= b < NUM_BUCKETS ensures BucketSteps(t, w, b) {
      assert b != n ==> w[b] == u[b];
      if b < n { WholeCleared(t[b].cells); } else if b > n { PageImages.Stays(t[b].cells); }
    }
  }

  lemma ClearedEnd(t: Table, u: Table)
    requires ClearedTo(t, u, NUM_BUCKETS)
    ensures u == ClearedTable(t) && Evolves(t, u)
  {
    forall b | 0 <= b < NUM_BUCKETS ensures u[b] == ClearedTable(t)[b] && BucketSteps(t, u, b) {
      WholeCleared(t[b].cells);
    }
  }

  method InsertInTable(s: Shape, t: Table, e: Entry) returns (u: Table, done: bool)
    requires Homed(s, t)
    ensures Homed(s, u) && Contents(u) == Contents(t) + if done then multiset{e} else multiset{}
    ensures |Contents(u)| == |Contents(t)| + if done then 1 else 0
    ensures done ==> u == TableInsert(s, t, e)
    ensures Intact(t) ==> done && Intact(u)
    ensures Evolves(t, u)
  {
    var b := ToBucket(s, e.0);
    var bucket;
    bucket, done := InsertInBucket(s.layout, t[b], e);
    BucketInserted(s, t, e, bucket, done);
    EvolvesAt(t, b, bucket);
    u := t[b := bucket];
  }

  method RemoveInTable(s: Shape, t: Table, e: Entry) returns (u: Table, removal: Removal)
    requires Homed(s, t)
    ensures Homed(s, u) && Contents(u) == Contents(t) - if removal.Removed? then multiset{e} else multiset{}
    ensures |Contents(u)| == |Contents(t)| - if removal.Removed? then 1 else 0
    ensures !removal.Stale? ==> (removal.Removed? <==> e in Contents(t)) && u == TableRemove(s, t, e)
    ensures Intact(t) ==> !removal.Stale? && (Intact(u) <==> removal.Removed? || t[ToBucket(s, e.0)].cells == [])
    ensures Evolves(t, u)
  {
    var b := ToBucket(s, e.0);
    var bucket;
    bucket, removal := RemoveInBucket(t[b], e);
    BucketRemoved(s, t, e, bucket, removal);
    EvolvesAt(t, b, bucket);
    u := t[b := bucket];
  }

  /** `clear`: every bucket in turn; `n` entries go. */
  method ClearTable(s: Shape, t: Table) returns (u: Table, n: nat, ok: bool)
    requires Homed(s, t)
    ensures Homed(s, u) && |Contents(u)| + n == |Contents(t)|
    ensures ok ==> Contents(u) == multiset{}
    ensures Intact(t) ==> ok && Intact(u)
    ensures Evolves(t, u) && (ok ==> u == ClearedTable(t))
  {
    var b := 0;
    u, n, ok := t, 0, true;
    ClearedStart(t);
    while b < NUM_BUCKETS
      invariant b <= NUM_BUCKETS && Homed(s, u) && |Contents(u)| + n == |Contents(t)|
      invariant Intact(t) ==> Intact(u)
      invariant forall a | 0 <= a < b :: Flat(u[a].cells) == []
      invariant ClearedTo(t, u, b)
    {
      var bucket, m;
      bucket, m, ok := ClearBucket(u[b]);
      BucketCleared(s, u, b, bucket, m, ok);
      ClearedNext(t, u, b, bucket, ok);
      u, n := u[b := bucket], n + m;
      if !ok {
        return;
      }
      b := b + 1;
    }
    NoContents(u);
    ok := true;
    ClearedEnd(t, u);
  }

  /** `find_union`: on intact chains, all values of the key join the set. */
  method UnionWith(s: Shape, t: Table, key: int, out: set<string>) returns (r: set<string>, ok: bool)
    requires Homed(s, t)
    ensures ok <==> Consistent(t[ToBucket(s, key)].version, t[ToBucket(s, key)].cells)
    ensures ok ==> forall v :: v in r <==> v in out || (key, v) in Contents(t)
    ensures Intact(t) ==> ok
  {
    var b := ToBucket(s, key);
    r, ok := FindInBucket(t[b], key, out);
    forall v ensures v in Values(s, t, key) <==> (key, v) in Contents(t) {
      ValuesAreContents(s, t, key, v);
    }
    if Intact(t) { LinkedIsConsistent(t[b].version, t[b].cells); }
  }

  /** `find_intersect`: on intact chains, only values of the key stay in the set. */
  method IntersectWith(s: Shape, t: Table, key: int, out: set<string>) returns (r: set<string>, ok: bool)
    requires Homed(s, t)
    ensures ok ==> forall v :: v in r <==> v in out && (key, v) in Contents(t)
    ensures Intact(t) ==> ok
  {
    var b := ToBucket(s, key);
    if Intact(t) { LinkedIsConsistent(t[b].version, t[b].cells); }
    var left := out;
    r := out;
    while left != {}
      invariant left <= r <= out
      invariant forall v | v in out - left :: v in r <==> (key, v) in Contents(t)
      decreases |left|
    {
      var v :| v in left;
      var found;
      found, ok := HasEntry(t[b], (key, v));
      if !ok {
        return;
      }
      ContentsAtHome(s, t, (key, v));
      left := left - {v};
      r := if found then r else r - {v};
    }
    ok := true;
  }

  // ----------------------------------------------------- what images show besides the pages

  /** The values of the key on images that are not the present pages. */
  ghost function ClearedValues(cells: seq<Cell<Entry>>, images: seq<PageImages.Image<Entry>>, key: int): set<string> {
    set i, e | 0 <= i < |images| && PageImages.ImageAt(cells, i) != images[i] && e in images[i].cell.entries && e.0 == key :: e.1
  }

  lemma {:induction false} ShownHas(images: seq<PageImages.Image<Entry>>, from: nat, e: Entry)
    ensures e in Flat(PageImages.Shown(images, from)) <==> exists i | from <= i < |images| :: e in images[i].cell.entries
    decreases |images| - from
  {
    if from < |images| {
      ShownHas(images, from + 1, e);
      assert PageImages.Shown(images, from)[1..] == PageImages.Shown(images, from + 1);
    }
  }

  lemma {:induction false} FlatHas(cells: seq<Cell<Entry>>, e: Entry)
    ensures e in Flat(cells) <==> exists i | 0 <= i < |cells| :: e in cells[i].entries
  {
    if cells != [] {
      FlatHas(cells[1..], e);
      if i :| 0 <= i < |cells| && e in cells[i].entries {
        if i > 0 { assert cells[1..][i - 1] == cells[i]; }
      }
    }
  }

  /** Images of the present pages or from before a `clear` show the present values and the cleared ones. */
  lemma ShownIs(cells: seq<Cell<Entry>>, images: seq<PageImages.Image<Entry>>, key: int)
    requires |images| == |cells| && PageImages.AllPresentOrCleared(cells, images, 0)
    ensures ValuesIn(PageImages.Shown(images, 0), key) == ValuesIn(cells, key) + ClearedValues(cells, images, key)
  {
    forall v ensures v in ValuesIn(PageImages.Shown(images, 0), key) <==> v in ValuesIn(cells, key) + ClearedValues(cells, images, key) {
      ShownValue(cells, images, key, v);
    }
  }

  lemma ShownValue(cells: seq<Cell<Entry>>, images: seq<PageImages.Image<Entry>>, key: int, v: string)
    requires |images| == |cells| && PageImages.AllPresentOrCleared(cells, images, 0)
    ensures v in ValuesIn(PageImages.Shown(images, 0), key) <==> v in ValuesIn(cells, key) + ClearedValues(cells, images, key)
  {
    var e := (key, v);
    ShownHas(images, 0, e);
    FlatHas(cells, e);
    if i :| 0 <= i < |images| && e in images[i].cell.entries {
      assert PageImages.PresentOrCleared(cells, images, i);
    }
    if i :| 0 <= i < |cells| && e in cells[i].entries {
      assert PageImages.PresentOrCleared(cells, images, i);
      assert e in images[i].cell.entries;
    }
  }

  // -------------------------------------------------------------------- the object

  class MultiMap {
    const shape: Shape
    var table: Table
    var size: nat
    ghost var history: seq<Table>    // the tables after each change, oldest first

    ghost predicate Valid()
      reads this
    {
      Homed(shape, table) && size == |Contents(table)| && HistoryOk(history, table)
    }

    constructor (shape: Shape)
      ensures Valid() && this.shape == shape && Contents(table) == multiset{} && Intact(table)
      ensures forall b | 0 <= b < NUM_BUCKETS :: table[b] == Bucket(0, [])
      ensures history == [table]
    {
      this.shape := shape;
      table := seq(NUM_BUCKETS, _ => Bucket(0, []));
      size := 0;
      history := [seq(NUM_BUCKETS, _ => Bucket(0, []))];
      new;
      NoContents(table);
    }

    /** One more occurrence of the pair.  On intact chains it always succeeds and leaves them intact. */
    method Insert(key: int, value: string) returns (done: bool)
      requires Valid()
      modifies this
      ensures Valid()
      ensures Contents(table) == old(Contents(table)) + if done then multiset{(key, value)} else multiset{}
      ensures done ==> table == TableInsert(shape, old(table), (key, value))
      ensures old(Intact(table)) ==> done && Intact(table)
      ensures history == old(history) + [table]
    {
      var next;
      next, done := InsertInTable(shape, table, (key, value));
      HistoryGrows(history, table, next);
      table, history := next, history + [next];
      if done {
        size := size + 1;
      }
    }

    /** One occurrence less, if there is one.  Intact chains stay intact exactly when there is, or when no page was touched. */
    method Remove(key: int, value: string) returns (removal: Removal)
      requires Valid()
      modifies this
      ensures Valid()
      ensures !removal.Stale? ==> (removal.Removed? <==> (key, value) in old(Contents(table)))
      ensures Contents(table) == old(Contents(table)) - if removal.Removed? then multiset{(key, value)} else multiset{}
      ensures !removal.Stale? ==> table == TableRemove(shape, old(table), (key, value))
      ensures old(Intact(table)) ==>
                && !removal.Stale?
                && (Intact(table) <==> removal.Removed? || old(table)[ToBucket(shape, key)].cells == [])
      ensures history == old(history) + [table]
    {
      var next;
      next, removal := RemoveInTable(shape, table, (key, value));
      HistoryGrows(history, table, next);
      table, history := next, history + [next];
      if removal.Removed? {
        size := size - 1;
      }
    }

    method FindUnion(key: int, out: set<string>) returns (r: set<string>, ok: bool)
      requires Valid()
      ensures ok <==> Consistent(table[ToBucket(shape, key)].version, table[ToBucket(shape, key)].cells)
      ensures ok ==> forall v :: v in r <==> v in out || (key, v) in Contents(table)
      ensures Intact(table) ==> ok
    {
      r, ok := UnionWith(shape, table, key, out);
    }

    /**
     `find_union` through images of the pages.  Of an intact map and images fewer than 65535 versions
     old it gets through exactly if every image is the present page or is from before the `clear`
     that emptied it.  Then all values of the key are found, and besides them only those of images
     from before such a `clear`.
     */
    method FindUnionIn(key: int, out: set<string>, images: seq<PageImages.Image<Entry>>) returns (r: set<string>, ok: bool)
      requires Valid()
      ensures ok <==> PageImages.Pass(table[ToBucket(shape, key)].version, images)
      ensures ok ==> r == out + ValuesIn(PageImages.CellsRead(images), key)
      ensures Intact(table) && PageImages.AllRecent(ChainsOf(history, ToBucket(shape, key)), images) ==>
                var cells := table[ToBucket(shape, key)].cells;
                && (ok <==> PageImages.AllPresentOrCleared(cells, images, 0))
                && (ok ==> r == out + Values(shape, table, key) + ClearedValues(cells, images, key))
    {
      var b := ToBucket(shape, key);
      r, ok := FindInImages(table[b].version, images, key, out);
      if Intact(table) && PageImages.AllRecent(ChainsOf(history, b), images) {
        ChainsRun(history, table, b);
        PageImages.RecentImagesPassIff(ChainsOf(history, b), table[b].version, images);
        if ok { ShownIs(table[b].cells, images, key); }
      }
    }

    method FindIntersect(key: int, out: set<string>) returns (r: set<string>, ok: bool)
      requires Valid()
      ensures ok ==> forall v :: v in r <==> v in out && (key, v) in Contents(table)
      ensures Intact(table) ==> ok
    {
      r, ok := IntersectWith(shape, table, key, out);
    }

    /** `clear`: on intact chains, no entry is left and the chains stay intact. */
    method Clear() returns (ok: bool)
      requires Valid()
      modifies this
      ensures Valid()
      ensures ok ==> Contents(table) == multiset{} && size == 0
      ensures old(Intact(table)) ==> ok && Intact(table)
      ensures ok ==> table == ClearedTable(old(table))
      ensures history == old(history) + [table]
    {
      var n;
      var next;
      next, n, ok := ClearTable(shape, table);
      HistoryGrows(history, table, next);
      table, history := next, history + [next];
      size := size - n;
    }
  }
}
