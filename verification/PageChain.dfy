/**
 The chain of pages behind one bucket of a paged map.

 Each page carries its own version and the version it expects of its successor; the bucket
 carries the version expected of the first page.  `Cell` is a page without its page
 numbers, so a chain is a sequence of cells.
 */
module PageChain {
  import opened VersionNumber

  const NUM_BUCKETS: nat := 8192
  const MAX_NODE_SIZE: nat := 1024

  datatype Cell<E> = Cell(version: Version, succVersion: Version, entries: seq<E>)

  /** Bytes of an empty page, which are fewer than the limit, and bytes of an entry. */
  datatype Layout<!E> = Layout(overhead: nat, size: E -> nat)

  function EmptyCell<E>(): Cell<E> {
    Cell(0, 0, [])
  }

  function Bytes<E>(size: E -> nat, entries: seq<E>): nat {
    if entries == [] then 0 else size(entries[0]) + Bytes(size, entries[1..])
  }

  /** `byte_size() >= MAX_NODE_SIZE`. */
  predicate Full<E>(l: Layout<E>, c: Cell<E>) {
    l.overhead + Bytes(l.size, c.entries) >= MAX_NODE_SIZE
  }

  /** Every link carries the version of the page it leads to; a link to nothing carries zero. */
  predicate Linked<E>(v: Version, cells: seq<Cell<E>>)
    decreases |cells|
  {
    if cells == [] then v == 0
    else cells[0].version == v && Linked(cells[0].succVersion, cells[1..])
  }

  /** The last page's link, or that of a bucket without pages, carries zero. */
  predicate EndsInZero<E>(v: Version, cells: seq<Cell<E>>) {
    (if cells == [] then v else cells[|cells| - 1].succVersion) == 0
  }

  /** The version that the link to page `i` of the chain expects. */
  function Expected<E>(v: Version, cells: seq<Cell<E>>, i: nat): Version
    requires i <= |cells|
  {
    if i == 0 then v else cells[i - 1].succVersion
  }

  /** Does the page have the version that the link to it expects? */
  predicate Matches<E>(v: Version, cells: seq<Cell<E>>, i: nat)
    requires i < |cells|
  {
    cells[i].version == Expected(v, cells, i)
  }

  /** Linked is: every page matches its link, and the last link carries zero. */
  lemma {:induction false} LinkedIff<E>(v: Version, cells: seq<Cell<E>>)
    ensures Linked(v, cells) <==> EndsInZero(v, cells) && forall i | 0 <= i < |cells| :: Matches(v, cells, i)
    decreases |cells|
  {
    if cells != [] {
      var w, rest := cells[0].succVersion, cells[1..];
      LinkedIff(w, rest);
      assert EndsInZero(v, cells) <==> EndsInZero(w, rest);
      if Linked(v, cells) {
        forall i | 0 <= i < |cells| ensures Matches(v, cells, i) {
          if i > 0 { assert Matches(w, rest, i - 1); }
        }
      }
      if forall i | 0 <= i < |cells| :: Matches(v, cells, i) {
        assert Matches(v, cells, 0);
        forall i | 0 <= i < |rest| ensures Matches(w, rest, i) { assert Matches(v, cells, i + 1); }
      }
    }
  }

  /** A page passed on the way to the page that changes. */
  function Pass<E>(c: Cell<E>): Cell<E> {
    c.(version := Increment(c.version), succVersion := Increment(c.succVersion))
  }

  function PassAll<E>(cells: seq<Cell<E>>): (r: seq<Cell<E>>)
    ensures |r| == |cells| && forall i | 0 <= i < |r| :: r[i] == Pass(cells[i])
  {
    seq(|cells|, i requires 0 <= i < |cells| => Pass(cells[i]))
  }

  /** A page that only counts its own version up. */
  function Bump<E>(c: Cell<E>): Cell<E> {
    c.(version := Increment(c.version))
  }

  /** The chain after a change that stopped behind page `i`: the pages before it were passed, `i` itself only counted up. */
  function Abandoned<E>(cells: seq<Cell<E>>, i: nat): (r: seq<Cell<E>>)
    ensures |r| == |cells|
  {
    seq(|cells|, j requires 0 <= j < |cells| => if j < i then Pass(cells[j]) else if j == i then Bump(cells[j]) else cells[j])
  }

  lemma AbandonedMatches<E>(v: Version, cells: seq<Cell<E>>, i: nat, j: nat)
    requires j < |cells| && Matches(v, cells, j)
    ensures Matches(Increment(v), Abandoned(cells, i), j)
  {
    var r := Abandoned(cells, i);
    if j <= i {
      assert Expected(Increment(v), r, j) == Increment(Expected(v, cells, j));
    } else {
      assert Expected(Increment(v), r, j) == Expected(v, cells, j);
    }
  }

  /** Stopping half-way breaks no link. */
  lemma AbandonedLinked<E>(v: Version, cells: seq<Cell<E>>, i: nat)
    requires Linked(v, cells) && i < |cells|
    ensures Linked(Increment(v), Abandoned(cells, i))
  {
    var r := Abandoned(cells, i);
    LinkedIff(v, cells);
    LinkedIff(Increment(v), r);
    assert EndsInZero(Increment(v), r);
    forall j | 0 <= j < |r| ensures Matches(Increment(v), r, j) { AbandonedMatches(v, cells, i, j); }
  }

  lemma {:induction false} SameEntriesSameFlat<E>(a: seq<Cell<E>>, b: seq<Cell<E>>)
    requires |a| == |b| && forall i | 0 <= i < |a| :: a[i].entries == b[i].entries
    ensures Flat(a) == Flat(b)
    decreases |a|
  {
    if a != [] {
      assert a[0].entries == b[0].entries;
      SameEntriesSameFlat(a[1..], b[1..]);
    }
  }

  /** All entries of a chain, in page order. */
  function Flat<E>(cells: seq<Cell<E>>): seq<E> {
    if cells == [] then [] else cells[0].entries + Flat(cells[1..])
  }

  lemma {:induction false} FlatConcat<E>(a: seq<Cell<E>>, b: seq<Cell<E>>)
    ensures Flat(a + b) == Flat(a) + Flat(b)
  {
    if a == [] {
      assert a + b == b;
    } else {
      var first, rest := a[0].entries, a[1..];
      assert (a + b)[0] == a[0] && (a + b)[1..] == rest + b;
      FlatConcat(rest, b);
      assert first + (Flat(rest) + Flat(b)) == (first + Flat(rest)) + Flat(b);
    }
  }

  /** The bytes of a page are those of its entries, taken together. */
  lemma {:induction false} BytesConcat<E>(size: E -> nat, a: seq<E>, b: seq<E>)
    ensures Bytes(size, a + b) == Bytes(size, a) + Bytes(size, b)
    ensures |b| == 1 ==> Bytes(size, b) == size(b[0])
    ensures |b| == 0 ==> Bytes(size, b) == 0
  {
    if a == [] {
      assert a + b == b;
    } else {
      BytesConcat(size, a[1..], b);
      assert (a + b)[1..] == a[1..] + b;
    }
  }

  lemma {:induction false} BytesAppend<E>(size: E -> nat, entries: seq<E>, e: E)
    ensures Bytes(size, entries + [e]) == Bytes(size, entries) + size(e)
  {
    if entries == [] {
      assert entries + [e] == [e];
    } else {
      BytesAppend(size, entries[1..], e);
      assert (entries + [e])[1..] == entries[1..] + [e];
    }
  }
}
