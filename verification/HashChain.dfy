/**
 One bucket of the hash map: insertion and lookup along its chain of pages, and why the
 chain is nothing but an association list with distinct keys.
 */
module HashChain {
  import opened EventLog
  import opened VersionNumber
  import opened PageChain

  predicate HasKey<K(==), V>(es: seq<(K, V)>, k: K) {
    exists i :: 0 <= i < |es| && es[i].0 == k
  }

  /** `HashMapNode::get`: the first entry with the key. */
  function Find<K(==), V>(es: seq<(K, V)>, k: K): Option<V> {
    if es == [] then None else if es[0].0 == k then Some(es[0].1) else Find(es[1..], k)
  }

  /** `HashMapNode::insert` on the entries: overwrite the value in place or append. */
  function Put<K(==), V>(es: seq<(K, V)>, k: K, v: V): seq<(K, V)> {
    if HasKey(es, k) then seq(|es|, i requires 0 <= i < |es| => if es[i].0 == k then (k, v) else es[i])
    else es + [(k, v)]
  }

  /** Does the page take the entry? */
  predicate Takes<K(==), V>(l: Layout<(K, V)>, c: Cell<(K, V)>, k: K) {
    HasKey(c.entries, k) || !Full(l, c)
  }

  function Store<K(==), V>(c: Cell<(K, V)>, k: K, v: V): Cell<(K, V)> {
    c.(version := Increment(c.version), entries := Put(c.entries, k, v))
  }

  /** `HashMap::insert` along the chain. */
  function Insert<K(==), V>(l: Layout<(K, V)>, cells: seq<Cell<(K, V)>>, k: K, v: V): seq<Cell<(K, V)>> {
    if cells == [] then [Store(EmptyCell(), k, v)]
    else if Takes(l, cells[0], k) then [Store(cells[0], k, v)] + cells[1..]
    else [Pass(cells[0])] + Insert(l, cells[1..], k, v)
  }

  // ---------------------------------------------------------------- what is kept

  /** Values have a fixed size, and an empty page has room. */
  ghost predicate Sane<K(!new), V(!new)>(l: Layout<(K, V)>) {
    l.overhead < MAX_NODE_SIZE && forall k, v, w :: l.size((k, v)) == l.size((k, w))
  }

  ghost predicate Distinct<K, V>(es: seq<(K, V)>) {
    forall i, j | 0 <= i < j < |es| :: es[i].0 != es[j].0
  }

  ghost predicate Packed<K, V>(l: Layout<(K, V)>, cells: seq<Cell<(K, V)>>) {
    && (forall i | 0 <= i < |cells| - 1 :: Full(l, cells[i]))
    && (forall i | 0 <= i < |cells| :: cells[i].entries != [])
  }

  /** What holds of every bucket, whatever its versions: full inner pages, no empty page, no key twice, a last link of zero. */
  ghost predicate Shaped<K, V>(l: Layout<(K, V)>, v: Version, cells: seq<Cell<(K, V)>>) {
    EndsInZero(v, cells) && Packed(l, cells) && Distinct(Flat(cells))
  }

  // --------------------------------------------------------------- association lists

  lemma {:induction false} FindHas<K, V>(es: seq<(K, V)>, k: K)
    ensures Find(es, k).Some? <==> HasKey(es, k)
    ensures Find(es, k).Some? ==> (k, Find(es, k).value) in es
  {
    if es != [] {
      FindHas(es[1..], k);
      if HasKey(es, k) && es[0].0 != k {
        var i :| 0 <= i < |es| && es[i].0 == k;
        assert es[1..][i - 1].0 == k;
      }
    }
  }

  /** In a list with distinct keys, a pair is found exactly where it is. */
  lemma {:induction false} FindIs<K, V>(es: seq<(K, V)>, i: nat)
    requires Distinct(es) && i < |es|
    ensures Find(es, es[i].0) == Some(es[i].1)
  {
    if i > 0 { FindIs(es[1..], i - 1); }
  }

  lemma PutKeepsDistinct<K, V>(es: seq<(K, V)>, k: K, v: V)
    requires Distinct(es)
    ensures Distinct(Put(es, k, v))
  {
    var r := Put(es, k, v);
    forall i, j | 0 <= i < j < |r| ensures r[i].0 != r[j].0 {
      if j < |es| { assert es[i].0 != es[j].0; }
    }
  }

  /** Put binds its key and leaves every other key alone. */
  lemma PutFind<K, V>(es: seq<(K, V)>, k: K, v: V, q: K)
    requires Distinct(es)
    ensures Find(Put(es, k, v), q) == if q == k then Some(v) else Find(es, q)
  {
    var r := Put(es, k, v);
    PutKeepsDistinct(es, k, v);
    FindHas(es, q);
    FindHas(r, q);
    if HasKey(es, q) {
      var i :| 0 <= i < |es| && es[i].0 == q;
      FindIs(es, i);
      FindIs(r, i);
    } else if q == k {
      FindIs(r, |es|);
    }
  }

  lemma {:induction false} FindConcat<K, V>(a: seq<(K, V)>, b: seq<(K, V)>, k: K)
    ensures Find(a + b, k) == if HasKey(a, k) then Find(a, k) else Find(b, k)
  {
    if a == [] {
      assert a + b == b;
    } else {
      FindConcat(a[1..], b, k);
      assert (a + b)[1..] == a[1..] + b;
      assert HasKey(a, k) <==> a[0].0 == k || HasKey(a[1..], k) by {
        if HasKey(a, k) && a[0].0 != k {
          var i :| 0 <= i < |a| && a[i].0 == k;
          assert a[1..][i - 1].0 == k;
        }
      }
    }
  }

  // ------------------------------------------------------- the chain as one long list

  lemma HasKeyConcat<K, V>(a: seq<(K, V)>, b: seq<(K, V)>, k: K)
    ensures HasKey(a + b, k) <==> HasKey(a, k) || HasKey(b, k)
  {
    if HasKey(b, k) {
      var i :| 0 <= i < |b| && b[i].0 == k;
      assert (a + b)[|a| + i].0 == k;
    }
    if HasKey(a, k) {
      var i :| 0 <= i < |a| && a[i].0 == k;
      assert (a + b)[i].0 == k;
    }
  }

  lemma PutConcat<K, V>(a: seq<(K, V)>, b: seq<(K, V)>, k: K, v: V)
    requires Distinct(a + b)
    ensures HasKey(a, k) ==> Put(a + b, k, v) == Put(a, k, v) + b
    ensures !HasKey(a, k) ==> Put(a + b, k, v) == a + Put(b, k, v)
  {
    HasKeyConcat(a, b, k);
    if HasKey(a, k) {
      var i :| 0 <= i < |a| && a[i].0 == k;
      assert (a + b)[i].0 == k;
    }
  }

  lemma DistinctParts<K, V>(a: seq<(K, V)>, b: seq<(K, V)>)
    requires Distinct(a + b)
    ensures Distinct(a) && Distinct(b)
  {
    forall i, j | 0 <= i < j < |b| ensures b[i].0 != b[j].0 {
      assert (a + b)[|a| + i] == b[i] && (a + b)[|a| + j] == b[j];
    }
    forall i, j | 0 <= i < j < |a| ensures a[i].0 != a[j].0 {
      assert (a + b)[i] == a[i] && (a + b)[j] == a[j];
    }
  }

  lemma PackedTail<K, V>(l: Layout<(K, V)>, cells: seq<Cell<(K, V)>>)
    requires Packed(l, cells) && cells != []
    ensures Packed(l, cells[1..])
  {
    forall i | 0 <= i < |cells| - 2 ensures Full(l, cells[1..][i]) { assert Full(l, cells[i + 1]); }
  }

  /** Lookup along the pages finds what lookup in the long list finds. */
  function Lookup<K(==), V>(cells: seq<Cell<(K, V)>>, k: K): Option<V> {
    if cells == [] then None
    else if HasKey(cells[0].entries, k) then Find(cells[0].entries, k)
    else Lookup(cells[1..], k)
  }

  lemma {:induction false} LookupIsFind<K, V>(cells: seq<Cell<(K, V)>>, k: K)
    ensures Lookup(cells, k) == Find(Flat(cells), k)
  {
    if cells != [] {
      LookupIsFind(cells[1..], k);
      FindConcat(cells[0].entries, Flat(cells[1..]), k);
    }
  }

  /** Inserting along the pages is inserting in the long list. */
  lemma {:induction false} InsertIsPut<K, V>(l: Layout<(K, V)>, cells: seq<Cell<(K, V)>>, k: K, v: V)
    requires Packed(l, cells) && Distinct(Flat(cells))
    ensures Flat(Insert(l, cells, k, v)) == Put(Flat(cells), k, v)
  {
    var r := Insert(l, cells, k, v);
    if cells == [] {
      assert r[1..] == [];
    } else {
      var es, rest := cells[0].entries, cells[1..];
      PutConcat(es, Flat(rest), k, v);
      DistinctParts(es, Flat(rest));
      if Takes(l, cells[0], k) {
        assert r[1..] == rest;
        if !HasKey(es, k) { assert rest == []; }
      } else {
        PackedTail(l, cells);
        InsertIsPut(l, rest, k, v);
        assert r[0].entries == es && r[1..] == Insert(l, rest, k, v);
      }
    }
  }

  // ---------------------------------------------------------- the invariant of a chain

  lemma {:induction false} BytesPut<K(!new), V(!new)>(l: Layout<(K, V)>, es: seq<(K, V)>, k: K, v: V)
    requires Sane(l)
    ensures Bytes(l.size, Put(es, k, v)) >= Bytes(l.size, es)
  {
    if HasKey(es, k) {
      BytesSameKeys(l, es, Put(es, k, v));
    } else {
      BytesAppend(l.size, es, (k, v));
    }
  }

  lemma {:induction false} BytesSameKeys<K(!new), V(!new)>(l: Layout<(K, V)>, a: seq<(K, V)>, b: seq<(K, V)>)
    requires Sane(l) && |a| == |b| && forall i | 0 <= i < |a| :: a[i].0 == b[i].0
    ensures Bytes(l.size, a) == Bytes(l.size, b)
    decreases |a|
  {
    if a != [] {
      BytesSameKeys(l, a[1..], b[1..]);
      assert l.size((a[0].0, a[0].1)) == l.size((a[0].0, b[0].1));
    }
  }

  lemma {:induction false} InsertPacked<K(!new), V(!new)>(l: Layout<(K, V)>, cells: seq<Cell<(K, V)>>, k: K, v: V)
    requires Sane(l) && Packed(l, cells)
    ensures Packed(l, Insert(l, cells, k, v)) && Insert(l, cells, k, v) != []
  {
    var r := Insert(l, cells, k, v);
    if cells != [] {
      if Takes(l, cells[0], k) {
        BytesPut(l, cells[0].entries, k, v);
        forall i | 0 <= i < |r| - 1 ensures Full(l, r[i]) { assert Full(l, cells[i]); }
      } else {
        PackedTail(l, cells);
        InsertPacked(l, cells[1..], k, v);
        var t := Insert(l, cells[1..], k, v);
        forall i | 0 <= i < |r| - 1 ensures Full(l, r[i]) {
          if i > 0 { assert r[i] == t[i - 1] && Full(l, t[i - 1]); }
        }
        forall i | 0 <= i < |r| ensures r[i].entries != [] {
          if i > 0 { assert r[i] == t[i - 1]; }
        }
      }
    }
  }

  lemma {:induction false} InsertLinked<K, V>(l: Layout<(K, V)>, version: Version, cells: seq<Cell<(K, V)>>, k: K, v: V)
    requires Linked(version, cells)
    ensures Linked(Increment(version), Insert(l, cells, k, v))
    decreases |cells|
  {
    var r := Insert(l, cells, k, v);
    if cells == [] {
      assert r[1..] == [];
    } else if Takes(l, cells[0], k) {
      assert r[1..] == cells[1..];
    } else {
      InsertLinked(l, cells[0].succVersion, cells[1..], k, v);
      assert r[1..] == Insert(l, cells[1..], k, v);
    }
  }

  lemma {:induction false} InsertEndsInZero<K, V>(l: Layout<(K, V)>, version: Version, cells: seq<Cell<(K, V)>>, k: K, v: V)
    requires EndsInZero(version, cells)
    ensures EndsInZero(Increment(version), Insert(l, cells, k, v)) && Insert(l, cells, k, v) != []
    decreases |cells|
  {
    var r := Insert(l, cells, k, v);
    if cells != [] && !Takes(l, cells[0], k) {
      InsertEndsInZero(l, cells[0].succVersion, cells[1..], k, v);
      assert r[|r| - 1] == Insert(l, cells[1..], k, v)[|r| - 2];
    }
  }

  /** An insert keeps everything a bucket promises, under a bucket version one higher. */
  lemma InsertKeepsChain<K(!new), V(!new)>(l: Layout<(K, V)>, version: Version, cells: seq<Cell<(K, V)>>, k: K, v: V)
    requires Sane(l) && Shaped(l, version, cells)
    ensures Shaped(l, Increment(version), Insert(l, cells, k, v))
    ensures Linked(version, cells) ==> Linked(Increment(version), Insert(l, cells, k, v))
  {
    InsertEndsInZero(l, version, cells, k, v);
    if Linked(version, cells) { InsertLinked(l, version, cells, k, v); }
    InsertPacked(l, cells, k, v);
    InsertIsPut(l, cells, k, v);
    PutKeepsDistinct(Flat(cells), k, v);
  }

  /** An insert changes its key's binding and no other. */
  lemma InsertLookup<K, V>(l: Layout<(K, V)>, cells: seq<Cell<(K, V)>>, k: K, v: V, q: K)
    requires Packed(l, cells) && Distinct(Flat(cells))
    ensures Lookup(Insert(l, cells, k, v), q) == if q == k then Some(v) else Lookup(cells, q)
  {
    InsertIsPut(l, cells, k, v);
    PutFind(Flat(cells), k, v, q);
    LookupIsFind(cells, q);
    LookupIsFind(Insert(l, cells, k, v), q);
  }

  lemma OnePassed<K, V>(l: Layout<(K, V)>, cells: seq<Cell<(K, V)>>, k: K, v: V)
    requires cells != [] && !Takes(l, cells[0], k)
    ensures Insert(l, cells, k, v) == [Pass(cells[0])] + Insert(l, cells[1..], k, v)
  {
  }

  lemma PassAllCons<E>(cells: seq<Cell<E>>, i: nat, tail: seq<Cell<E>>)
    requires 0 < i <= |cells|
    ensures PassAll(cells[..i]) + tail == [Pass(cells[0])] + (PassAll(cells[1..][..i - 1]) + tail)
    ensures cells[1..][i - 1..] == cells[i..]
  {
    assert cells[1..][..i - 1] == cells[1..i];
    assert PassAll(cells[..i]) == [Pass(cells[0])] + PassAll(cells[1..i]);
  }

  lemma PassingOneMore<K, V>(l: Layout<(K, V)>, cells: seq<Cell<(K, V)>>, k: K, v: V, i: nat)
    requires 0 < i <= |cells| && !Takes(l, cells[0], k)
    requires Insert(l, cells[1..], k, v) == PassAll(cells[1..][..i - 1]) + Insert(l, cells[1..][i - 1..], k, v)
    ensures Insert(l, cells, k, v) == PassAll(cells[..i]) + Insert(l, cells[i..], k, v)
  {
    OnePassed(l, cells, k, v);
    PassAllCons(cells, i, Insert(l, cells[i..], k, v));
  }

  /** None of the first `i` pages takes the entry. */
  ghost predicate NoneTakes<K, V>(l: Layout<(K, V)>, cells: seq<Cell<(K, V)>>, k: K, i: nat)
    requires i <= |cells|
  {
    forall j {:trigger Takes(l, cells[j], k)} | 0 <= j < i :: !Takes(l, cells[j], k)
  }

  lemma NoneTakesTail<K, V>(l: Layout<(K, V)>, cells: seq<Cell<(K, V)>>, k: K, i: nat)
    requires 0 < i <= |cells| && NoneTakes(l, cells, k, i)
    ensures !Takes(l, cells[0], k) && NoneTakes(l, cells[1..], k, i - 1)
  {
    forall j | 0 <= j < i - 1 ensures !Takes(l, cells[1..][j], k) { assert !Takes(l, cells[j + 1], k); }
  }

  /** Pages that do not take the entry are only passed. */
  lemma {:induction false} InsertAfterPassing<K, V>(l: Layout<(K, V)>, cells: seq<Cell<(K, V)>>, k: K, v: V, i: nat)
    requires i <= |cells| && NoneTakes(l, cells, k, i)
    ensures Insert(l, cells, k, v) == PassAll(cells[..i]) + Insert(l, cells[i..], k, v)
    decreases i
  {
    if i == 0 {
      assert PassAll(cells[..0]) == [] && cells[0..] == cells;
    } else {
      NoneTakesTail(l, cells, k, i);
      InsertAfterPassing(l, cells[1..], k, v, i - 1);
      PassingOneMore(l, cells, k, v, i);
    }
  }

  // ------------------------------------------------------------------ version checks

  /** Does an insert get to a page that takes the entry, each page on the way passing its version check? */
  predicate Admits<K(==), V>(l: Layout<(K, V)>, version: Version, cells: seq<Cell<(K, V)>>, k: K)
    decreases |cells|
  {
    cells == [] ||
    (cells[0].version == version && (Takes(l, cells[0], k) || Admits(l, cells[0].succVersion, cells[1..], k)))
  }

  /** A linked chain admits every insert. */
  lemma {:induction false} LinkedAdmits<K, V>(l: Layout<(K, V)>, version: Version, cells: seq<Cell<(K, V)>>, k: K)
    requires Linked(version, cells)
    ensures Admits(l, version, cells, k)
    decreases |cells|
  {
    if cells != [] { LinkedAdmits(l, cells[0].succVersion, cells[1..], k); }
  }

  /** An insert is admitted exactly if every page up to the one that takes the entry matches its link. */
  lemma {:induction false} AdmitsIff<K, V>(l: Layout<(K, V)>, version: Version, cells: seq<Cell<(K, V)>>, k: K, i: nat)
    requires i <= |cells| && NoneTakes(l, cells, k, i) && (i < |cells| ==> Takes(l, cells[i], k))
    ensures Admits(l, version, cells, k) <==> forall j | 0 <= j <= i && j < |cells| :: Matches(version, cells, j)
    decreases i
  {
    if cells != [] {
      assert Matches(version, cells, 0) <==> cells[0].version == version;
      if i > 0 {
        var w, rest := cells[0].succVersion, cells[1..];
        NoneTakesTail(l, cells, k, i);
        AdmitsIff(l, w, rest, k, i - 1);
        forall j | 0 <= j <= i - 1 && j < |rest| ensures Matches(w, rest, j) <==> Matches(version, cells, j + 1) {}
        if forall j | 0 <= j <= i - 1 && j < |rest| :: Matches(w, rest, j) {
          forall j | 0 < j <= i && j < |cells| ensures Matches(version, cells, j) { assert Matches(w, rest, j - 1); }
        }
      }
    }
  }

  /** A page that does not match its link stops an insert that has to pass it. */
  lemma {:induction false} NotAdmitted<K, V>(l: Layout<(K, V)>, version: Version, cells: seq<Cell<(K, V)>>, k: K, i: nat)
    requires i < |cells| && NoneTakes(l, cells, k, i) && !Matches(version, cells, i)
    ensures !Admits(l, version, cells, k)
    decreases i
  {
    if i > 0 {
      NoneTakesTail(l, cells, k, i);
      assert Matches(version, cells, i) <==> Matches(cells[0].succVersion, cells[1..], i - 1);
      NotAdmitted(l, cells[0].succVersion, cells[1..], k, i - 1);
    }
  }

  ghost predicate SameKeys<K, V>(a: seq<(K, V)>, b: seq<(K, V)>) {
    |a| == |b| && forall i | 0 <= i < |a| :: a[i].0 == b[i].0
  }

  ghost predicate SameKeysByPage<K, V>(a: seq<Cell<(K, V)>>, b: seq<Cell<(K, V)>>) {
    |a| == |b| && forall i | 0 <= i < |a| :: SameKeys(a[i].entries, b[i].entries)
  }

  lemma {:induction false} SameKeysFlat<K, V>(a: seq<Cell<(K, V)>>, b: seq<Cell<(K, V)>>)
    requires SameKeysByPage(a, b)
    ensures SameKeys(Flat(a), Flat(b))
    decreases |a|
  {
    if a != [] {
      assert SameKeys(a[0].entries, b[0].entries);
      forall i | 0 <= i < |a| - 1 ensures SameKeys(a[1..][i].entries, b[1..][i].entries) { assert SameKeys(a[i + 1].entries, b[i + 1].entries); }
      SameKeysFlat(a[1..], b[1..]);
    }
  }

  lemma SameKeysPacked<K(!new), V(!new)>(l: Layout<(K, V)>, a: seq<Cell<(K, V)>>, b: seq<Cell<(K, V)>>)
    requires Sane(l) && SameKeysByPage(a, b) && Packed(l, a)
    ensures Packed(l, b)
  {
    forall i | 0 <= i < |b| ensures b[i].entries != [] && (i < |b| - 1 ==> Full(l, b[i])) {
      assert SameKeys(a[i].entries, b[i].entries) && a[i].entries != [];
      BytesSameKeys(l, a[i].entries, b[i].entries);
      if i < |b| - 1 { assert Full(l, a[i]); }
    }
  }

  /** The shape of a chain lies in its keys and its last link. */
  lemma SameKeysShaped<K(!new), V(!new)>(l: Layout<(K, V)>, v: Version, a: seq<Cell<(K, V)>>, w: Version, b: seq<Cell<(K, V)>>)
    requires Sane(l) && Shaped(l, v, a) && SameKeysByPage(a, b) && EndsInZero(w, b)
    ensures Shaped(l, w, b)
  {
    SameKeysPacked(l, a, b);
    SameKeysFlat(a, b);
    forall i, j | 0 <= i < j < |Flat(b)| ensures Flat(b)[i].0 != Flat(b)[j].0 { assert Flat(a)[i].0 != Flat(a)[j].0; }
  }

  /** An insert that was stopped behind page `i` leaves all entries as they were. */
  lemma AbandonedShaped<K(!new), V(!new)>(l: Layout<(K, V)>, version: Version, cells: seq<Cell<(K, V)>>, i: nat)
    requires Sane(l) && Shaped(l, version, cells) && i < |cells|
    ensures Shaped(l, Increment(version), Abandoned(cells, i)) && Flat(Abandoned(cells, i)) == Flat(cells)
  {
    var r := Abandoned(cells, i);
    SameEntriesSameFlat(r, cells);
    forall j | 0 <= j < |r| ensures SameKeys(cells[j].entries, r[j].entries) {}
    SameKeysShaped(l, version, cells, Increment(version), r);
  }

  // ------------------------------------------- overwriting a value through an iterator

  /** `iterator_t::set_value`: page `i` stores, the pages before it only count their own version up. */
  function SetValue<K(==), V>(cells: seq<Cell<(K, V)>>, i: nat, k: K, v: V): (r: seq<Cell<(K, V)>>)
    requires i < |cells|
    ensures |r| == |cells|
  {
    seq(|cells|, j requires 0 <= j < |cells| => if j < i then Bump(cells[j]) else if j == i then Store(cells[j], k, v) else cells[j])
  }

  /** The links survive exactly when the entry sits in the first page. */
  lemma SetValueKeepsLinksIff<K, V>(version: Version, cells: seq<Cell<(K, V)>>, i: nat, k: K, v: V)
    requires Linked(version, cells) && i < |cells|
    ensures Linked(Increment(version), SetValue(cells, i, k, v)) <==> i == 0
  {
    var r := SetValue(cells, i, k, v);
    LinkedIff(version, cells);
    LinkedIff(Increment(version), r);
    if i > 0 {
      assert Matches(version, cells, i) && !Matches(Increment(version), r, i);
    } else {
      forall j | 0 <= j < |r| ensures Matches(Increment(version), r, j) { assert Matches(version, cells, j); }
    }
  }

  /** It binds the key to the new value and changes no other binding. */
  lemma {:induction false} SetValueLookup<K, V>(cells: seq<Cell<(K, V)>>, i: nat, k: K, v: V, q: K)
    requires i < |cells| && HasKey(cells[i].entries, k) && Distinct(Flat(cells))
    ensures Lookup(SetValue(cells, i, k, v), q) == if q == k then Some(v) else Lookup(cells, q)
    decreases i
  {
    var r := SetValue(cells, i, k, v);
    DistinctParts(cells[0].entries, Flat(cells[1..]));
    if i == 0 {
      assert r[1..] == cells[1..];
      PutFind(cells[0].entries, k, v, q);
      PutHas(cells[0].entries, k, v, q);
    } else {
      assert r[1..] == SetValue(cells[1..], i - 1, k, v);
      SetValueLookup(cells[1..], i - 1, k, v, q);
      OnePage(cells, i, k);
    }
  }

  lemma PutHas<K, V>(es: seq<(K, V)>, k: K, v: V, q: K)
    requires HasKey(es, k) && Distinct(es)
    ensures HasKey(Put(es, k, v), q) <==> HasKey(es, q)
  {
    FindHas(es, q);
    FindHas(Put(es, k, v), q);
    PutFind(es, k, v, q);
    FindHas(es, k);
  }

  /** A key of a later page is not on the first one. */
  lemma OnePage<K, V>(cells: seq<Cell<(K, V)>>, i: nat, k: K)
    requires 0 < i < |cells| && HasKey(cells[i].entries, k) && Distinct(Flat(cells))
    ensures !HasKey(cells[0].entries, k)
  {
    PageHas(cells[1..], i - 1, k);
    var a, b := cells[0].entries, Flat(cells[1..]);
    var y :| 0 <= y < |b| && b[y].0 == k;
    forall x | 0 <= x < |a| ensures a[x].0 != k {
      assert Flat(cells)[x] == a[x] && Flat(cells)[|a| + y] == b[y];
    }
  }

  lemma {:induction false} PageHas<K, V>(cells: seq<Cell<(K, V)>>, i: nat, k: K)
    requires i < |cells| && HasKey(cells[i].entries, k)
    ensures HasKey(Flat(cells), k)
    decreases i
  {
    if i > 0 { PageHas(cells[1..], i - 1, k); }
    HasKeyConcat(cells[0].entries, Flat(cells[1..]), k);
  }

  // --------------------------------------------- overwriting many values, in page order

  /** The entry after a walk that gives some entries a new value. */
  function NewEntry<K, V>(next: ((K, V)) -> Option<V>, e: (K, V)): (K, V) {
    match next(e) case Some(w) => (e.0, w) case None => e
  }

  function NewEntries<K, V>(next: ((K, V)) -> Option<V>, es: seq<(K, V)>): (r: seq<(K, V)>)
    ensures |r| == |es|
  {
    seq(|es|, i requires 0 <= i < |es| => NewEntry(next, es[i]))
  }

  /** How many entries get a new value. */
  function Hits<K, V>(next: ((K, V)) -> Option<V>, es: seq<(K, V)>): nat {
    if es == [] then 0 else Hits(next, es[..|es| - 1]) + if next(es[|es| - 1]).Some? then 1 else 0
  }

  /** How many entries in the pages from `i` up to `j` get a new value. */
  function HitsIn<K, V>(next: ((K, V)) -> Option<V>, cells: seq<Cell<(K, V)>>, i: nat, j: nat): nat
    requires j <= |cells|
    decreases j - i
  {
    if i >= j then 0 else Hits(next, cells[i].entries) + HitsIn(next, cells, i + 1, j)
  }

  /** Hits are counted whatever the new values. */
  lemma {:induction false} SameHits<K(!new), V(!new)>(next: ((K, V)) -> Option<V>, other: ((K, V)) -> Option<V>, es: seq<(K, V)>)
    requires forall e :: next(e).Some? <==> other(e).Some?
    ensures Hits(next, es) == Hits(other, es)
  {
    if es != [] { SameHits(next, other, es[..|es| - 1]); }
  }

  lemma {:induction false} SameHitsIn<K(!new), V(!new)>(next: ((K, V)) -> Option<V>, other: ((K, V)) -> Option<V>,
                                              cells: seq<Cell<(K, V)>>, i: nat, j: nat)
    requires i <= j <= |cells| && forall e :: next(e).Some? <==> other(e).Some?
    ensures HitsIn(next, cells, i, j) == HitsIn(other, cells, i, j)
    decreases j - i
  {
    if i < j {
      SameHits(next, other, cells[i].entries);
      SameHitsIn(next, other, cells, i + 1, j);
    }
  }

  lemma {:induction false} HitsInSnoc<K, V>(next: ((K, V)) -> Option<V>, cells: seq<Cell<(K, V)>>, i: nat, j: nat)
    requires i <= j < |cells|
    ensures HitsIn(next, cells, i, j + 1) == HitsIn(next, cells, i, j) + Hits(next, cells[j].entries)
    decreases j - i
  {
    if i < j {
      HitsInSnoc(next, cells, i + 1, j);
    } else {
      assert HitsIn(next, cells, i + 1, j + 1) == 0;
    }
  }

  /** How often page `j` has counted up when the walk stands at entry `pos` of page `d`. */
  function Ups<K, V>(next: ((K, V)) -> Option<V>, cells: seq<Cell<(K, V)>>, d: nat, pos: nat, j: nat): nat
    requires d < |cells| && pos <= |cells[d].entries|
  {
    if j > d then 0 else HitsIn(next, cells, j, d) + Hits(next, cells[d].entries[..pos])
  }

  /** Page `j` when the walk stands there. */
  function WalkedCell<K, V>(next: ((K, V)) -> Option<V>, cells: seq<Cell<(K, V)>>, d: nat, pos: nat, j: nat): Cell<(K, V)>
    requires d < |cells| && pos <= |cells[d].entries| && j < |cells|
  {
    Cell(Plus(cells[j].version, Ups(next, cells, d, pos, j)), cells[j].succVersion,
         if j < d then NewEntries(next, cells[j].entries)
         else if j == d then NewEntries(next, cells[j].entries[..pos]) + cells[j].entries[pos..]
         else cells[j].entries)
  }

  /** The chain when the walk stands there. */
  function Walked<K, V>(next: ((K, V)) -> Option<V>, cells: seq<Cell<(K, V)>>, d: nat, pos: nat): (r: seq<Cell<(K, V)>>)
    requires d < |cells| && pos <= |cells[d].entries|
    ensures |r| == |cells|
  {
    seq(|cells|, j requires 0 <= j < |cells| => WalkedCell(next, cells, d, pos, j))
  }

  /** The chain when the walk has left it: new entries, old links, each page counted up for all entries from it on. */
  function Replaced<K, V>(next: ((K, V)) -> Option<V>, cells: seq<Cell<(K, V)>>): (r: seq<Cell<(K, V)>>)
    ensures |r| == |cells|
  {
    seq(|cells|, j requires 0 <= j < |cells| =>
      Cell(Plus(cells[j].version, HitsIn(next, cells, j, |cells|)), cells[j].succVersion, NewEntries(next, cells[j].entries)))
  }

  lemma WalkStarts<K, V>(next: ((K, V)) -> Option<V>, cells: seq<Cell<(K, V)>>)
    requires cells != []
    ensures Walked(next, cells, 0, 0) == cells && Ups(next, cells, 0, 0, 0) == 0
  {
    forall j | 0 <= j < |cells| ensures WalkedCell(next, cells, 0, 0, j) == cells[j] {
      assert cells[0].entries[..0] == [];
      assert NewEntries(next, cells[0].entries[..0]) + cells[0].entries[0..] == cells[0].entries;
    }
  }

  lemma HitsAt<K, V>(next: ((K, V)) -> Option<V>, es: seq<(K, V)>, pos: nat)
    requires pos < |es|
    ensures Hits(next, es[..pos + 1]) == Hits(next, es[..pos]) + if next(es[pos]).Some? then 1 else 0
  {
    assert es[..pos + 1][..pos] == es[..pos];
  }

  /** An entry that keeps its value changes nothing. */
  lemma WalkOver<K, V>(next: ((K, V)) -> Option<V>, cells: seq<Cell<(K, V)>>, d: nat, pos: nat)
    requires d < |cells| && pos < |cells[d].entries| && next(cells[d].entries[pos]).None?
    ensures Walked(next, cells, d, pos + 1) == Walked(next, cells, d, pos)
    ensures Ups(next, cells, d, pos + 1, 0) == Ups(next, cells, d, pos, 0)
  {
    var es := cells[d].entries;
    HitsAt(next, es, pos);
    forall j | 0 <= j < |cells| ensures WalkedCell(next, cells, d, pos + 1, j) == WalkedCell(next, cells, d, pos, j) {
      assert NewEntries(next, es[..pos + 1]) + es[pos + 1..] == NewEntries(next, es[..pos]) + es[pos..];
    }
  }

  lemma StoreWalked<K, V>(next: ((K, V)) -> Option<V>, es: seq<(K, V)>, pos: nat)
    requires pos < |es| && Distinct(es) && next(es[pos]).Some?
    ensures Put(NewEntries(next, es[..pos]) + es[pos..], es[pos].0, next(es[pos]).value) ==
            NewEntries(next, es[..pos + 1]) + es[pos + 1..]
  {
    var now := NewEntries(next, es[..pos]) + es[pos..];
    assert now[pos].0 == es[pos].0;
    forall i | 0 <= i < |es| ensures now[i].0 == es[i].0 && (i != pos ==> es[i].0 != es[pos].0) {
      if i < pos { assert es[i].0 != es[pos].0; } else if i > pos { assert es[pos].0 != es[i].0; }
    }
  }

  lemma WalkStoreAt<K, V>(next: ((K, V)) -> Option<V>, cells: seq<Cell<(K, V)>>, d: nat, pos: nat, j: nat)
    requires d < |cells| && pos < |cells[d].entries| && Distinct(cells[d].entries) && j < |cells|
    requires next(cells[d].entries[pos]).Some?
    ensures var e := cells[d].entries[pos];
            WalkedCell(next, cells, d, pos + 1, j) == SetValue(Walked(next, cells, d, pos), d, e.0, next(e).value)[j]
  {
    HitsAt(next, cells[d].entries, pos);
    if j <= d { PlusOne(cells[j].version, Ups(next, cells, d, pos, j)); }
    if j == d { StoreWalked(next, cells[d].entries, pos); }
  }

  /** Giving the present entry its new value takes the walk one entry further. */
  lemma WalkStore<K, V>(next: ((K, V)) -> Option<V>, cells: seq<Cell<(K, V)>>, d: nat, pos: nat)
    requires d < |cells| && pos < |cells[d].entries| && Distinct(cells[d].entries)
    requires next(cells[d].entries[pos]).Some?
    ensures var e := cells[d].entries[pos];
            Walked(next, cells, d, pos + 1) == SetValue(Walked(next, cells, d, pos), d, e.0, next(e).value)
    ensures Ups(next, cells, d, pos + 1, 0) == Ups(next, cells, d, pos, 0) + 1
  {
    var e := cells[d].entries[pos];
    HitsAt(next, cells[d].entries, pos);
    var r := SetValue(Walked(next, cells, d, pos), d, e.0, next(e).value);
    forall j | 0 <= j < |cells| ensures Walked(next, cells, d, pos + 1)[j] == r[j] {
      WalkStoreAt(next, cells, d, pos, j);
    }
  }

  /** At the end of a page the walk stands at the start of the next one. */
  lemma WalkNextPage<K, V>(next: ((K, V)) -> Option<V>, cells: seq<Cell<(K, V)>>, d: nat)
    requires d + 1 < |cells|
    ensures Walked(next, cells, d, |cells[d].entries|) == Walked(next, cells, d + 1, 0)
    ensures Ups(next, cells, d, |cells[d].entries|, 0) == Ups(next, cells, d + 1, 0, 0)
  {
    var es := cells[d].entries;
    forall j | 0 <= j < |cells|
      ensures WalkedCell(next, cells, d, |es|, j) == WalkedCell(next, cells, d + 1, 0, j)
      ensures Ups(next, cells, d, |es|, j) == Ups(next, cells, d + 1, 0, j)
    {
      assert es[..|es|] == es && es[|es|..] == [] && cells[d + 1].entries[..0] == [];
      assert NewEntries(next, es) + [] == NewEntries(next, es);
      assert NewEntries(next, cells[d + 1].entries[..0]) + cells[d + 1].entries[0..] == cells[d + 1].entries;
      if j <= d { HitsInSnoc(next, cells, j, d); }
    }
  }

  /** At the end of the last page the walk has left the chain. */
  lemma WalkEnds<K, V>(next: ((K, V)) -> Option<V>, cells: seq<Cell<(K, V)>>, d: nat)
    requires d + 1 == |cells|
    ensures Walked(next, cells, d, |cells[d].entries|) == Replaced(next, cells)
    ensures Ups(next, cells, d, |cells[d].entries|, 0) == HitsIn(next, cells, 0, |cells|)
  {
    var es := cells[d].entries;
    forall j | 0 <= j < |cells|
      ensures WalkedCell(next, cells, d, |es|, j) == Replaced(next, cells)[j]
      ensures Ups(next, cells, d, |es|, j) == HitsIn(next, cells, j, |cells|)
    {
      assert es[..|es|] == es && es[|es|..] == [];
      assert NewEntries(next, es) + [] == NewEntries(next, es);
      HitsInSnoc(next, cells, j, d);
    }
  }

  /** The values overwritten from page `i` on are a multiple of the version range, or `i` is the first page. */
  predicate WholeRange<K, V>(next: ((K, V)) -> Option<V>, cells: seq<Cell<(K, V)>>, i: nat) {
    i == 0 || HitsIn(next, cells, i, |cells|) % MAX_VALUE == 0
  }

  lemma ReplacedMatchesIff<K, V>(next: ((K, V)) -> Option<V>, version: Version, cells: seq<Cell<(K, V)>>, i: nat)
    requires i < |cells| && Matches(version, cells, i)
    ensures Matches(Plus(version, HitsIn(next, cells, 0, |cells|)), Replaced(next, cells), i) <==> WholeRange(next, cells, i)
  {
    var w, r := Plus(version, HitsIn(next, cells, 0, |cells|)), Replaced(next, cells);
    assert r[i].version == Plus(cells[i].version, HitsIn(next, cells, i, |cells|));
    if i == 0 {
      assert Expected(w, r, i) == w;
    } else {
      assert Expected(w, r, i) == cells[i - 1].succVersion;
      PlusSameIff(cells[i].version, HitsIn(next, cells, i, |cells|));
    }
  }

  /**
   After a walk that overwrites values, a linked chain is linked if and only if, for every page but
   the first, the number of values overwritten from it on is a multiple of the version range.
   */
  lemma ReplacedLinkedIff<K, V>(next: ((K, V)) -> Option<V>, version: Version, cells: seq<Cell<(K, V)>>)
    requires Linked(version, cells)
    ensures Linked(Plus(version, HitsIn(next, cells, 0, |cells|)), Replaced(next, cells)) <==>
            forall i | 0 <= i < |cells| :: WholeRange(next, cells, i)
  {
    var w, r := Plus(version, HitsIn(next, cells, 0, |cells|)), Replaced(next, cells);
    LinkedIff(version, cells);
    LinkedIff(w, r);
    forall i | 0 <= i < |cells| ensures Matches(w, r, i) <==> WholeRange(next, cells, i) {
      assert Matches(version, cells, i);
      ReplacedMatchesIff(next, version, cells, i);
    }
    assert EndsInZero(w, r);
  }

  lemma NewEntriesConcat<K, V>(next: ((K, V)) -> Option<V>, a: seq<(K, V)>, b: seq<(K, V)>)
    ensures NewEntries(next, a + b) == NewEntries(next, a) + NewEntries(next, b)
  {
  }

  lemma {:induction false} ReplacedFlat<K, V>(next: ((K, V)) -> Option<V>, cells: seq<Cell<(K, V)>>, r: seq<Cell<(K, V)>>)
    requires |r| == |cells| && forall j | 0 <= j < |r| :: r[j].entries == NewEntries(next, cells[j].entries)
    ensures Flat(r) == NewEntries(next, Flat(cells))
    decreases |cells|
  {
    if cells != [] {
      assert r[0].entries == NewEntries(next, cells[0].entries);
      ReplacedFlat(next, cells[1..], r[1..]);
      NewEntriesConcat(next, cells[0].entries, Flat(cells[1..]));
    }
  }

  /** Every key keeps its place; the value is the new one where there is one. */
  lemma {:induction false} NewEntriesFind<K, V>(next: ((K, V)) -> Option<V>, es: seq<(K, V)>, k: K)
    ensures Find(NewEntries(next, es), k) ==
            match Find(es, k) case None => None case Some(v) => Some(NewEntry(next, (k, v)).1)
  {
    if es != [] {
      NewEntriesFind(next, es[1..], k);
      assert NewEntries(next, es)[1..] == NewEntries(next, es[1..]);
    }
  }

  /** What a key is bound to after the walk. */
  lemma ReplacedLookup<K, V>(next: ((K, V)) -> Option<V>, cells: seq<Cell<(K, V)>>, k: K)
    ensures Lookup(Replaced(next, cells), k) ==
            match Lookup(cells, k) case None => None case Some(v) => Some(NewEntry(next, (k, v)).1)
  {
    LookupIsFind(cells, k);
    LookupIsFind(Replaced(next, cells), k);
    ReplacedFlat(next, cells, Replaced(next, cells));
    NewEntriesFind(next, Flat(cells), k);
  }
}
