/**
 The page cache: pin counts, dirty flags, the list of pages that may go, and a size budget.
 Whatever it loads, writes back or throws out, the pages look the same.
 */
module BufferCache {
  import opened EventLog

  type PageNo = nat
  type Bytes = seq<bv8>

  /** A loaded page; `size` is what was last recorded for it. */
  datatype Meta = Meta(page: Bytes, dirty: bool, size: nat, pins: nat)

  type Metas = map<PageNo, Meta>
  type Disk = map<PageNo, Bytes>

  /** What a reader of the page gets: the cached page if it is loaded, what is on disk otherwise. */
  function Look(metas: Metas, disk: Disk, p: PageNo): Option<Bytes> {
    if p in metas then Some(metas[p].page) else if p in disk then Some(disk[p]) else None
  }

  // ------------------------------------------------------------------------ sizes

  /** The recorded size of all loaded pages, each with its bookkeeping. */
  ghost function Total(overhead: nat, metas: Metas): nat {
    if metas == map[] then 0
    else
      var p :| p in metas;
      overhead + metas[p].size + Total(overhead, metas - {p})
  }

  lemma {:induction false} TotalSplit(overhead: nat, metas: Metas, p: PageNo)
    requires p in metas
    ensures Total(overhead, metas) == overhead + metas[p].size + Total(overhead, metas - {p})
    decreases |metas|
  {
    var q :| q in metas && Total(overhead, metas) == overhead + metas[q].size + Total(overhead, metas - {q});
    if q != p {
      TotalSplit(overhead, metas - {q}, p);
      TotalSplit(overhead, metas - {p}, q);
      assert metas - {q} - {p} == metas - {p} - {q};
    }
  }

  lemma TotalWith(overhead: nat, metas: Metas, p: PageNo, m: Meta)
    ensures Total(overhead, metas[p := m]) == Total(overhead, metas - {p}) + overhead + m.size
    ensures p in metas ==> Total(overhead, metas) == Total(overhead, metas - {p}) + overhead + metas[p].size
    ensures p !in metas ==> metas - {p} == metas
  {
    TotalSplit(overhead, metas[p := m], p);
    assert metas[p := m] - {p} == metas - {p};
    if p in metas { TotalSplit(overhead, metas, p); }
  }

  /** Fewer pages take no more room. */
  lemma {:induction false} TotalOfFewer(overhead: nat, fewer: Metas, metas: Metas)
    requires fewer.Keys <= metas.Keys && forall p | p in fewer :: fewer[p] == metas[p]
    ensures Total(overhead, fewer) <= Total(overhead, metas)
    decreases |metas|
  {
    if p :| p in metas {
      TotalSplit(overhead, metas, p);
      if p in fewer {
        TotalSplit(overhead, fewer, p);
        TotalOfFewer(overhead, fewer - {p}, metas - {p});
      } else {
        TotalOfFewer(overhead, fewer, metas - {p});
      }
    } else {
      assert fewer == map[];
    }
  }

  /** The pages that cannot go. */
  ghost function Pinned(metas: Metas): Metas {
    map p | p in metas && metas[p].pins > 0 :: metas[p]
  }

  /** Four fifths of the budget. */
  function Expected(budget: nat): int {
    (0.8 * budget as real).Floor
  }

  /** Room is left, or can be made by letting all pages without pins go. */
  ghost predicate RoomCanBeMade(overhead: nat, budget: nat, metas: Metas) {
    Total(overhead, metas) < budget || 5 * Total(overhead, Pinned(metas)) <= 4 * budget
  }

  lemma FourFifths(budget: nat, n: nat)
    ensures n <= Expected(budget) <==> 5 * n <= 4 * budget
  {
    var x := 0.8 * budget as real;
    assert 5.0 * x == 4.0 * budget as real;
    if n <= x.Floor { assert n as real <= x; }
    if 5 * n <= 4 * budget { assert 5.0 * n as real <= 4.0 * budget as real; }
  }

  lemma AllFourFifths(budget: nat)
    ensures forall n: nat :: n <= Expected(budget) <==> 5 * n <= 4 * budget
  {
    forall n: nat ensures n <= Expected(budget) <==> 5 * n <= 4 * budget { FourFifths(budget, n); }
  }

  // -------------------------------------------------------------------- invariants

  /** A page that is not dirty is on disk as it is. */
  ghost predicate Backed(metas: Metas, disk: Disk) {
    forall p | p in metas && !metas[p].dirty :: p in disk && disk[p] == metas[p].page
  }

  /** The list names each loaded page without pins once, and nothing else. */
  ghost predicate Listed(metas: Metas, evict: seq<PageNo>) {
    && (forall p :: p in evict <==> p in metas && metas[p].pins == 0)
    && (forall i, j | 0 <= i < j < |evict| :: evict[i] != evict[j])
  }

  lemma ListWithout(metas: Metas, evict: seq<PageNo>, i: nat, metas': Metas)
    requires Listed(metas, evict) && i < |evict|
    requires forall p | p != evict[i] :: (p in metas' <==> p in metas) && (p in metas ==> metas'[p].pins == metas[p].pins)
    requires evict[i] in metas' ==> metas'[evict[i]].pins > 0
    ensures Listed(metas', evict[..i] + evict[i + 1..])
  {
    var rest := evict[..i] + evict[i + 1..];
    forall p ensures p in rest <==> p in evict && p != evict[i] {
      if p in evict && p != evict[i] {
        var j :| 0 <= j < |evict| && evict[j] == p;
        assert rest[if j < i then j else j - 1] == p;
      }
    }
  }

  lemma ListWith(metas: Metas, evict: seq<PageNo>, p: PageNo, metas': Metas)
    requires Listed(metas, evict) && p !in evict
    requires forall q | q != p :: (q in metas' <==> q in metas) && (q in metas ==> metas'[q].pins == metas[q].pins)
    requires p in metas' && metas'[p].pins == 0
    ensures Listed(metas', [p] + evict)
  {
    forall q ensures q in [p] + evict <==> q == p || q in evict {
      if q in evict { assert ([p] + evict)[1..] == evict; }
    }
  }

  lemma FirstIsIn(evict: seq<PageNo>)
    requires evict != []
    ensures evict[0] in evict
  {
  }

  lemma NothingListed(metas: Metas, evict: seq<PageNo>)
    requires Listed(metas, evict) && forall p | p in metas :: metas[p].pins > 0
    ensures evict == []
  {
    if evict != [] { FirstIsIn(evict); }
  }

  /** The position of a page in the list. */
  function IndexOf(evict: seq<PageNo>, p: PageNo): (i: nat)
    requires p in evict
    ensures i < |evict| && evict[i] == p
  {
    if evict[0] == p then 0 else 1 + IndexOf(evict[1..], p)
  }

  /** The list without a page, the others in their order. */
  function Without(evict: seq<PageNo>, p: PageNo): seq<PageNo> {
    if evict == [] then [] else (if evict[0] == p then [] else [evict[0]]) + Without(evict[1..], p)
  }

  lemma {:induction false} WithoutAbsent(evict: seq<PageNo>, p: PageNo)
    requires p !in evict
    ensures Without(evict, p) == evict
  {
    if evict != [] { WithoutAbsent(evict[1..], p); }
  }

  lemma {:induction false} WithoutIs(evict: seq<PageNo>, p: PageNo, i: nat)
    requires i < |evict| && evict[i] == p && forall j | 0 <= j < |evict| && j != i :: evict[j] != p
    ensures Without(evict, p) == evict[..i] + evict[i + 1..]
    decreases i
  {
    if i == 0 {
      WithoutAbsent(evict[1..], p);
    } else {
      WithoutIs(evict[1..], p, i - 1);
      assert evict[1..][..i - 1] == evict[1..i] && evict[1..][i..] == evict[i + 1..];
    }
  }

  /** The page as it is once it has been written back. */
  function Flushed(m: Meta): Meta {
    m.(dirty := false)
  }

  /** The pages of the list from place `n` on. */
  ghost function Gone(evict: seq<PageNo>, n: nat): set<PageNo>
    requires n <= |evict|
  {
    set q | q in evict[n..]
  }

  /** Pages that have gone from the end of the list had no pins. */
  lemma StillPinned(before: Metas, metas: Metas, evict: seq<PageNo>, n: nat)
    requires Listed(before, evict) && n <= |evict| && metas == before - Gone(evict, n)
    ensures Pinned(before).Keys <= metas.Keys && forall p | p in Pinned(before) :: Pinned(before)[p] == metas[p]
  {
    forall p | p in Pinned(before) ensures p in metas {
      if p in evict[n..] { assert p in evict; }
    }
  }

  /** When the whole list has gone, only pinned pages are left. */
  lemma NothingElse(before: Metas, metas: Metas, evict: seq<PageNo>)
    requires Listed(before, evict) && metas == before - Gone(evict, 0)
    ensures metas == Pinned(before)
  {
    assert evict[0..] == evict;
  }

  lemma GoneNext(before: Metas, metas: Metas, evict: seq<PageNo>, n: nat)
    requires n < |evict| && metas == before - Gone(evict, n + 1)
    ensures metas - {evict[n]} == before - Gone(evict, n)
  {
    assert evict[n..] == [evict[n]] + evict[n + 1..];
  }

  class Cache {
    const budget: nat
    const overhead: nat
    var metas: Metas
    var evict: seq<PageNo>        // most recently unpinned first
    var loadedSize: int
    var disk: Disk

    ghost predicate Valid()
      reads this
    {
      && Backed(metas, disk) && Listed(metas, evict)
      && loadedSize == Total(overhead, metas)
    }

    ghost function View(p: PageNo): Option<Bytes>
      reads this
    {
      Look(metas, disk, p)
    }

    constructor (budget: nat, overhead: nat, disk: Disk)
      ensures Valid() && this.budget == budget && this.overhead == overhead && metas == map[] && this.disk == disk
    {
      this.budget, this.overhead, this.disk := budget, overhead, disk;
      metas, evict, loadedSize := map[], [], 0;
    }

    /** `flush_page`: the page is on disk afterwards, and looks as before. */
    method FlushPage(p: PageNo)
      requires Valid() && p in metas
      modifies this
      ensures Valid() && evict == old(evict) && loadedSize == old(loadedSize)
      ensures metas == old(metas)[p := Flushed(old(metas)[p])]
      ensures disk == if old(metas)[p].dirty then old(disk)[p := metas[p].page] else old(disk)
      ensures forall q :: View(q) == old(View(q))
    {
      TotalWith(overhead, metas, p, Flushed(metas[p]));
      if metas[p].dirty {
        disk := disk[p := metas[p].page];
      }
      metas := metas[p := Flushed(metas[p])];
    }

    /** Take a page off the list and unload it, writing it back first if need be. */
    method UnloadPage(p: PageNo, ghost i: nat)
      requires Valid() && p in metas && metas[p].pins == 0 && i < |evict| && evict[i] == p
      modifies this
      ensures Valid() && metas == old(metas) - {p} && evict == old(evict)[..i] + old(evict)[i + 1..]
      ensures loadedSize == old(loadedSize) - overhead - old(metas)[p].size
      ensures forall q :: View(q) == old(View(q))
    {
      TotalSplit(overhead, metas, p);
      ListWithout(metas, evict, i, metas - {p});
      if metas[p].dirty {
        disk := disk[p := metas[p].page];
      }
      loadedSize := loadedSize - overhead - metas[p].size;
      var k := IndexOf(evict, p);
      metas, evict := metas - {p}, evict[..k] + evict[k + 1..];
    }

    /**
     `check_evict`: nothing to do below the budget; otherwise pages go, least recently unpinned
     first, until at most four fifths are taken and no longer, or until only pinned pages are left
     and the caller has to wait.  No page looks different, and no pinned page goes.
     */
    method CheckEvict() returns (done: bool)
      requires Valid()
      modifies this
      ensures Valid()
      ensures forall q :: View(q) == old(View(q))
      ensures |evict| <= |old(evict)| && evict == old(evict)[..|evict|]
      ensures metas == old(metas) - Gone(old(evict), |evict|)
      ensures old(loadedSize) < budget ==> done && metas == old(metas) && evict == old(evict) && disk == old(disk)
      ensures old(loadedSize) >= budget && done ==> 5 * loadedSize <= 4 * budget
      ensures |evict| < |old(evict)| ==>
                var last := old(evict)[|evict|];
                last in old(metas) && 5 * (loadedSize + overhead + old(metas)[last].size) > 4 * budget
      ensures done <==> old(RoomCanBeMade(overhead, budget, metas))
      ensures !done ==> evict == []
    {
      if loadedSize < budget {
        assert old(evict)[|evict|..] == [];
        return true;
      }
      var expected := Expected(budget);
      ghost var before := metas;
      assert old(evict)[|evict|..] == [];
      while loadedSize > expected
        invariant Valid()
        invariant forall q :: View(q) == old(View(q))
        invariant |evict| <= |old(evict)| && evict == old(evict)[..|evict|]
        invariant metas == before - Gone(old(evict), |evict|)
        invariant |evict| < |old(evict)| ==>
                    old(evict)[|evict|] in before && loadedSize + overhead + before[old(evict)[|evict|]].size > expected
        decreases |evict|
      {
        if evict == [] {
          StillPinned(before, metas, old(evict), 0);
          NothingElse(before, metas, old(evict));
          AllFourFifths(budget);
          return false;
        }
        var n := |evict| - 1;
        assert evict[n] in evict;
        GoneNext(before, metas, old(evict), n);
        UnloadPage(evict[n], n);
        assert evict == old(evict)[..n];
      }
      done := true;
      StillPinned(before, metas, old(evict), |evict|);
      TotalOfFewer(overhead, Pinned(before), metas);
      AllFourFifths(budget);
    }

    /** `pin_page`: a pinned page is not on the list. */
    method PinPage(p: PageNo)
      requires Valid() && p in metas
      modifies this
      ensures Valid() && disk == old(disk) && loadedSize == old(loadedSize)
      ensures metas == old(metas)[p := old(metas)[p].(pins := old(metas)[p].pins + 1)]
      ensures evict == Without(old(evict), p)
    {
      var m := metas[p].(pins := metas[p].pins + 1);
      TotalWith(overhead, metas, p, m);
      if metas[p].pins == 0 {
        var i := IndexOf(evict, p);
        ListWithout(metas, evict, i, metas[p := m]);
        WithoutIs(evict, p, i);
        evict := evict[..i] + evict[i + 1..];
      } else {
        WithoutAbsent(evict, p);
      }
      metas := metas[p := m];
    }

    /** `unpin_page`: with its last pin gone, the page becomes the first of the list. */
    method UnpinPage(p: PageNo)
      requires Valid() && p in metas && metas[p].pins > 0
      modifies this
      ensures Valid() && disk == old(disk) && loadedSize == old(loadedSize)
      ensures metas == old(metas)[p := old(metas)[p].(pins := old(metas)[p].pins - 1)]
      ensures evict == if metas[p].pins == 0 then [p] + old(evict) else old(evict)
    {
      var m := metas[p].(pins := metas[p].pins - 1);
      TotalWith(overhead, metas, p, m);
      if m.pins == 0 {
        ListWith(metas, evict, p, metas[p := m]);
        evict := [p] + evict;
      }
      metas := metas[p := m];
    }

    /** A holder of the page edits it and calls `mark_page_dirty`, which records the new size. */
    method Edit(p: PageNo, page: Bytes)
      requires Valid() && p in metas && metas[p].pins > 0
      modifies this
      ensures Valid() && disk == old(disk) && evict == old(evict)
      ensures metas == old(metas)[p := Meta(page, true, |page|, old(metas)[p].pins)]
      ensures forall q :: View(q) == if q == p then Some(page) else old(View(q))
    {
      var m := Meta(page, true, |page|, metas[p].pins);
      TotalWith(overhead, metas, p, m);
      loadedSize := loadedSize - metas[p].size + |page|;
      metas := metas[p := m];
    }

    /** Put a page into the cache with its first pin on it. */
    method Load(p: PageNo, page: Bytes, dirty: bool)
      requires Valid() && p !in metas && (!dirty ==> p in disk && disk[p] == page)
      modifies this
      ensures Valid() && disk == old(disk) && evict == old(evict)
      ensures metas == old(metas)[p := Meta(page, dirty, |page|, 1)]
    {
      var m := Meta(page, dirty, |page|, 1);
      TotalWith(overhead, metas, p, m);
      loadedSize := loadedSize + overhead + |page|;
      metas := metas[p := m];
    }

    /**
     `get_page`: the page with one pin more, and no page looks different.  A page that is not loaded
     is loaded if it is asked for, is on disk and room can be made; otherwise the answer is `None`.
     */
    method GetPage(p: PageNo, load: bool) returns (r: Option<Bytes>)
      requires Valid()
      modifies this
      ensures Valid()
      ensures forall q :: View(q) == old(View(q))
      ensures r.Some? ==> r == old(View(p))
      ensures r.Some? <==> p in old(metas) || (load && p in old(disk) && old(RoomCanBeMade(overhead, budget, metas)))
      ensures p in old(metas) ==>
                && metas == old(metas)[p := old(metas)[p].(pins := old(metas)[p].pins + 1)]
                && evict == Without(old(evict), p) && disk == old(disk)
      ensures p !in old(metas) && r.Some? ==> p in metas && metas[p] == Meta(r.value, false, |r.value|, 1)
      ensures p !in old(metas) && !load ==> metas == old(metas) && evict == old(evict) && disk == old(disk)
      ensures forall q | q in metas && q != p :: q in old(metas) && metas[q] == old(metas)[q]
      ensures forall q | q in old(metas) && old(metas)[q].pins > 0 && q != p :: q in metas
    {
      if p !in metas {
        if !load {
          return None;
        }
        ghost var before := metas;
        var done := CheckEvict();
        StillPinned(before, metas, old(evict), |evict|);
        assert forall q | q in before && before[q].pins > 0 :: q in Pinned(before);
        if !done || p !in disk {
          assert View(p) == old(View(p));
          return None;
        }
        assert View(p) == old(View(p));
        Load(p, disk[p], false);
        r := Some(disk[p]);
      } else {
        PinPage(p);
        r := Some(metas[p].page);
      }
    }

    /** `new_page`, under a page number never used before: it is made exactly if room can be. */
    method NewPage(p: PageNo, page: Bytes) returns (done: bool)
      requires Valid() && p !in metas && p !in disk
      modifies this
      ensures Valid()
      ensures forall q :: View(q) == if done && q == p then Some(page) else old(View(q))
      ensures done <==> old(RoomCanBeMade(overhead, budget, metas))
      ensures done ==> p in metas && metas[p] == Meta(page, true, |page|, 1)
      ensures forall q | q in metas && q != p :: q in old(metas) && metas[q] == old(metas)[q]
      ensures forall q | q in old(metas) && old(metas)[q].pins > 0 :: q in metas
    {
      ghost var before := metas;
      done := CheckEvict();
      StillPinned(before, metas, old(evict), |evict|);
      assert forall q | q in before && before[q].pins > 0 :: q in Pinned(before);
      if done {
        assert p !in metas;
        assert View(p) == old(View(p));
        Load(p, page, true);
      }
    }

    /** `clear_cache`: only pinned pages stay, and no page looks different. */
    method ClearCache()
      requires Valid()
      modifies this
      ensures Valid() && evict == []
      ensures forall q :: View(q) == old(View(q))
      ensures metas == map q | q in old(metas) && old(metas)[q].pins > 0 :: old(metas)[q]
    {
      var todo := metas.Keys;
      while todo != {}
        invariant Valid() && forall q :: View(q) == old(View(q))
        invariant metas.Keys <= old(metas).Keys && forall q | q in metas :: metas[q] == old(metas)[q]
        invariant forall q | q in old(metas) && (q in todo || old(metas)[q].pins > 0) :: q in metas
        invariant forall q | q in metas :: q in todo || metas[q].pins > 0
        decreases |todo|
      {
        var p :| p in todo;
        if p in metas && metas[p].pins == 0 {
          UnloadPage(p, IndexOf(evict, p));
        }
        todo := todo - {p};
      }
      NothingListed(metas, evict);
    }
  }
}
