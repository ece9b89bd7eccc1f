/**
 The images a page of a chain has had.  Most changes count the page's version up; clearing a
 multi-map empties its pages and leaves their versions alone.
 */
module PageImages {
  import opened VersionNumber
  import opened PageChain

  /** What is stored of a page: its cell, and whether it has no successor. */
  datatype Image<E> = Image(cell: Cell<E>, last: bool)

  /** The image of page `i` of a chain; a page is made empty, before it is linked. */
  function ImageAt<E>(cells: seq<Cell<E>>, i: nat): Image<E> {
    if i < |cells| then Image(cells[i], i + 1 == |cells|) else Image(EmptyCell(), true)
  }

  function Emptied<E>(x: Image<E>): Image<E> {
    x.(cell := x.cell.(entries := []))
  }

  /** One change: the page stays, or counts its version up, or loses its entries. */
  ghost predicate PageStep<E>(x: Image<E>, y: Image<E>) {
    y == x || y.cell.version == Increment(x.cell.version) || y == Emptied(x)
  }

  /** One change of a chain: pages are added at its end and never taken away. */
  ghost predicate ChainSteps<E>(a: seq<Cell<E>>, b: seq<Cell<E>>) {
    |a| <= |b| && forall i: nat {:trigger ImageAt(b, i)} :: PageStep(ImageAt(a, i), ImageAt(b, i))
  }

  /** The chains a bucket has had, oldest first. */
  ghost predicate ChainRun<E>(h: seq<seq<Cell<E>>>) {
    h != [] && forall n {:trigger h[n + 1]} | 0 <= n < |h| - 1 :: ChainSteps(h[n], h[n + 1])
  }

  ghost function Present<E>(h: seq<seq<Cell<E>>>): seq<Cell<E>>
    requires h != []
  {
    h[|h| - 1]
  }

  /** How often page `i` has counted its version up since chain `n`. */
  ghost function Ups<E>(h: seq<seq<Cell<E>>>, i: nat, n: nat): nat
    decreases |h| - n
  {
    if n + 1 >= |h| then 0
    else (if ImageAt(h[n], i).cell.version == ImageAt(h[n + 1], i).cell.version then 0 else 1) + Ups(h, i, n + 1)
  }

  lemma {:induction false} UpsCount<E>(h: seq<seq<Cell<E>>>, i: nat, n: nat)
    requires ChainRun(h) && n < |h|
    ensures ImageAt(Present(h), i).cell.version == Plus(ImageAt(h[n], i).cell.version, Ups(h, i, n))
    ensures Ups(h, i, n) == 0 ==> ImageAt(Present(h), i) in {ImageAt(h[n], i), Emptied(ImageAt(h[n], i))}
    decreases |h| - n
  {
    var v := ImageAt(h[n], i).cell.version;
    if n + 1 < |h| {
      UpsCount(h, i, n + 1);
      assert ChainSteps(h[n], h[n + 1]);
      assert PageStep(ImageAt(h[n], i), ImageAt(h[n + 1], i));
      UpThenMore(v, Ups(h, i, n + 1));
    }
  }

  lemma UpThenMore(v: Version, n: nat)
    ensures Plus(Increment(v), n) == Plus(v, n + 1) && Plus(v, 0) == v
  {
  }

  /** The version check passes exactly if the page has counted up a whole number of version ranges since. */
  lemma CheckPassesIff<E>(h: seq<seq<Cell<E>>>, i: nat, n: nat)
    requires ChainRun(h) && n < |h|
    ensures ImageAt(h[n], i).cell.version == ImageAt(Present(h), i).cell.version <==> Ups(h, i, n) % MAX_VALUE == 0
  {
    UpsCount(h, i, n);
    PlusSameIff(ImageAt(h[n], i).cell.version, Ups(h, i, n));
  }

  /** The page is given as an image it has or had, fewer than 65535 versions old. */
  ghost predicate IsRecent<E>(h: seq<seq<Cell<E>>>, i: nat, x: Image<E>) {
    exists n: nat {:trigger Ups(h, i, n)} | n < |h| :: x == ImageAt(h[n], i) && Ups(h, i, n) < MAX_VALUE
  }

  /**
   A recent image passes the check exactly if it is the present page, or the present page is that
   image emptied by a `clear`.
   */
  lemma RecentPassesIff<E>(h: seq<seq<Cell<E>>>, i: nat, x: Image<E>)
    requires ChainRun(h) && IsRecent(h, i, x)
    ensures var now := ImageAt(Present(h), i);
            x.cell.version == now.cell.version <==> now == x || now == Emptied(x)
  {
    var n: nat :| n < |h| && x == ImageAt(h[n], i) && Ups(h, i, n) < MAX_VALUE;
    CheckPassesIff(h, i, n);
    UpsCount(h, i, n);
  }

  // ------------------------------------------------------- following a chain of images

  /** What a reader checks that follows the images as far as they lead. */
  predicate Pass<E>(v: Version, images: seq<Image<E>>)
    decreases |images|
  {
    images == [] || (images[0].cell.version == v && (images[0].last || Pass(images[0].cell.succVersion, images[1..])))
  }

  /** The cells the reader gets to. */
  function CellsRead<E>(images: seq<Image<E>>): seq<Cell<E>> {
    if images == [] then []
    else [images[0].cell] + if images[0].last then [] else CellsRead(images[1..])
  }

  ghost predicate AllRecent<E>(h: seq<seq<Cell<E>>>, images: seq<Image<E>>) {
    && h != [] && |images| == |Present(h)|
    && forall i | 0 <= i < |images| :: IsRecent(h, i, images[i])
  }

  /** The present page, or from before the `clear` that emptied it. */
  ghost predicate PresentOrCleared<E>(cells: seq<Cell<E>>, images: seq<Image<E>>, i: nat)
    requires i < |images|
  {
    ImageAt(cells, i) == images[i] || ImageAt(cells, i) == Emptied(images[i])
  }

  ghost predicate AllPresentOrCleared<E>(cells: seq<Cell<E>>, images: seq<Image<E>>, from: nat) {
    forall i {:trigger PresentOrCleared(cells, images, i)} | from <= i < |images| :: PresentOrCleared(cells, images, i)
  }

  lemma {:induction false} PassIffFrom<E>(h: seq<seq<Cell<E>>>, v: Version, images: seq<Image<E>>, from: nat)
    requires ChainRun(h) && AllRecent(h, images) && from <= |images|
    requires forall i | 0 <= i < |images| :: Matches(v, Present(h), i)
    ensures Pass(Expected(v, Present(h), from), images[from..]) <==> AllPresentOrCleared(Present(h), images, from)
    ensures AllPresentOrCleared(Present(h), images, from) ==> CellsRead(images[from..]) == Shown(images, from)
    decreases |images| - from
  {
    if from < |images| {
      var cells, x := Present(h), images[from];
      assert images[from..][0] == x && images[from..][1..] == images[from + 1..];
      assert Matches(v, cells, from);
      RecentPassesIff(h, from, x);
      PassIffFrom(h, v, images, from + 1);
      if x.cell.version == cells[from].version {
        assert x.last <==> from + 1 == |images|;
        assert x.cell.succVersion == Expected(v, cells, from + 1);
        assert PresentOrCleared(cells, images, from);
      } else {
        assert !PresentOrCleared(cells, images, from);
      }
    }
  }

  /** The cells of the images from `from` on. */
  function Shown<E>(images: seq<Image<E>>, from: nat): seq<Cell<E>>
    decreases |images| - from
  {
    if from >= |images| then [] else [images[from].cell] + Shown(images, from + 1)
  }

  /**
   Of a linked chain and recent images, the reader gets through exactly if every image is the
   present page or is from before the `clear` that emptied it, and then it reads all of them.
   */
  lemma RecentImagesPassIff<E>(h: seq<seq<Cell<E>>>, v: Version, images: seq<Image<E>>)
    requires ChainRun(h) && AllRecent(h, images) && Linked(v, Present(h))
    ensures Pass(v, images) <==> AllPresentOrCleared(Present(h), images, 0)
    ensures Pass(v, images) ==> CellsRead(images) == Shown(images, 0)
  {
    LinkedIff(v, Present(h));
    PassIffFrom(h, v, images, 0);
    assert images[0..] == images;
  }

  // ---------------------------------------------------------------------- a run, step by step

  lemma Stays<E>(a: seq<Cell<E>>)
    ensures ChainSteps(a, a)
  {
  }

  /** Behind a first page that makes a step, the rest makes one. */
  lemma StepsCons<E>(a: seq<Cell<E>>, b: seq<Cell<E>>)
    requires a != [] && b != [] && ChainSteps(a[1..], b[1..])
    requires PageStep(ImageAt(a, 0), ImageAt(b, 0))
    ensures ChainSteps(a, b)
  {
    forall i: nat ensures PageStep(ImageAt(a, i), ImageAt(b, i)) {
      if i > 0 {
        assert ImageAt(a, i) == ImageAt(a[1..], i - 1) && ImageAt(b, i) == ImageAt(b[1..], i - 1);
      }
    }
  }

  /** Stopping half-way is a step, too. */
  lemma AbandonedSteps<E>(cells: seq<Cell<E>>, i: nat)
    requires i < |cells|
    ensures ChainSteps(cells, Abandoned(cells, i))
  {
    var r := Abandoned(cells, i);
    forall j: nat ensures PageStep(ImageAt(cells, j), ImageAt(r, j)) {}
  }
}
