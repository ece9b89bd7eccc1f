/**
 The readers/writer lock of a shard, as its header describes it: any number of
 readers or one writer, and the non-blocking calls.
 */
module RWLock {

  datatype Mode = Read | Write
  datatype Lock = Free | Readers(n: nat) | Writer

  predicate Available(l: Lock, m: Mode) {
    l.Free? || (l.Readers? && m.Read?)
  }

  function Grab(l: Lock, m: Mode): Lock
    requires Available(l, m)
  {
    if m.Write? then Writer else if l.Free? then Readers(1) else Readers(l.n + 1)
  }

  /** Give one hold back; the guard keeps the function total. */
  function Drop(l: Lock): Lock {
    if l.Readers? && l.n > 1 then Readers(l.n - 1) else Free
  }

  /** `l` is the state of a lock held by exactly the holders of `h`, each in its own mode. */
  ghost predicate Agrees<T>(l: Lock, h: map<T, Mode>) {
    match l
    case Free => h == map[]
    case Readers(n) => n > 0 && |h| == n && forall t | t in h :: h[t].Read?
    case Writer => |h| == 1 && forall t | t in h :: h[t].Write?
  }

  /** A lock can be taken for reading exactly if nobody writes, and for writing exactly if nobody holds it. */
  lemma AvailableIff<T>(l: Lock, h: map<T, Mode>, m: Mode)
    requires Agrees(l, h)
    ensures Available(l, m) <==> if m == Read then forall t | t in h :: h[t] == Read else h == map[]
  {
    if l.Readers? || l.Writer? {
      assert h != map[];
      var t :| t in h;
    }
  }

  /** A writer excludes every other holder. */
  lemma WriterIsAlone<T>(l: Lock, h: map<T, Mode>, t: T, u: T)
    requires Agrees(l, h) && t in h && u in h && h[t].Write?
    ensures t == u
  {
    assert l.Writer?;
    assert |h.Keys - {t}| == 0;
    assert u !in h.Keys - {t};
  }

  /** Taking an available lock keeps the lock in step with its holders. */
  lemma GrabAgrees<T>(l: Lock, h: map<T, Mode>, t: T, m: Mode)
    requires Agrees(l, h) && t !in h && Available(l, m)
    ensures Agrees(Grab(l, m), h[t := m])
  {
    assert h[t := m].Keys == h.Keys + {t};
    assert |h[t := m].Keys| == |h.Keys| + 1;
  }

  /** Giving a hold back keeps the lock in step with its holders. */
  lemma DropAgrees<T>(l: Lock, h: map<T, Mode>, t: T)
    requires Agrees(l, h) && t in h
    ensures Agrees(Drop(l), h - {t})
  {
    assert (h - {t}).Keys == h.Keys - {t};
    assert |(h - {t}).Keys| == |h.Keys| - 1;
    if |h| == 1 { assert h - {t} == map[]; }
  }
}
