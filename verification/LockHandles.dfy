/**
 Nested lock handles: who has asked for a shard through whom, and what that makes of the
 shard's physical lock.
 */
module LockHandles {
  import opened EventLog
  import opened RWLock

  const COUNT_SPACE: nat := 65536      // the counts are 16-bit

  type Id = nat

  /** Handles are made after their parents; `nonblocking` are those made with the flag. */
  datatype Tree_ = Tree(parents: map<Id, Option<Id>>, nonblocking: set<Id>)
  type Tree = t: Tree_ | forall h | h in t.parents && t.parents[h].Some? ::
      t.parents[h].value < h && t.parents[h].value in t.parents
    witness Tree(map[], {})

  datatype Counts = Counts(readers: nat, writers: nat)

  /** One shard: its lock, and the entry for it in every handle that has one. */
  datatype Hold = Hold(lock: Lock, counts: map<Id, Counts>)

  function Inc(c: Counts, m: Mode): Counts {
    if m.Write? then c.(writers := (c.writers + 1) % COUNT_SPACE) else c.(readers := (c.readers + 1) % COUNT_SPACE)
  }

  function Dec(c: Counts, m: Mode): Counts {
    if m.Write? then c.(writers := (c.writers + COUNT_SPACE - 1) % COUNT_SPACE)
    else c.(readers := (c.readers + COUNT_SPACE - 1) % COUNT_SPACE)
  }

  function CountIn(c: Counts, m: Mode): nat {
    if m.Write? then c.writers else c.readers
  }

  function Amount(counts: map<Id, Counts>, h: Id): Counts {
    if h in counts then counts[h] else Counts(0, 0)
  }

  function ModeOf(c: Counts): Mode {
    if c.writers > 0 then Mode.Write else Mode.Read
  }

  /** Store an entry, or erase it when nothing is left. */
  function SetEntry(counts: map<Id, Counts>, h: Id, c: Counts): map<Id, Counts> {
    if c == Counts(0, 0) then counts - {h} else counts[h := c]
  }

  datatype Outcome = Got | WouldBlock | Waits

  // -------------------------------------------------------------------- the operations

  function GetAtRoot(hold: Hold, h: Id, m: Mode, nonblocking: bool): (Hold, Outcome) {
    var failed := if nonblocking then WouldBlock else Waits;
    if h !in hold.counts then
      if Available(hold.lock, m) then (Hold(Grab(hold.lock, m), hold.counts[h := Inc(Counts(0, 0), m)]), Got)
      else (hold, failed)
    else if m.Write? && hold.counts[h].writers == 0 then
      if hold.lock == Readers(1) then (Hold(Writer, hold.counts[h := Inc(hold.counts[h], m)]), Got)
      else if nonblocking then (Hold(Drop(hold.lock), hold.counts - {h}), WouldBlock)
      else (hold, Waits)
    else (hold.(counts := hold.counts[h := Inc(hold.counts[h], m)]), Got)
  }

  /** `LockHandle::get_shard`. */
  function GetShard(t: Tree, hold: Hold, h: Id, m: Mode, nonblocking: bool): (Hold, Outcome)
    requires h in t.parents
    decreases h
  {
    var nb := nonblocking || h in t.nonblocking;
    match t.parents[h]
    case None => GetAtRoot(hold, h, m, nb)
    case Some(p) =>
      var (up, o) := GetShard(t, hold, p, m, nb);
      match o
      case Got => (up.(counts := up.counts[h := Inc(Amount(hold.counts, h), m)]), Got)
      case WouldBlock => (up.(counts := up.counts - {h}), WouldBlock)
      case Waits => (hold, Waits)
  }

  function ReleaseAtRoot(hold: Hold, h: Id, m: Mode): Hold
    requires h in hold.counts
  {
    var c := Dec(hold.counts[h], m);
    Hold(if c == Counts(0, 0) then Drop(hold.lock)
         else if m.Write? && c.writers == 0 then Readers(1)
         else hold.lock,
         SetEntry(hold.counts, h, c))
  }

  /** `LockHandle::release_shard`; a handle without an entry throws. */
  function ReleaseShard(t: Tree, hold: Hold, h: Id, m: Mode): Option<Hold>
    requires h in t.parents
    decreases h
  {
    if h !in hold.counts then None
    else
      match t.parents[h]
      case None => Some(ReleaseAtRoot(hold, h, m))
      case Some(p) =>
        var c := Dec(hold.counts[h], m);
        match ReleaseShard(t, hold, p, m)
        case None => None
        case Some(up) => Some(up.(counts := SetEntry(up.counts, h, c)))
  }

  // ------------------------------------------------------------------ what is outstanding

  /** A get that has not been given back: asked of which handle, in which mode. */
  datatype Token = Token(handle: Id, mode: Mode)

  /** Is `a` the handle `h` or one it asks through? */
  predicate Under(t: Tree, h: Id, a: Id)
    requires h in t.parents
    decreases h
  {
    h == a || (t.parents[h].Some? && Under(t, t.parents[h].value, a))
  }

  ghost predicate Known(t: Tree, tokens: seq<Token>) {
    forall i | 0 <= i < |tokens| :: tokens[i].handle in t.parents
  }

  /** How many outstanding gets in a mode went through handle `a`. */
  ghost function Through(t: Tree, tokens: seq<Token>, a: Id, m: Mode): nat
    requires Known(t, tokens)
  {
    if tokens == [] then 0
    else
      var last := tokens[|tokens| - 1];
      Through(t, tokens[..|tokens| - 1], a, m) + if last.mode == m && Under(t, last.handle, a) then 1 else 0
  }

  ghost function Due(t: Tree, tokens: seq<Token>, a: Id): Counts
    requires Known(t, tokens)
  {
    Counts(Through(t, tokens, a, Read), Through(t, tokens, a, Mode.Write))
  }

  /** The root handles with an entry, and the mode their counts amount to. */
  ghost function Holders(t: Tree, counts: map<Id, Counts>): map<Id, Mode> {
    map r | r in counts && r in t.parents && t.parents[r].None? :: ModeOf(counts[r])
  }

  /** Every entry counts what is outstanding through its handle, and the lock agrees with the roots. */
  ghost predicate Sound(t: Tree, hold: Hold, tokens: seq<Token>) {
    && Known(t, tokens) && |tokens| < COUNT_SPACE
    && hold.counts.Keys <= t.parents.Keys
    && (forall a {:trigger Due(t, tokens, a)} | a in t.parents :: Amount(hold.counts, a) == Due(t, tokens, a))
    && (forall a | a in hold.counts :: hold.counts[a] != Counts(0, 0))
    && Agrees(hold.lock, Holders(t, hold.counts))
  }

  // -------------------------------------------------------------- paths through the tree

  lemma {:induction false} UnderIsOlder(t: Tree, h: Id, a: Id)
    requires h in t.parents && Under(t, h, a)
    ensures a <= h && a in t.parents
    decreases h
  {
    if h != a { UnderIsOlder(t, t.parents[h].value, a); }
  }

  /** The path from `h` has exactly one root on it. */
  function RootOf(t: Tree, h: Id): (r: Id)
    requires h in t.parents
    ensures r in t.parents && t.parents[r].None?
    decreases h
  {
    match t.parents[h]
    case None => h
    case Some(p) => RootOf(t, p)
  }

  lemma {:induction false} OneRoot(t: Tree, h: Id, r: Id)
    requires h in t.parents && r in t.parents && t.parents[r].None?
    ensures Under(t, h, r) <==> r == RootOf(t, h)
    decreases h
  {
    if t.parents[h].Some? { OneRoot(t, t.parents[h].value, r); }
  }

  // ------------------------------------------------------------------- what a get changes

  /** Everyone on the path counts one more, no one else changes. */
  lemma {:induction false} GotCounts(t: Tree, hold: Hold, h: Id, m: Mode, nonblocking: bool, a: Id)
    requires h in t.parents && GetShard(t, hold, h, m, nonblocking).1.Got?
    ensures var counts := GetShard(t, hold, h, m, nonblocking).0.counts;
            && (a in counts <==> a in hold.counts || Under(t, h, a))
            && Amount(counts, a) == if Under(t, h, a) then Inc(Amount(hold.counts, a), m) else Amount(hold.counts, a)
    decreases h
  {
    if t.parents[h].Some? {
      var p := t.parents[h].value;
      GotCounts(t, hold, p, m, nonblocking || h in t.nonblocking, a);
      if Under(t, p, h) { UnderIsOlder(t, p, h); }
    }
  }

  /** The lock after a get is what the root of the path makes of it. */
  lemma {:induction false} GotLock(t: Tree, hold: Hold, h: Id, m: Mode, nonblocking: bool)
    requires h in t.parents && GetShard(t, hold, h, m, nonblocking).1.Got?
    ensures var r := RootOf(t, h);
            var lock := GetShard(t, hold, h, m, nonblocking).0.lock;
            if r !in hold.counts then Available(hold.lock, m) && lock == Grab(hold.lock, m)
            else if m.Write? && hold.counts[r].writers == 0 then hold.lock == Readers(1) && lock == Writer
            else lock == hold.lock
    decreases h
  {
    if t.parents[h].Some? { GotLock(t, hold, t.parents[h].value, m, nonblocking || h in t.nonblocking); }
  }

  lemma ThroughSnoc(t: Tree, tokens: seq<Token>, token: Token, a: Id, m: Mode)
    requires Known(t, tokens) && token.handle in t.parents
    ensures Known(t, tokens + [token])
    ensures Through(t, tokens + [token], a, m) ==
            Through(t, tokens, a, m) + if token.mode == m && Under(t, token.handle, a) then 1 else 0
  {
    assert (tokens + [token])[..|tokens|] == tokens;
  }

  lemma {:induction false} ThroughIsFew(t: Tree, tokens: seq<Token>, a: Id, m: Mode)
    requires Known(t, tokens)
    ensures Through(t, tokens, a, m) <= |tokens|
  {
    if tokens != [] { ThroughIsFew(t, tokens[..|tokens| - 1], a, m); }
  }

  lemma DueAfterGet(t: Tree, tokens: seq<Token>, h: Id, m: Mode, a: Id)
    requires Known(t, tokens) && h in t.parents && |tokens| + 1 < COUNT_SPACE
    ensures Known(t, tokens + [Token(h, m)])
    ensures Due(t, tokens + [Token(h, m)], a) == if Under(t, h, a) then Inc(Due(t, tokens, a), m) else Due(t, tokens, a)
  {
    ThroughSnoc(t, tokens, Token(h, m), a, Read);
    ThroughSnoc(t, tokens, Token(h, m), a, Mode.Write);
    ThroughIsFew(t, tokens, a, Read);
    ThroughIsFew(t, tokens, a, Mode.Write);
  }

  /** When only one root's entry changes, only that root changes among the holders. */
  lemma HoldersAfter(t: Tree, counts: map<Id, Counts>, counts': map<Id, Counts>, r: Id)
    requires r in t.parents && t.parents[r].None?
    requires forall a | a in t.parents && t.parents[a].None? && a != r ::
               (a in counts <==> a in counts') && Amount(counts, a) == Amount(counts', a)
    ensures r in counts' ==> Holders(t, counts') == Holders(t, counts)[r := ModeOf(counts'[r])]
    ensures r !in counts' ==> Holders(t, counts') == Holders(t, counts) - {r}
  {
    forall a | a in Holders(t, counts') && a != r ensures a in Holders(t, counts) && Holders(t, counts)[a] == Holders(t, counts')[a] {
      assert Amount(counts, a) == Amount(counts', a);
    }
    forall a | a in Holders(t, counts) && a != r ensures a in Holders(t, counts') {
      assert Amount(counts, a) == Amount(counts', a);
    }
  }

  lemma GotHolders(t: Tree, hold: Hold, h: Id, m: Mode, nonblocking: bool)
    requires h in t.parents && GetShard(t, hold, h, m, nonblocking).1.Got?
    ensures var r, counts := RootOf(t, h), GetShard(t, hold, h, m, nonblocking).0.counts;
            Holders(t, counts) == Holders(t, hold.counts)[r := ModeOf(Inc(Amount(hold.counts, r), m))]
  {
    var r, counts := RootOf(t, h), GetShard(t, hold, h, m, nonblocking).0.counts;
    forall a | a in t.parents && t.parents[a].None?
      ensures a != r ==> (a in hold.counts <==> a in counts) && Amount(hold.counts, a) == Amount(counts, a)
    {
      OneRoot(t, h, a);
      GotCounts(t, hold, h, m, nonblocking, a);
    }
    OneRoot(t, h, r);
    GotCounts(t, hold, h, m, nonblocking, r);
    HoldersAfter(t, hold.counts, counts, r);
  }

  lemma UpgradeAgrees<T>(l: Lock, h: map<T, Mode>, t: T)
    requires Agrees(l, h) && t in h && l == Readers(1)
    ensures Agrees(Writer, h[t := Mode.Write])
  {
    assert |h.Keys - {t}| == 0;
    assert h[t := Mode.Write].Keys == {t};
  }

  /** A successful get adds one outstanding token and keeps counts and lock in step. */
  lemma GetKeepsSound(t: Tree, hold: Hold, tokens: seq<Token>, h: Id, m: Mode, nonblocking: bool)
    requires Sound(t, hold, tokens) && h in t.parents && |tokens| + 1 < COUNT_SPACE
    requires GetShard(t, hold, h, m, nonblocking).1.Got?
    ensures Sound(t, GetShard(t, hold, h, m, nonblocking).0, tokens + [Token(h, m)])
  {
    var r := GetShard(t, hold, h, m, nonblocking).0;
    forall a ensures (a in r.counts <==> a in hold.counts || Under(t, h, a))
                     && Amount(r.counts, a) == if Under(t, h, a) then Inc(Amount(hold.counts, a), m) else Amount(hold.counts, a) {
      GotCounts(t, hold, h, m, nonblocking, a);
    }
    forall a | a in t.parents ensures Amount(r.counts, a) == Due(t, tokens + [Token(h, m)], a) {
      DueAfterGet(t, tokens, h, m, a);
    }
    ThroughIsFew(t, tokens, RootOf(t, h), Mode.Write);
    assert Amount(hold.counts, RootOf(t, h)) == Due(t, tokens, RootOf(t, h));
    GotAgrees(t, hold, h, m, nonblocking);
  }

  lemma GotAgrees(t: Tree, hold: Hold, h: Id, m: Mode, nonblocking: bool)
    requires h in t.parents && GetShard(t, hold, h, m, nonblocking).1.Got? && Agrees(hold.lock, Holders(t, hold.counts))
    requires Amount(hold.counts, RootOf(t, h)).writers + 1 < COUNT_SPACE
    ensures var r := GetShard(t, hold, h, m, nonblocking).0; Agrees(r.lock, Holders(t, r.counts))
  {
    var root := RootOf(t, h);
    GotLock(t, hold, h, m, nonblocking);
    GotHolders(t, hold, h, m, nonblocking);
    RootGotAgrees(hold.lock, Holders(t, hold.counts), root, Amount(hold.counts, root), m, GetShard(t, hold, h, m, nonblocking).0.lock);
  }

  lemma RootGotAgrees(lock: Lock, holders: map<Id, Mode>, r: Id, c: Counts, m: Mode, lock': Lock)
    requires Agrees(lock, holders) && c.writers + 1 < COUNT_SPACE
    requires if r in holders then holders[r] == ModeOf(c) else c == Counts(0, 0)
    requires if r !in holders then Available(lock, m) && lock' == Grab(lock, m)
             else if m.Write? && c.writers == 0 then lock == Readers(1) && lock' == Writer
             else lock' == lock
    ensures Agrees(lock', holders[r := ModeOf(Inc(c, m))])
  {
    if r !in holders {
      GrabAgrees(lock, holders, r, m);
    } else if m.Write? && c.writers == 0 {
      UpgradeAgrees(lock, holders, r);
    } else {
      assert holders[r := ModeOf(Inc(c, m))] == holders;
    }
  }

  // --------------------------------------------------------------- what a failed get changes

  lemma {:induction false} WaitChangesNothing(t: Tree, hold: Hold, h: Id, m: Mode, nonblocking: bool)
    requires h in t.parents && GetShard(t, hold, h, m, nonblocking).1.Waits?
    ensures GetShard(t, hold, h, m, nonblocking).0 == hold
    decreases h
  {
    if t.parents[h].Some? { WaitChangesNothing(t, hold, t.parents[h].value, m, nonblocking || h in t.nonblocking); }
  }

  /** A get that would block erases the entries on its path and no others. */
  lemma {:induction false} BlockedCounts(t: Tree, hold: Hold, h: Id, m: Mode, nonblocking: bool, a: Id)
    requires h in t.parents && GetShard(t, hold, h, m, nonblocking).1.WouldBlock?
    ensures var counts := GetShard(t, hold, h, m, nonblocking).0.counts;
            && (a in counts <==> a in hold.counts && !Under(t, h, a))
            && (a in counts ==> counts[a] == hold.counts[a])
    decreases h
  {
    if t.parents[h].Some? { BlockedCounts(t, hold, t.parents[h].value, m, nonblocking || h in t.nonblocking, a); }
  }

  /** The root's hold is lost when it had one: then an upgrade was refused. */
  lemma {:induction false} BlockedLock(t: Tree, hold: Hold, h: Id, m: Mode, nonblocking: bool)
    requires h in t.parents && GetShard(t, hold, h, m, nonblocking).1.WouldBlock?
    ensures var r := RootOf(t, h);
            var lock := GetShard(t, hold, h, m, nonblocking).0.lock;
            if r !in hold.counts then lock == hold.lock && !Available(hold.lock, m)
            else lock == Drop(hold.lock) && m.Write? && hold.counts[r].writers == 0 && hold.lock != Readers(1)
    decreases h
  {
    if t.parents[h].Some? { BlockedLock(t, hold, t.parents[h].value, m, nonblocking || h in t.nonblocking); }
  }

  // --------------------------------------------------------------------- which outcome

  /**
   Can a request be granted?  Without an entry at the root the lock must be free, or held by readers
   only and asked for reading; with one, only the first write needs the lock to be this reader's
   alone.
   */
  predicate Grantable(hold: Hold, root: Id, m: Mode) {
    if root !in hold.counts then hold.lock == Free || (hold.lock.Readers? && m == Read)
    else m == Mode.Write && hold.counts[root].writers == 0 ==> hold.lock == Readers(1)
  }

  /** The call, or some handle it goes through, must not wait. */
  ghost predicate MustNotWait(t: Tree, h: Id, nonblocking: bool)
    requires h in t.parents
  {
    nonblocking || exists a | a in t.nonblocking :: Under(t, h, a)
  }

  lemma MustNotWaitAbove(t: Tree, h: Id, nonblocking: bool)
    requires h in t.parents && t.parents[h].Some?
    ensures MustNotWait(t, h, nonblocking) <==> MustNotWait(t, t.parents[h].value, nonblocking || h in t.nonblocking)
  {
    var p := t.parents[h].value;
    if a :| a in t.nonblocking && Under(t, h, a) {
      assert a == h || Under(t, p, a);
    }
    if a :| a in t.nonblocking && Under(t, p, a) {
      assert Under(t, h, a);
    }
    if h in t.nonblocking { assert Under(t, h, h); }
  }

  /** Every outcome of a request, exactly. */
  ghost predicate IsOutcome(t: Tree, hold: Hold, h: Id, m: Mode, nonblocking: bool, o: Outcome)
    requires h in t.parents
  {
    && (o.Got? <==> Grantable(hold, RootOf(t, h), m))
    && (o.WouldBlock? <==> !Grantable(hold, RootOf(t, h), m) && MustNotWait(t, h, nonblocking))
    && (o.Waits? <==> !Grantable(hold, RootOf(t, h), m) && !MustNotWait(t, h, nonblocking))
  }

  lemma {:induction false} GetOutcome(t: Tree, hold: Hold, h: Id, m: Mode, nonblocking: bool)
    requires h in t.parents
    ensures IsOutcome(t, hold, h, m, nonblocking, GetShard(t, hold, h, m, nonblocking).1)
    decreases h
  {
    if t.parents[h].Some? {
      GetOutcome(t, hold, t.parents[h].value, m, nonblocking || h in t.nonblocking);
      MustNotWaitAbove(t, h, nonblocking);
    } else if a :| a in t.nonblocking && Under(t, h, a) {
      assert a == h;
    } else if h in t.nonblocking {
      assert Under(t, h, h);
    }
  }

  /** One hold more on the lock, and one less. */
  predicate OneMore(before: Lock, m: Mode, after: Lock) {
    match m
    case Write => before == Free && after == Writer
    case Read => if before == Free then after == Readers(1) else before.Readers? && after == Readers(before.n + 1)
  }

  predicate OneLess(before: Lock, after: Lock) {
    if before.Readers? && before.n > 1 then after == Readers(before.n - 1) else after == Free
  }

  /** What a request does to the lock, by its outcome. */
  lemma GetMovesLock(t: Tree, hold: Hold, h: Id, m: Mode, nonblocking: bool)
    requires h in t.parents
    ensures var (r, o) := GetShard(t, hold, h, m, nonblocking);
            var had := RootOf(t, h) in hold.counts;
            && (o.Got? && !had ==> OneMore(hold.lock, m, r.lock))
            && (o.Got? && had && m == Mode.Write && hold.counts[RootOf(t, h)].writers == 0 ==> r.lock == Writer)
            && (o.Got? && had && !(m == Mode.Write && hold.counts[RootOf(t, h)].writers == 0) ==> r.lock == hold.lock)
            && (o.WouldBlock? && had ==> OneLess(hold.lock, r.lock))
            && (o.WouldBlock? && !had ==> r.lock == hold.lock)
            && (o.Waits? ==> r == hold)
  {
    var o := GetShard(t, hold, h, m, nonblocking).1;
    match o
    case Got => GotLock(t, hold, h, m, nonblocking);
    case WouldBlock => BlockedLock(t, hold, h, m, nonblocking);
    case Waits => WaitChangesNothing(t, hold, h, m, nonblocking);
  }

  /** And to the entries: one more on the path, or none left there, and no other changes. */
  lemma GetMovesCounts(t: Tree, hold: Hold, h: Id, m: Mode, nonblocking: bool, a: Id)
    requires h in t.parents
    ensures var (r, o) := GetShard(t, hold, h, m, nonblocking);
            if !Under(t, h, a) || o.Waits? then (a in r.counts <==> a in hold.counts) && (a in r.counts ==> r.counts[a] == hold.counts[a])
            else if o.WouldBlock? then a !in r.counts
            else
              var was := if a in hold.counts then hold.counts[a] else Counts(0, 0);
              && a in r.counts
              && r.counts[a].readers == (if m == Read then (was.readers + 1) % 65536 else was.readers)
              && r.counts[a].writers == (if m == Mode.Write then (was.writers + 1) % 65536 else was.writers)
  {
    var o := GetShard(t, hold, h, m, nonblocking).1;
    match o
    case Got => GotCounts(t, hold, h, m, nonblocking, a);
    case WouldBlock => BlockedCounts(t, hold, h, m, nonblocking, a);
    case Waits => WaitChangesNothing(t, hold, h, m, nonblocking);
  }

  /** A release goes through exactly if every handle on its path has an entry. */
  lemma {:induction false} ReleaseIff(t: Tree, hold: Hold, h: Id, m: Mode)
    requires h in t.parents
    ensures ReleaseShard(t, hold, h, m).Some? <==> forall a | Under(t, h, a) :: a in hold.counts
    decreases h
  {
    if t.parents[h].Some? {
      var p := t.parents[h].value;
      ReleaseIff(t, hold, p, m);
      assert Under(t, h, h) && forall a :: Under(t, h, a) <==> a == h || Under(t, p, a);
    } else {
      assert forall a :: Under(t, h, a) <==> a == h;
    }
  }

  /** It takes one from every count on its path, at 16 bits, and erases an entry with nothing left. */
  lemma {:induction false} ReleaseMovesCounts(t: Tree, hold: Hold, h: Id, m: Mode, a: Id)
    requires h in t.parents && ReleaseShard(t, hold, h, m).Some?
    ensures var counts := ReleaseShard(t, hold, h, m).value.counts;
            if !Under(t, h, a) then (a in counts <==> a in hold.counts) && (a in counts ==> counts[a] == hold.counts[a])
            else
              && a in hold.counts
              && var left := Counts(if m == Read then (hold.counts[a].readers + 65535) % 65536 else hold.counts[a].readers,
                                    if m == Mode.Write then (hold.counts[a].writers + 65535) % 65536 else hold.counts[a].writers);
                 if left == Counts(0, 0) then a !in counts else a in counts && counts[a] == left
    decreases h
  {
    if t.parents[h].Some? {
      var p := t.parents[h].value;
      ReleaseMovesCounts(t, hold, p, m, a);
      if Under(t, p, h) { UnderIsOlder(t, p, h); }
    }
  }

  /** The lock: one hold less when the root has nothing left, down to reading when it has no more writes, and as it was otherwise. */
  lemma {:induction false} ReleaseMovesLock(t: Tree, hold: Hold, h: Id, m: Mode)
    requires h in t.parents && ReleaseShard(t, hold, h, m).Some?
    ensures var r, root := ReleaseShard(t, hold, h, m).value, RootOf(t, h);
            && root in hold.counts
            && (root !in r.counts ==> OneLess(hold.lock, r.lock))
            && (root in r.counts && m == Mode.Write && r.counts[root].writers == 0 ==> r.lock == Readers(1))
            && (root in r.counts && !(m == Mode.Write && r.counts[root].writers == 0) ==> r.lock == hold.lock)
    decreases h
  {
    if t.parents[h].Some? {
      var p := t.parents[h].value;
      ReleaseMovesLock(t, hold, p, m);
      OneRoot(t, p, RootOf(t, p));
      if RootOf(t, p) == h { UnderIsOlder(t, p, h); }
    }
  }

  lemma {:induction false} UnderTransitive(t: Tree, h: Id, a: Id, b: Id)
    requires h in t.parents && a in t.parents && Under(t, h, a) && Under(t, a, b)
    ensures Under(t, h, b)
    decreases h
  {
    if h != a { UnderTransitive(t, t.parents[h].value, a, b); }
  }

  /** What goes through a handle goes through everyone it asks through. */
  lemma {:induction false} MoreAbove(t: Tree, tokens: seq<Token>, a: Id, b: Id, m: Mode)
    requires Known(t, tokens) && a in t.parents && Under(t, a, b)
    ensures Through(t, tokens, a, m) <= Through(t, tokens, b, m)
  {
    if tokens != [] {
      var last := tokens[|tokens| - 1];
      MoreAbove(t, tokens[..|tokens| - 1], a, b, m);
      if Under(t, last.handle, a) { UnderTransitive(t, last.handle, a, b); }
    }
  }

  /** An entry implies one in every handle above. */
  lemma EntryAbove(t: Tree, hold: Hold, tokens: seq<Token>, a: Id, b: Id)
    requires Sound(t, hold, tokens) && a in hold.counts && Under(t, a, b)
    ensures b in hold.counts
  {
    UnderIsOlder(t, a, b);
    MoreAbove(t, tokens, a, b, Mode.Read);
    MoreAbove(t, tokens, a, b, Mode.Write);
    assert Amount(hold.counts, a) == Due(t, tokens, a) && Amount(hold.counts, b) == Due(t, tokens, b);
  }

  lemma RootHasEntry(t: Tree, hold: Hold, tokens: seq<Token>, a: Id)
    requires Sound(t, hold, tokens) && a in hold.counts
    ensures RootOf(t, a) in hold.counts
  {
    OneRoot(t, a, RootOf(t, a));
    EntryAbove(t, hold, tokens, a, RootOf(t, a));
  }

  /** Without an entry at the root, a get that would block changes nothing. */
  lemma BlockedHarmless(t: Tree, hold: Hold, tokens: seq<Token>, h: Id, m: Mode, nonblocking: bool)
    requires Sound(t, hold, tokens) && h in t.parents && GetShard(t, hold, h, m, nonblocking).1.WouldBlock?
    requires RootOf(t, h) !in hold.counts
    ensures GetShard(t, hold, h, m, nonblocking).0 == hold
  {
    var r := GetShard(t, hold, h, m, nonblocking).0;
    BlockedLock(t, hold, h, m, nonblocking);
    forall a ensures (a in r.counts <==> a in hold.counts) && (a in r.counts ==> r.counts[a] == hold.counts[a]) {
      BlockedCounts(t, hold, h, m, nonblocking, a);
      if a in hold.counts && Under(t, h, a) {
        RootHasEntry(t, hold, tokens, a);
        SameRoot(t, h, a);
      }
    }
    assert r.counts == hold.counts;
  }

  lemma {:induction false} SameRoot(t: Tree, h: Id, a: Id)
    requires h in t.parents && Under(t, h, a)
    ensures a in t.parents && RootOf(t, h) == RootOf(t, a)
    decreases h
  {
    if h != a { SameRoot(t, t.parents[h].value, a); }
  }

  /** Some handle of the same tree, off the path of `h`, has an entry. */
  ghost predicate HeldOffPath(t: Tree, hold: Hold, h: Id)
    requires h in t.parents
  {
    exists a | a in hold.counts && a in t.parents :: RootOf(t, a) == RootOf(t, h) && !Under(t, h, a)
  }

  /** The tokens of the other trees. */
  ghost function Others(t: Tree, tokens: seq<Token>, r: Id): (rest: seq<Token>)
    requires Known(t, tokens)
    ensures Known(t, rest) && |rest| <= |tokens|
  {
    if tokens == [] then []
    else
      var last, rest := tokens[|tokens| - 1], Others(t, tokens[..|tokens| - 1], r);
      if RootOf(t, last.handle) == r then rest else rest + [last]
  }

  lemma {:induction false} ThroughOthers(t: Tree, tokens: seq<Token>, r: Id, a: Id, m: Mode)
    requires Known(t, tokens) && a in t.parents
    ensures Through(t, Others(t, tokens, r), a, m) == if RootOf(t, a) == r then 0 else Through(t, tokens, a, m)
  {
    if tokens != [] {
      var last, front := tokens[|tokens| - 1], tokens[..|tokens| - 1];
      ThroughOthers(t, front, r, a, m);
      if Under(t, last.handle, a) { SameRoot(t, last.handle, a); }
      if RootOf(t, last.handle) != r { ThroughSnoc(t, Others(t, front, r), last, a, m); }
    }
  }

  /** A refused upgrade with no one else of the tree on the shard leaves the tree without it, and all in step. */
  lemma RefusedUpgradeSound(t: Tree, hold: Hold, tokens: seq<Token>, h: Id, m: Mode, nonblocking: bool)
    requires Sound(t, hold, tokens) && h in t.parents && GetShard(t, hold, h, m, nonblocking).1.WouldBlock?
    requires RootOf(t, h) in hold.counts && !HeldOffPath(t, hold, h)
    ensures Sound(t, GetShard(t, hold, h, m, nonblocking).0, Others(t, tokens, RootOf(t, h)))
  {
    var r, root := GetShard(t, hold, h, m, nonblocking).0, RootOf(t, h);
    forall a ensures (a in r.counts <==> a in hold.counts && !Under(t, h, a)) && (a in r.counts ==> r.counts[a] == hold.counts[a]) {
      BlockedCounts(t, hold, h, m, nonblocking, a);
    }
    forall a | a in t.parents ensures Amount(r.counts, a) == Due(t, Others(t, tokens, root), a) {
      ThroughOthers(t, tokens, root, a, Mode.Read);
      ThroughOthers(t, tokens, root, a, Mode.Write);
      assert Amount(hold.counts, a) == Due(t, tokens, a);
      if Under(t, h, a) { SameRoot(t, h, a); }
    }
    BlockedAgrees(t, hold, tokens, h, m, nonblocking);
  }

  lemma BlockedAgrees(t: Tree, hold: Hold, tokens: seq<Token>, h: Id, m: Mode, nonblocking: bool)
    requires Sound(t, hold, tokens) && h in t.parents && GetShard(t, hold, h, m, nonblocking).1.WouldBlock?
    requires RootOf(t, h) in hold.counts
    ensures var r := GetShard(t, hold, h, m, nonblocking).0; Agrees(r.lock, Holders(t, r.counts))
  {
    var r, root := GetShard(t, hold, h, m, nonblocking).0, RootOf(t, h);
    BlockedLock(t, hold, h, m, nonblocking);
    forall a | a in t.parents && t.parents[a].None?
      ensures if a == root then a !in r.counts else (a in hold.counts <==> a in r.counts) && Amount(hold.counts, a) == Amount(r.counts, a)
    {
      OneRoot(t, h, a);
      BlockedCounts(t, hold, h, m, nonblocking, a);
    }
    HoldersAfter(t, hold.counts, r.counts, root);
    DropAgrees(hold.lock, Holders(t, hold.counts), root);
  }

  /** With a handle off the path on the shard, no account of outstanding gets fits what a refused upgrade leaves. */
  lemma RefusedUpgradeUnsound(t: Tree, hold: Hold, tokens: seq<Token>, h: Id, m: Mode, nonblocking: bool, tokens': seq<Token>)
    requires Sound(t, hold, tokens) && h in t.parents && GetShard(t, hold, h, m, nonblocking).1.WouldBlock?
    requires RootOf(t, h) in hold.counts && HeldOffPath(t, hold, h)
    ensures !Sound(t, GetShard(t, hold, h, m, nonblocking).0, tokens')
  {
    var r := GetShard(t, hold, h, m, nonblocking).0;
    var a :| a in hold.counts && a in t.parents && RootOf(t, a) == RootOf(t, h) && !Under(t, h, a);
    BlockedCounts(t, hold, h, m, nonblocking, a);
    OneRoot(t, h, RootOf(t, h));
    BlockedCounts(t, hold, h, m, nonblocking, RootOf(t, h));
    if Sound(t, r, tokens') { RootHasEntry(t, r, tokens', a); }
  }

  // ------------------------------------------------------------------- what a release changes

  /** Everyone on the path counts one less and forgets an entry that reaches zero. */
  lemma {:induction false} ReleasedCounts(t: Tree, hold: Hold, h: Id, m: Mode, a: Id)
    requires h in t.parents && ReleaseShard(t, hold, h, m).Some?
    ensures var counts := ReleaseShard(t, hold, h, m).value.counts;
            if Under(t, h, a) then
              && a in hold.counts && Amount(counts, a) == Dec(hold.counts[a], m)
              && (a in counts <==> Dec(hold.counts[a], m) != Counts(0, 0))
            else (a in counts <==> a in hold.counts) && Amount(counts, a) == Amount(hold.counts, a)
    decreases h
  {
    if t.parents[h].Some? {
      var p := t.parents[h].value;
      ReleasedCounts(t, hold, p, m, a);
      if Under(t, p, h) { UnderIsOlder(t, p, h); }
    }
  }

  lemma {:induction false} ReleasedLock(t: Tree, hold: Hold, h: Id, m: Mode)
    requires h in t.parents && ReleaseShard(t, hold, h, m).Some?
    ensures var r := RootOf(t, h);
            var lock := ReleaseShard(t, hold, h, m).value.lock;
            && r in hold.counts
            && var c := Dec(hold.counts[r], m);
               lock == if c == Counts(0, 0) then Drop(hold.lock)
                       else if m.Write? && c.writers == 0 then Readers(1)
                       else hold.lock
    decreases h
  {
    if t.parents[h].Some? { ReleasedLock(t, hold, t.parents[h].value, m); }
  }

  /** A release goes through when everyone on the path has an entry. */
  lemma {:induction false} ReleaseSucceeds(t: Tree, hold: Hold, h: Id, m: Mode)
    requires h in t.parents && forall a | a in t.parents && Under(t, h, a) :: a in hold.counts
    ensures ReleaseShard(t, hold, h, m).Some?
    decreases h
  {
    assert Under(t, h, h);
    if t.parents[h].Some? {
      var p := t.parents[h].value;
      forall a | a in t.parents && Under(t, p, a) ensures a in hold.counts { assert Under(t, h, a); }
      ReleaseSucceeds(t, hold, p, m);
    }
  }

  ghost function Without(tokens: seq<Token>, i: nat): seq<Token>
    requires i < |tokens|
  {
    tokens[..i] + tokens[i + 1..]
  }

  lemma WithoutFront(tokens: seq<Token>, i: nat)
    requires i < |tokens| - 1
    ensures var n := |tokens| - 1; Without(tokens, i) == Without(tokens[..n], i) + [tokens[n]]
  {
  }

  lemma {:induction false} ThroughWithout(t: Tree, tokens: seq<Token>, i: nat, a: Id, m: Mode)
    requires Known(t, tokens) && i < |tokens|
    ensures Known(t, Without(tokens, i))
    ensures Through(t, tokens, a, m) ==
            Through(t, Without(tokens, i), a, m) + if tokens[i].mode == m && Under(t, tokens[i].handle, a) then 1 else 0
  {
    var n := |tokens| - 1;
    var front, last := tokens[..n], tokens[n];
    if i == n {
      assert Without(tokens, i) == front;
    } else {
      assert front[i] == tokens[i];
      ThroughWithout(t, front, i, a, m);
      ThroughSnoc(t, Without(front, i), last, a, m);
      WithoutFront(tokens, i);
    }
  }

  lemma DueAfterRelease(t: Tree, tokens: seq<Token>, i: nat, a: Id)
    requires Known(t, tokens) && i < |tokens| < COUNT_SPACE
    ensures Known(t, Without(tokens, i))
    ensures Due(t, Without(tokens, i), a) ==
            if Under(t, tokens[i].handle, a) then Dec(Due(t, tokens, a), tokens[i].mode) else Due(t, tokens, a)
    ensures Under(t, tokens[i].handle, a) ==>
              if tokens[i].mode.Write? then Due(t, tokens, a).writers > 0 else Due(t, tokens, a).readers > 0
  {
    ThroughWithout(t, tokens, i, a, Mode.Read);
    ThroughWithout(t, tokens, i, a, Mode.Write);
    ThroughIsFew(t, tokens, a, Mode.Read);
    ThroughIsFew(t, tokens, a, Mode.Write);
  }

  lemma DowngradeAgrees<T>(l: Lock, h: map<T, Mode>, r: T)
    requires Agrees(l, h) && r in h && h[r].Write?
    ensures Agrees(Readers(1), h[r := Mode.Read])
  {
    assert |h.Keys - {r}| == 0;
    assert h[r := Mode.Read].Keys == {r};
  }

  /** Giving back an outstanding get always works and keeps counts and lock in step. */
  lemma ReleaseKeepsSound(t: Tree, hold: Hold, tokens: seq<Token>, i: nat)
    requires Sound(t, hold, tokens) && i < |tokens|
    ensures var r := ReleaseShard(t, hold, tokens[i].handle, tokens[i].mode); r.Some? && Sound(t, r.value, Without(tokens, i))
  {
    var h, m := tokens[i].handle, tokens[i].mode;
    forall a | a in t.parents && Under(t, h, a) ensures a in hold.counts {
      DueAfterRelease(t, tokens, i, a);
      assert Amount(hold.counts, a) == Due(t, tokens, a);
    }
    ReleaseSucceeds(t, hold, h, m);
    var r := ReleaseShard(t, hold, h, m).value;
    forall a | a in t.parents ensures Amount(r.counts, a) == Due(t, Without(tokens, i), a) {
      DueAfterRelease(t, tokens, i, a);
      ReleasedCounts(t, hold, h, m, a);
      assert Amount(hold.counts, a) == Due(t, tokens, a);
    }
    forall a | a in r.counts ensures a in t.parents && r.counts[a] != Counts(0, 0) {
      ReleasedCounts(t, hold, h, m, a);
    }
    ReleaseAgrees(t, hold, tokens, i);
  }

  lemma ReleasedHolders(t: Tree, hold: Hold, h: Id, m: Mode)
    requires h in t.parents && ReleaseShard(t, hold, h, m).Some?
    ensures var r, counts := RootOf(t, h), ReleaseShard(t, hold, h, m).value.counts;
            && r in hold.counts
            && var c := Dec(hold.counts[r], m);
               Holders(t, counts) == if c == Counts(0, 0) then Holders(t, hold.counts) - {r} else Holders(t, hold.counts)[r := ModeOf(c)]
  {
    var r, counts := RootOf(t, h), ReleaseShard(t, hold, h, m).value.counts;
    forall a | a in t.parents && t.parents[a].None?
      ensures a != r ==> (a in hold.counts <==> a in counts) && Amount(hold.counts, a) == Amount(counts, a)
    {
      OneRoot(t, h, a);
      ReleasedCounts(t, hold, h, m, a);
    }
    OneRoot(t, h, r);
    ReleasedCounts(t, hold, h, m, r);
    HoldersAfter(t, hold.counts, counts, r);
  }

  lemma ReleaseAgrees(t: Tree, hold: Hold, tokens: seq<Token>, i: nat)
    requires Sound(t, hold, tokens) && i < |tokens| && ReleaseShard(t, hold, tokens[i].handle, tokens[i].mode).Some?
    ensures var r := ReleaseShard(t, hold, tokens[i].handle, tokens[i].mode).value; Agrees(r.lock, Holders(t, r.counts))
  {
    var h, m := tokens[i].handle, tokens[i].mode;
    var root, holders := RootOf(t, h), Holders(t, hold.counts);
    ReleasedLock(t, hold, h, m);
    ReleasedHolders(t, hold, h, m);
    DueAfterRelease(t, tokens, i, root);
    OneRoot(t, h, root);
    assert Amount(hold.counts, root) == Due(t, tokens, root);
    var c := Dec(hold.counts[root], m);
    if c == Counts(0, 0) {
      DropAgrees(hold.lock, holders, root);
    } else if m.Write? && c.writers == 0 {
      DowngradeAgrees(hold.lock, holders, root);
    } else {
      assert ModeOf(c) == holders[root];
      assert holders[root := ModeOf(c)] == holders;
    }
  }

  // ------------------------------------------------- releasing what is not outstanding

  /** The gets asked of `h` itself. */
  ghost function Own(tokens: seq<Token>, h: Id, m: Mode): nat {
    multiset(tokens)[Token(h, m)]
  }

  /** What goes through the children of `h` with numbers below `n`. */
  ghost function ThroughChildren(t: Tree, tokens: seq<Token>, h: Id, m: Mode, n: nat): nat
    requires Known(t, tokens)
  {
    if n == 0 then 0
    else
      ThroughChildren(t, tokens, h, m, n - 1) +
        if n - 1 in t.parents && t.parents[n - 1] == Some(h) then Through(t, tokens, n - 1, m) else 0
  }

  /** The child of `h` that `x` asks through. */
  function Branch(t: Tree, x: Id, h: Id): (c: Id)
    requires x in t.parents && Under(t, x, h) && x != h
    ensures c in t.parents && t.parents[c] == Some(h) && Under(t, x, c) && c <= x
    decreases x
  {
    var p := t.parents[x].value;
    if p == h then x else Branch(t, p, h)
  }

  /** Only one child of `h` is on the path. */
  lemma {:induction false} OneBranch(t: Tree, x: Id, h: Id, c: Id)
    requires x in t.parents && c in t.parents && t.parents[c] == Some(h)
    ensures Under(t, x, c) <==> Under(t, x, h) && x != h && c == Branch(t, x, h)
    decreases x
  {
    if x == c {
      assert Under(t, t.parents[x].value, h);
    } else if t.parents[x].Some? {
      OneBranch(t, t.parents[x].value, h, c);
      if x == h && Under(t, x, c) { UnderIsOlder(t, x, c); }
    }
  }

  lemma {:induction false} ChildrenSnoc(t: Tree, tokens: seq<Token>, token: Token, h: Id, m: Mode, n: nat)
    requires Known(t, tokens) && token.handle in t.parents
    ensures Known(t, tokens + [token])
    ensures ThroughChildren(t, tokens + [token], h, m, n) == ThroughChildren(t, tokens, h, m, n) +
            if token.mode == m && Under(t, token.handle, h) && token.handle != h && Branch(t, token.handle, h) < n then 1 else 0
  {
    if n > 0 {
      ChildrenSnoc(t, tokens, token, h, m, n - 1);
      if n - 1 in t.parents && t.parents[n - 1] == Some(h) {
        ThroughSnoc(t, tokens, token, n - 1, m);
        OneBranch(t, token.handle, h, n - 1);
      }
    }
  }

  /** What goes through a handle was asked of it or goes through one of its children. */
  lemma {:induction false} ThroughIsOwnAndChildren(t: Tree, tokens: seq<Token>, h: Id, m: Mode, n: nat)
    requires Known(t, tokens) && h in t.parents && forall k | k in t.parents :: k < n
    ensures Through(t, tokens, h, m) == Own(tokens, h, m) + ThroughChildren(t, tokens, h, m, n)
  {
    if tokens == [] {
      NoChildrenOfNothing(t, h, m, n);
    } else {
      var k := |tokens| - 1;
      assert tokens == tokens[..k] + [tokens[k]];
      ThroughIsOwnAndChildren(t, tokens[..k], h, m, n);
      ChildrenSnoc(t, tokens[..k], tokens[k], h, m, n);
      assert Under(t, h, h);
    }
  }

  lemma {:induction false} NoChildrenOfNothing(t: Tree, h: Id, m: Mode, n: nat)
    ensures ThroughChildren(t, [], h, m, n) == 0
  {
    if n > 0 { NoChildrenOfNothing(t, h, m, n - 1); }
  }

  lemma {:induction false} SameChildren(t: Tree, x: seq<Token>, y: seq<Token>, h: Id, m: Mode, n: nat)
    requires Known(t, x) && Known(t, y)
    requires forall c | c in t.parents && t.parents[c] == Some(h) :: Due(t, x, c) == Due(t, y, c)
    ensures ThroughChildren(t, x, h, m, n) == ThroughChildren(t, y, h, m, n)
  {
    if n > 0 {
      SameChildren(t, x, y, h, m, n - 1);
      if n - 1 in t.parents && t.parents[n - 1] == Some(h) { assert Due(t, x, n - 1) == Due(t, y, n - 1); }
    }
  }

  lemma {:induction false} Bound(ids: set<Id>) returns (n: nat)
    ensures forall k | k in ids :: k < n
  {
    if ids == {} {
      n := 0;
    } else {
      var k :| k in ids;
      var rest := Bound(ids - {k});
      n := if rest <= k then k + 1 else rest;
      forall j | j in ids ensures j < n { assert j == k || j in ids - {k}; }
    }
  }

  lemma {:induction false} BothModesAreFew(t: Tree, tokens: seq<Token>, a: Id)
    requires Known(t, tokens)
    ensures Due(t, tokens, a).readers + Due(t, tokens, a).writers <= |tokens|
  {
    if tokens != [] { BothModesAreFew(t, tokens[..|tokens| - 1], a); }
  }

  /** No account that matches what is counted for the children of `h` has fewer gets through `h`. */
  lemma AtLeastChildren(t: Tree, tokens: seq<Token>, tokens': seq<Token>, h: Id, m: Mode)
    requires Known(t, tokens) && Known(t, tokens') && h in t.parents && Token(h, m) !in tokens
    requires forall c | c in t.parents && t.parents[c] == Some(h) :: Due(t, tokens, c) == Due(t, tokens', c)
    ensures CountIn(Due(t, tokens, h), m) <= CountIn(Due(t, tokens', h), m)
  {
    var n := Bound(t.parents.Keys);
    ThroughIsOwnAndChildren(t, tokens, h, m, n);
    ThroughIsOwnAndChildren(t, tokens', h, m, n);
    SameChildren(t, tokens, tokens', h, m, n);
  }

  lemma SoundAt(t: Tree, hold: Hold, tokens: seq<Token>, a: Id)
    requires Sound(t, hold, tokens) && a in t.parents
    ensures Amount(hold.counts, a) == Due(t, tokens, a)
  {
  }

  lemma ChildrenKept(t: Tree, hold: Hold, tokens: seq<Token>, h: Id, m: Mode, tokens': seq<Token>, c: Id)
    requires Sound(t, hold, tokens) && h in t.parents && ReleaseShard(t, hold, h, m).Some?
    requires Sound(t, ReleaseShard(t, hold, h, m).value, tokens') && c in t.parents && t.parents[c] == Some(h)
    ensures Due(t, tokens, c) == Due(t, tokens', c)
  {
    if Under(t, h, c) { UnderIsOlder(t, h, c); }
    ReleasedCounts(t, hold, h, m, c);
    SoundAt(t, hold, tokens, c);
    SoundAt(t, ReleaseShard(t, hold, h, m).value, tokens', c);
  }

  lemma ReleasedAt(t: Tree, hold: Hold, tokens: seq<Token>, h: Id, m: Mode, tokens': seq<Token>)
    requires Sound(t, hold, tokens) && h in t.parents && ReleaseShard(t, hold, h, m).Some?
    requires Sound(t, ReleaseShard(t, hold, h, m).value, tokens')
    ensures Due(t, tokens', h) == Dec(Due(t, tokens, h), m) && Due(t, tokens, h) != Counts(0, 0)
  {
    ReleasedCounts(t, hold, h, m, h);
    SoundAt(t, hold, tokens, h);
    SoundAt(t, ReleaseShard(t, hold, h, m).value, tokens', h);
  }

  lemma UndueRelease(t: Tree, hold: Hold, tokens: seq<Token>, h: Id, m: Mode, tokens': seq<Token>)
    requires Sound(t, hold, tokens) && h in hold.counts && Token(h, m) !in tokens
    requires ReleaseShard(t, hold, h, m).Some?
    ensures !Sound(t, ReleaseShard(t, hold, h, m).value, tokens')
  {
    if Sound(t, ReleaseShard(t, hold, h, m).value, tokens') {
      forall c | c in t.parents && t.parents[c] == Some(h) ensures Due(t, tokens, c) == Due(t, tokens', c) {
        ChildrenKept(t, hold, tokens, h, m, tokens', c);
      }
      AtLeastChildren(t, tokens, tokens', h, m);
      ReleasedAt(t, hold, tokens, h, m, tokens');
      BothModesAreFew(t, tokens, h);
      BothModesAreFew(t, tokens', h);
      DecGoesDown(Due(t, tokens, h), m);
    }
  }

  /** Counting down goes down, or wraps to a count that leaves no room for the other mode. */
  lemma DecGoesDown(c: Counts, m: Mode)
    requires c != Counts(0, 0) && c.readers + c.writers < COUNT_SPACE
    ensures var d := Dec(c, m); CountIn(d, m) < CountIn(c, m) || d.readers + d.writers >= COUNT_SPACE
  {
  }

  /** No account of outstanding gets fits the state. */
  ghost predicate NoAccount(t: Tree, hold: Hold) {
    forall tokens :: !Sound(t, hold, tokens)
  }

  lemma ReleaseGoesThrough(t: Tree, hold: Hold, tokens: seq<Token>, h: Id, m: Mode)
    requires Sound(t, hold, tokens) && h in hold.counts
    ensures ReleaseShard(t, hold, h, m).Some?
  {
    forall a | a in t.parents && Under(t, h, a) ensures a in hold.counts { EntryAbove(t, hold, tokens, h, a); }
    ReleaseSucceeds(t, hold, h, m);
  }

  /** After a release that was not due, no account fits. */
  lemma UndueReleaseUnsound(t: Tree, hold: Hold, tokens: seq<Token>, h: Id, m: Mode)
    requires Sound(t, hold, tokens) && h in hold.counts && Token(h, m) !in tokens
    ensures var r := ReleaseShard(t, hold, h, m); r.Some? && NoAccount(t, r.value)
  {
    ReleaseGoesThrough(t, hold, tokens, h, m);
    forall tokens' ensures !Sound(t, ReleaseShard(t, hold, h, m).value, tokens') {
      UndueRelease(t, hold, tokens, h, m, tokens');
    }
  }

  /** What a release leaves: one get less, or a state no account fits when there was none to give back. */
  ghost predicate Released(t: Tree, hold: Hold, tokens: seq<Token>, h: Id, m: Mode, r: Hold, now: seq<Token>)
    requires h in t.parents
  {
    && ReleaseShard(t, hold, h, m) == Some(r)
    && if Token(h, m) in tokens then Sound(t, r, now) && multiset(now) == multiset(tokens) - multiset{Token(h, m)}
       else NoAccount(t, r) && now == tokens
  }

  lemma AfterRelease(t: Tree, hold: Hold, tokens: seq<Token>, h: Id, m: Mode) returns (now: seq<Token>)
    requires Sound(t, hold, tokens) && h in hold.counts
    ensures ReleaseShard(t, hold, h, m).Some? && Released(t, hold, tokens, h, m, ReleaseShard(t, hold, h, m).value, now)
    ensures Sound(t, ReleaseShard(t, hold, h, m).value, now) <==> Token(h, m) in tokens
  {
    if Token(h, m) in tokens {
      var i :| 0 <= i < |tokens| && tokens[i] == Token(h, m);
      ReleaseKeepsSound(t, hold, tokens, i);
      WithoutBag(tokens, i);
      now := Without(tokens, i);
    } else {
      UndueReleaseUnsound(t, hold, tokens, h, m);
      now := tokens;
    }
  }

  // ----------------------------------------------------------------------------- the law

  /**
   The physical lock is taken for writing when some handle counts a write, for reading when
   there are only reads, and free when no handle has an entry.
   */
  lemma LockFollowsCounts(t: Tree, hold: Hold, tokens: seq<Token>)
    requires Sound(t, hold, tokens)
    ensures hold.lock.Writer? <==> exists a :: a in hold.counts && hold.counts[a].writers > 0
    ensures hold.lock.Free? <==> hold.counts == map[]
  {
    var holders := Holders(t, hold.counts);
    forall a | a in hold.counts ensures RootOf(t, a) in holders && (hold.counts[a].writers > 0 ==> holders[RootOf(t, a)].Write?) {
      RootHasEntry(t, hold, tokens, a);
      OneRoot(t, a, RootOf(t, a));
      MoreAbove(t, tokens, a, RootOf(t, a), Mode.Write);
      assert Amount(hold.counts, a) == Due(t, tokens, a) && Amount(hold.counts, RootOf(t, a)) == Due(t, tokens, RootOf(t, a));
    }
    if hold.lock.Writer? {
      var r :| r in holders;
      assert holders[r].Write? && hold.counts[r].writers > 0;
    }
  }

  // ----------------------------------------------------------------------------- clearing

  /** The handles made below `h`. */
  ghost function Below(t: Tree, h: Id): set<Id> {
    set a | a in t.parents && a != h && Under(t, a, h)
  }

  /** No handle below `h` has an entry. */
  ghost predicate NothingBelow(t: Tree, hold: Hold, h: Id) {
    forall a | a in hold.counts :: a !in Below(t, h)
  }

  lemma BelowIsYounger(t: Tree, h: Id, a: Id)
    requires a in Below(t, h)
    ensures h < a && (h in t.parents ==> !Under(t, h, a))
  {
    UnderIsOlder(t, a, h);
    if Under(t, h, a) { UnderIsOlder(t, h, a); }
  }

  /** A release does not look at entries off its path. */
  lemma {:induction false} ReleaseIgnores(t: Tree, x: Hold, y: Hold, p: Id, m: Mode, off: set<Id>)
    requires p in t.parents && (forall a | a in off :: p < a) && x.lock == y.lock && x.counts - off == y.counts - off
    ensures var (r, s) := (ReleaseShard(t, x, p, m), ReleaseShard(t, y, p, m));
            && (r.Some? <==> s.Some?)
            && (r.Some? ==> r.value.lock == s.value.lock && r.value.counts - off == s.value.counts - off)
    decreases p
  {
    assert p in x.counts <==> p in x.counts - off;
    assert p in y.counts <==> p in y.counts - off;
    assert p in x.counts ==> (x.counts - off)[p] == x.counts[p] == y.counts[p];
    if t.parents[p].Some? {
      var q := t.parents[p].value;
      ReleaseIgnores(t, x, y, q, m, off);
      var (r, s) := (ReleaseShard(t, x, q, m), ReleaseShard(t, y, q, m));
      if p in x.counts && r.Some? { SetOffPath(r.value.counts, s.value.counts, p, Dec(x.counts[p], m), off); }
    } else if p in x.counts {
      SetOffPath(x.counts, y.counts, p, Dec(x.counts[p], m), off);
    }
  }

  lemma SetOffPath(x: map<Id, Counts>, y: map<Id, Counts>, p: Id, c: Counts, off: set<Id>)
    requires x - off == y - off && p !in off
    ensures SetEntry(x, p, c) - off == SetEntry(y, p, c) - off
  {
    assert SetEntry(x, p, c) - off == SetEntry(x - off, p, c);
    assert SetEntry(y, p, c) - off == SetEntry(y - off, p, c);
  }

  /** The state without the entries below `h`. */
  ghost function Strip(t: Tree, hold: Hold, h: Id): Hold {
    hold.(counts := hold.counts - Below(t, h))
  }

  /** That state as it would be if the entry of `h` had followed what it gave back so far. */
  ghost function Settled(t: Tree, hold: Hold, h: Id, left: Counts): Hold {
    hold.(counts := SetEntry(hold.counts - Below(t, h), h, left))
  }

  /** Nothing has happened to the entries below `h`. */
  ghost predicate SameBelow(t: Tree, x: Hold, y: Hold, h: Id) {
    forall a | a in Below(t, h) :: (a in x.counts <==> a in y.counts) && Amount(x.counts, a) == Amount(y.counts, a)
  }

  /** Giving one get back on the parent's side settles like a release by the child itself. */
  lemma GiveBack(t: Tree, hold: Hold, h: Id, left: Counts, m: Mode)
    requires h in t.parents && t.parents[h].Some? && left != Counts(0, 0)
    requires ReleaseShard(t, Settled(t, hold, h, left), h, m).Some?
    ensures var r := ReleaseShard(t, hold, t.parents[h].value, m);
            r.Some? && ReleaseShard(t, Settled(t, hold, h, left), h, m).value == Settled(t, r.value, h, Dec(left, m))
  {
    var p, v, off := t.parents[h].value, Settled(t, hold, h, left), Below(t, h) + {h};
    forall a | a in off ensures p < a { if a in Below(t, h) { BelowIsYounger(t, h, a); } }
    assert v.counts - off == hold.counts - off;
    ReleaseIgnores(t, v, hold, p, m, off);
    var up, r, c := ReleaseShard(t, v, p, m).value, ReleaseShard(t, hold, p, m).value, Dec(left, m);
    forall a | a in Below(t, h) ensures a !in up.counts {
      BelowIsYounger(t, h, a);
      ReleasedCounts(t, v, p, m, a);
      if Under(t, p, a) { UnderIsOlder(t, p, a); }
    }
    assert up.counts - off == up.counts - {h};
    assert r.counts - off == r.counts - Below(t, h) - {h};
    assert SetEntry(up.counts, h, c) == SetEntry(up.counts - {h}, h, c);
    assert SetEntry(r.counts - Below(t, h), h, c) == SetEntry(r.counts - Below(t, h) - {h}, h, c);
  }

  lemma GiveBackSameBelow(t: Tree, hold: Hold, h: Id, m: Mode)
    requires h in t.parents && t.parents[h].Some? && ReleaseShard(t, hold, t.parents[h].value, m).Some?
    ensures SameBelow(t, hold, ReleaseShard(t, hold, t.parents[h].value, m).value, h)
  {
    var p := t.parents[h].value;
    forall a | a in Below(t, h)
      ensures var counts := ReleaseShard(t, hold, p, m).value.counts;
              (a in hold.counts <==> a in counts) && Amount(hold.counts, a) == Amount(counts, a)
    {
      BelowIsYounger(t, h, a);
      ReleasedCounts(t, hold, p, m, a);
      if Under(t, p, a) { UnderIsOlder(t, p, a); }
    }
  }

  /** The account in which what was asked below `h` was asked of `h`. */
  ghost function Lift(t: Tree, tokens: seq<Token>, h: Id): (r: seq<Token>)
    requires Known(t, tokens) && h in t.parents
    ensures Known(t, r) && |r| == |tokens|
  {
    if tokens == [] then []
    else
      var n := |tokens| - 1;
      Lift(t, tokens[..n], h) + [if Under(t, tokens[n].handle, h) then Token(h, tokens[n].mode) else tokens[n]]
  }

  /** Above and beside `h`, paths from below look like paths from `h`. */
  lemma {:induction false} PathThrough(t: Tree, x: Id, h: Id, a: Id)
    requires x in t.parents && h in t.parents && Under(t, x, h) && a !in Below(t, h)
    ensures Under(t, x, a) <==> Under(t, h, a)
    decreases x
  {
    if x != h {
      PathThrough(t, t.parents[x].value, h, a);
      assert x in Below(t, h);
    }
  }

  lemma {:induction false} ThroughLift(t: Tree, tokens: seq<Token>, h: Id, a: Id, m: Mode)
    requires Known(t, tokens) && h in t.parents
    ensures Through(t, Lift(t, tokens, h), a, m) == if a in Below(t, h) then 0 else Through(t, tokens, a, m)
  {
    if tokens != [] {
      var n := |tokens| - 1;
      var x := tokens[n].handle;
      ThroughLift(t, tokens[..n], h, a, m);
      var last := if Under(t, x, h) then Token(h, tokens[n].mode) else tokens[n];
      ThroughSnoc(t, Lift(t, tokens[..n], h), last, a, m);
      if a in Below(t, h) {
        BelowIsYounger(t, h, a);
        if Under(t, x, a) { UnderTransitive(t, x, a, h); }
      } else if Under(t, x, h) {
        PathThrough(t, x, h, a);
      }
    }
  }

  lemma StripDue(t: Tree, hold: Hold, tokens: seq<Token>, h: Id, a: Id)
    requires Sound(t, hold, tokens) && h in t.parents && a in t.parents
    ensures Amount(Strip(t, hold, h).counts, a) == Due(t, Lift(t, tokens, h), a)
  {
    ThroughLift(t, tokens, h, a, Mode.Read);
    ThroughLift(t, tokens, h, a, Mode.Write);
    assert Amount(hold.counts, a) == Due(t, tokens, a);
  }

  /** Without the entries below `h`, the state is in step with the lifted account. */
  lemma StripSound(t: Tree, hold: Hold, tokens: seq<Token>, h: Id)
    requires Sound(t, hold, tokens) && h in t.parents
    ensures Sound(t, Strip(t, hold, h), Lift(t, tokens, h))
  {
    forall a | a in t.parents ensures Amount(Strip(t, hold, h).counts, a) == Due(t, Lift(t, tokens, h), a) {
      StripDue(t, hold, tokens, h, a);
    }
    StripHolders(t, hold.counts, h);
  }

  lemma StripHolders(t: Tree, counts: map<Id, Counts>, h: Id)
    ensures Holders(t, counts - Below(t, h)) == Holders(t, counts)
  {
    forall a | a in t.parents && t.parents[a].None? ensures a !in Below(t, h) {}
  }

  /** Everything asked through `h` is gone, and nothing else. */
  ghost predicate GaveBack(t: Tree, tokens: seq<Token>, now: seq<Token>, h: Id) {
    forall k: Token | k.handle in t.parents ::
      multiset(now)[k] == if Under(t, k.handle, h) then 0 else multiset(tokens)[k]
  }

  lemma {:induction false} LiftBag(t: Tree, tokens: seq<Token>, h: Id, k: Token)
    requires Known(t, tokens) && h in t.parents && k.handle in t.parents && k.handle != h
    ensures multiset(Lift(t, tokens, h))[k] == if Under(t, k.handle, h) then 0 else multiset(tokens)[k]
  {
    if tokens != [] {
      var n := |tokens| - 1;
      assert tokens == tokens[..n] + [tokens[n]];
      LiftBag(t, tokens[..n], h, k);
    }
  }

  lemma LiftGaveBack(t: Tree, tokens: seq<Token>, now: seq<Token>, h: Id)
    requires Known(t, tokens) && h in t.parents && GaveBackAll(Lift(t, tokens, h), now, h)
    ensures GaveBack(t, tokens, now, h)
  {
    forall k: Token | k.handle in t.parents
      ensures multiset(now)[k] == if Under(t, k.handle, h) then 0 else multiset(tokens)[k]
    {
      if k.handle != h { LiftBag(t, tokens, h, k); }
    }
  }

  lemma {:induction false} TokenThrough(t: Tree, tokens: seq<Token>, a: Id, m: Mode) returns (i: nat)
    requires Known(t, tokens) && Through(t, tokens, a, m) > 0
    ensures i < |tokens| && tokens[i].mode == m && Under(t, tokens[i].handle, a)
  {
    var last := tokens[|tokens| - 1];
    if last.mode == m && Under(t, last.handle, a) {
      i := |tokens| - 1;
    } else {
      i := TokenThrough(t, tokens[..|tokens| - 1], a, m);
    }
  }

  /** With nothing below, what goes through a handle was asked of it. */
  lemma OwnToken(t: Tree, hold: Hold, tokens: seq<Token>, h: Id, m: Mode) returns (i: nat)
    requires Sound(t, hold, tokens) && h in hold.counts && NothingBelow(t, hold, h) && Through(t, tokens, h, m) > 0
    ensures i < |tokens| && tokens[i] == Token(h, m)
  {
    i := TokenThrough(t, tokens, h, m);
    var a := tokens[i].handle;
    DueAfterRelease(t, tokens, i, a);
    assert Under(t, a, a) && Amount(hold.counts, a) == Due(t, tokens, a);
    assert a in hold.counts;
  }

  lemma WithoutBag(tokens: seq<Token>, i: nat)
    requires i < |tokens|
    ensures multiset(Without(tokens, i)) == multiset(tokens) - multiset{tokens[i]}
  {
    assert tokens == tokens[..i] + [tokens[i]] + tokens[i + 1..];
  }

  /** The same gets are outstanding as before, except some of `h`. */
  ghost predicate OnlyLess(tokens: seq<Token>, now: seq<Token>, h: Id) {
    forall k: Token | k.handle != h :: multiset(now)[k] == multiset(tokens)[k]
  }

  ghost predicate Clearing(t: Tree, hold: Hold, h: Id, left: Counts, tokens: seq<Token>) {
    && h in t.parents && t.parents[h].Some?
    && Sound(t, Settled(t, hold, h, left), tokens)
  }

  lemma SettledBare(t: Tree, hold: Hold, h: Id, left: Counts)
    ensures NothingBelow(t, Settled(t, hold, h, left), h)
  {
  }

  /** One get of the child's goes back to the parent. */
  lemma ClearStep(t: Tree, hold: Hold, h: Id, left: Counts, tokens: seq<Token>, m: Mode) returns (rest: seq<Token>)
    requires Clearing(t, hold, h, left, tokens) && (if m.Write? then left.writers > 0 else left.readers > 0)
    ensures var r := ReleaseShard(t, hold, t.parents[h].value, m);
            r.Some? && Clearing(t, r.value, h, Dec(left, m), rest) && SameBelow(t, hold, r.value, h)
    ensures OnlyLess(tokens, rest, h)
  {
    var v := Settled(t, hold, h, left);
    SettledBare(t, hold, h, left);
    assert h in v.counts && Amount(v.counts, h) == Due(t, tokens, h);
    var i := OwnToken(t, v, tokens, h, m);
    ReleaseKeepsSound(t, v, tokens, i);
    GiveBack(t, hold, h, left, m);
    GiveBackSameBelow(t, hold, h, m);
    rest := Without(tokens, i);
    WithoutBag(tokens, i);
  }

  /** At the end every token of the handle is gone, and no other. */
  ghost predicate GaveBackAll(tokens: seq<Token>, now: seq<Token>, h: Id) {
    forall k: Token :: multiset(now)[k] == if k.handle == h then 0 else multiset(tokens)[k]
  }

  lemma {:induction false} NothingThrough(t: Tree, tokens: seq<Token>, h: Id, i: nat)
    requires Known(t, tokens) && i < |tokens| && tokens[i].handle == h
    ensures Due(t, tokens, h) != Counts(0, 0)
  {
    ThroughWithout(t, tokens, i, h, tokens[i].mode);
  }

  lemma AllGivenBack(t: Tree, hold: Hold, h: Id, tokens: seq<Token>, now: seq<Token>)
    requires h in t.parents && Sound(t, hold, now) && h !in hold.counts && OnlyLess(tokens, now, h)
    ensures GaveBackAll(tokens, now, h)
  {
    assert Amount(hold.counts, h) == Due(t, now, h);
    forall k: Token | k.handle == h ensures k !in multiset(now) {
      if k in multiset(now) {
        var i :| 0 <= i < |now| && now[i] == k;
        NothingThrough(t, now, h, i);
      }
    }
  }

  lemma DecIsMinus(c: Counts, m: Mode)
    requires 0 < CountIn(c, m) < COUNT_SPACE
    ensures Dec(c, m) == if m.Write? then c.(writers := c.writers - 1) else c.(readers := c.readers - 1)
  {
  }

  /** One of the two loops of `clear`: all counts of one mode go back to the parent. */
  method GiveBackAll(t: Tree, hold: Hold, h: Id, counts: Counts, m: Mode, ghost tokens: seq<Token>)
    returns (r: Hold, left: Counts, ghost now: seq<Token>)
    requires Clearing(t, hold, h, counts, tokens) && counts.readers < COUNT_SPACE && counts.writers < COUNT_SPACE
    ensures Clearing(t, r, h, left, now) && OnlyLess(tokens, now, h) && SameBelow(t, hold, r, h)
    ensures left == if m.Write? then counts.(writers := 0) else counts.(readers := 0)
  {
    r, left, now := hold, counts, tokens;
    while CountIn(left, m) > 0
      invariant Clearing(t, r, h, left, now) && OnlyLess(tokens, now, h) && SameBelow(t, hold, r, h)
      invariant left.readers <= counts.readers && left.writers <= counts.writers
      invariant if m.Write? then left.readers == counts.readers else left.writers == counts.writers
      decreases CountIn(left, m)
    {
      now := ClearStep(t, r, h, left, now, m);
      DecIsMinus(left, m);
      r, left := ReleaseShard(t, r, t.parents[h].value, m).value, Dec(left, m);
    }
  }

  lemma ClearStarts(t: Tree, hold: Hold, h: Id, tokens: seq<Token>)
    requires Sound(t, hold, tokens) && h in hold.counts && t.parents[h].Some?
    ensures Clearing(t, hold, h, hold.counts[h], Lift(t, tokens, h))
    ensures hold.counts[h].readers < COUNT_SPACE && hold.counts[h].writers < COUNT_SPACE
  {
    StripSound(t, hold, tokens, h);
    assert Settled(t, hold, h, hold.counts[h]) == Strip(t, hold, h);
    assert Amount(hold.counts, h) == Due(t, tokens, h);
    ThroughIsFew(t, tokens, h, Mode.Read);
    ThroughIsFew(t, tokens, h, Mode.Write);
  }

  /**
   The part of `clear` for one shard of a child: count by count back to the parent, then the entry
   goes.  Everything asked through the child is given back; entries below it stay behind.
   */
  method ClearChild(t: Tree, hold: Hold, h: Id, ghost tokens: seq<Token>) returns (r: Hold, ghost now: seq<Token>)
    requires Sound(t, hold, tokens) && h in hold.counts && t.parents[h].Some?
    ensures Sound(t, Strip(t, r, h), now) && h !in r.counts && GaveBack(t, tokens, now, h) && SameBelow(t, hold, r, h)
  {
    ClearStarts(t, hold, h, tokens);
    var left;
    ghost var between;
    r, left, between := GiveBackAll(t, hold, h, hold.counts[h], Mode.Read, Lift(t, tokens, h));
    r, left, now := GiveBackAll(t, r, h, left, Mode.Write, between);
    ChildCleared(t, r, h, tokens, now);
    r := Hold(r.lock, r.counts - {h});
  }

  lemma ChildCleared(t: Tree, hold: Hold, h: Id, tokens: seq<Token>, now: seq<Token>)
    requires Known(t, tokens) && Clearing(t, hold, h, Counts(0, 0), now) && OnlyLess(Lift(t, tokens, h), now, h)
    ensures var r := Hold(hold.lock, hold.counts - {h});
            Sound(t, Strip(t, r, h), now) && GaveBack(t, tokens, now, h) && SameBelow(t, hold, r, h)
  {
    var r := Hold(hold.lock, hold.counts - {h});
    assert Strip(t, r, h) == Settled(t, hold, h, Counts(0, 0));
    AllGivenBack(t, Strip(t, r, h), h, Lift(t, tokens, h), now);
    LiftGaveBack(t, tokens, now, h);
  }

  /** The part of `clear` for one shard of a root: one unlock, then the entry goes. */
  function ClearRoot(hold: Hold, h: Id): Hold {
    Hold(Drop(hold.lock), hold.counts - {h})
  }

  /** One unlock for a root gives back everything asked through its tree; entries below it stay behind. */
  lemma ClearRootSound(t: Tree, hold: Hold, h: Id, tokens: seq<Token>)
    requires Sound(t, hold, tokens) && h in hold.counts && t.parents[h].None?
    ensures Sound(t, Strip(t, ClearRoot(hold, h), h), Others(t, Lift(t, tokens, h), h))
    ensures GaveBack(t, tokens, Others(t, Lift(t, tokens, h), h), h)
  {
    var bare, lifted := Strip(t, hold, h), Lift(t, tokens, h);
    StripSound(t, hold, tokens, h);
    SettledRoot(t, hold, h);
    BareRootSound(t, bare, h, lifted);
    ClearRootGivesBack(t, bare, h, lifted);
    LiftGaveBack(t, tokens, Others(t, lifted, h), h);
  }

  lemma SettledRoot(t: Tree, hold: Hold, h: Id)
    ensures Strip(t, ClearRoot(hold, h), h) == ClearRoot(Strip(t, hold, h), h) && NothingBelow(t, Strip(t, hold, h), h)
    ensures SameBelow(t, hold, ClearRoot(hold, h), h)
    ensures h in hold.counts ==> h in Strip(t, hold, h).counts
  {
    assert hold.counts - {h} - Below(t, h) == hold.counts - Below(t, h) - {h};
  }

  lemma BareRootSound(t: Tree, hold: Hold, h: Id, tokens: seq<Token>)
    requires Sound(t, hold, tokens) && h in hold.counts && t.parents[h].None? && NothingBelow(t, hold, h)
    ensures Sound(t, ClearRoot(hold, h), Others(t, tokens, h))
  {
    var r := ClearRoot(hold, h);
    forall a | a in t.parents ensures Amount(r.counts, a) == Due(t, Others(t, tokens, h), a) {
      ClearedAmount(t, hold, h, tokens, a);
    }
    ClearRootAgrees(t, hold, h, tokens);
  }

  lemma ClearedAmount(t: Tree, hold: Hold, h: Id, tokens: seq<Token>, a: Id)
    requires Sound(t, hold, tokens) && h in hold.counts && t.parents[h].None? && NothingBelow(t, hold, h) && a in t.parents
    ensures Amount(hold.counts - {h}, a) == Due(t, Others(t, tokens, h), a)
  {
    ThroughOthers(t, tokens, h, a, Mode.Read);
    ThroughOthers(t, tokens, h, a, Mode.Write);
    assert Amount(hold.counts, a) == Due(t, tokens, a);
    OneRoot(t, a, h);
  }

  lemma ClearRootAgrees(t: Tree, hold: Hold, h: Id, tokens: seq<Token>)
    requires Sound(t, hold, tokens) && h in hold.counts && t.parents[h].None?
    ensures Agrees(Drop(hold.lock), Holders(t, hold.counts - {h}))
  {
    HoldersAfter(t, hold.counts, hold.counts - {h}, h);
    DropAgrees(hold.lock, Holders(t, hold.counts), h);
  }

  lemma {:induction false} OthersBag(t: Tree, tokens: seq<Token>, h: Id)
    requires Known(t, tokens) && h in t.parents && t.parents[h].None?
    requires forall i | 0 <= i < |tokens| && RootOf(t, tokens[i].handle) == h :: tokens[i].handle == h
    ensures GaveBackAll(tokens, Others(t, tokens, h), h)
  {
    if tokens != [] {
      var n := |tokens| - 1;
      assert tokens == tokens[..n] + [tokens[n]];
      OthersBag(t, tokens[..n], h);
    }
  }

  /** With nothing below a root, all gets outstanding in its tree were asked of it. */
  lemma ClearRootGivesBack(t: Tree, hold: Hold, h: Id, tokens: seq<Token>)
    requires Sound(t, hold, tokens) && h in hold.counts && t.parents[h].None? && NothingBelow(t, hold, h)
    ensures GaveBackAll(tokens, Others(t, tokens, h), h)
  {
    forall i | 0 <= i < |tokens| && RootOf(t, tokens[i].handle) == h ensures tokens[i].handle == h {
      var a := tokens[i].handle;
      NothingThrough(t, tokens, a, i);
      assert Amount(hold.counts, a) == Due(t, tokens, a);
      OneRoot(t, a, h);
    }
    OthersBag(t, tokens, h);
  }

  /**
   What clearing `h` does to one shard: the entries below `h` stay as they were; without them, all
   is in step with exactly the gets that did not go through `h`.
   */
  ghost predicate Cleared(t: Tree, hold: Hold, tokens: seq<Token>, r: Hold, now: seq<Token>, h: Id)
    requires h in t.parents
  {
    && h !in r.counts && SameBelow(t, hold, r, h)
    && GaveBack(t, tokens, now, h) && Sound(t, Strip(t, r, h), now)
  }

  /** `clear` on one shard. */
  method ClearShard(t: Tree, hold: Hold, h: Id, ghost tokens: seq<Token>) returns (r: Hold, ghost now: seq<Token>)
    requires Sound(t, hold, tokens) && h in t.parents
    ensures Cleared(t, hold, tokens, r, now, h)
  {
    r, now := hold, tokens;
    if h !in hold.counts {
      NoEntryNoTokens(t, hold, h, tokens);
    } else if t.parents[h].Some? {
      r, now := ClearChild(t, hold, h, tokens);
    } else {
      ClearRootSound(t, hold, h, tokens);
      SettledRoot(t, hold, h);
      r, now := ClearRoot(hold, h), Others(t, Lift(t, tokens, h), h);
    }
  }

  lemma NoEntryNoTokens(t: Tree, hold: Hold, h: Id, tokens: seq<Token>)
    requires Sound(t, hold, tokens) && h in t.parents && h !in hold.counts
    ensures Strip(t, hold, h) == hold && GaveBack(t, tokens, tokens, h)
  {
    forall a | a in hold.counts ensures a !in Below(t, h) {
      if a in Below(t, h) { EntryAbove(t, hold, tokens, a, h); }
    }
    assert Amount(hold.counts, h) == Due(t, tokens, h);
    forall k: Token | k.handle in t.parents && Under(t, k.handle, h) ensures k !in multiset(tokens) {
      if k in multiset(tokens) {
        var i :| 0 <= i < |tokens| && tokens[i] == k;
        ThroughWithout(t, tokens, i, h, k.mode);
      }
    }
  }

  /** The shard is in step after the clear if and only if nothing below has an entry. */
  lemma ClearedSoundIff(t: Tree, hold: Hold, tokens: seq<Token>, r: Hold, now: seq<Token>, h: Id, other: seq<Token>)
    requires h in t.parents && Cleared(t, hold, tokens, r, now, h)
    ensures NothingBelow(t, hold, h) ==> Sound(t, r, now)
    ensures !NothingBelow(t, hold, h) ==> !Sound(t, r, other)
  {
    if NothingBelow(t, hold, h) {
      assert Strip(t, r, h) == r;
    } else {
      var a :| a in hold.counts && a in Below(t, h);
      if Sound(t, r, other) { EntryAbove(t, r, other, a, h); }
    }
  }

  // -------------------------------------------------------------------------- new handles

  lemma {:induction false} UnderGrows(t: Tree, u: Tree, h: Id, a: Id)
    requires h in t.parents && forall k | k in t.parents :: k in u.parents && u.parents[k] == t.parents[k]
    ensures Under(u, h, a) <==> Under(t, h, a)
    decreases h
  {
    if t.parents[h].Some? { UnderGrows(t, u, t.parents[h].value, a); }
  }

  lemma {:induction false} ThroughGrows(t: Tree, u: Tree, tokens: seq<Token>, a: Id, m: Mode)
    requires Known(t, tokens) && forall k | k in t.parents :: k in u.parents && u.parents[k] == t.parents[k]
    ensures Known(u, tokens) && Through(u, tokens, a, m) == Through(t, tokens, a, m)
    ensures a !in t.parents ==> Through(t, tokens, a, m) == 0
  {
    if tokens != [] {
      var last := tokens[|tokens| - 1];
      ThroughGrows(t, u, tokens[..|tokens| - 1], a, m);
      UnderGrows(t, u, last.handle, a);
      if Under(t, last.handle, a) { UnderIsOlder(t, last.handle, a); }
    }
  }

  lemma NewHandleDue(t: Tree, u: Tree, hold: Hold, tokens: seq<Token>, h: Id, parent: Option<Id>, a: Id)
    requires Sound(t, hold, tokens) && h !in t.parents && u.parents == t.parents[h := parent] && a in u.parents
    ensures Known(u, tokens) && Amount(hold.counts, a) == Due(u, tokens, a)
  {
    ThroughGrows(t, u, tokens, a, Mode.Read);
    ThroughGrows(t, u, tokens, a, Mode.Write);
    assert Due(u, tokens, a) == Due(t, tokens, a);
  }

  /** A new handle starts with nothing and disturbs no one. */
  lemma NewHandleSound(t: Tree, u: Tree, hold: Hold, tokens: seq<Token>, h: Id, parent: Option<Id>)
    requires Sound(t, hold, tokens) && h !in t.parents && u.parents == t.parents[h := parent]
    ensures Sound(u, hold, tokens)
  {
    NewHandleDue(t, u, hold, tokens, h, parent, h);
    forall a | a in u.parents ensures Amount(hold.counts, a) == Due(u, tokens, a) {
      NewHandleDue(t, u, hold, tokens, h, parent, a);
    }
    NewHandleHolders(t, u, hold.counts, h, parent);
  }

  lemma NewHandleHolders(t: Tree, u: Tree, counts: map<Id, Counts>, h: Id, parent: Option<Id>)
    requires h !in t.parents && u.parents == t.parents[h := parent] && counts.Keys <= t.parents.Keys
    ensures Holders(u, counts) == Holders(t, counts)
  {
  }

  /** The account of outstanding gets after a get; after a harmful refusal it is left as it was. */
  ghost function AfterGet(t: Tree, hold: Hold, tokens: seq<Token>, h: Id, m: Mode, o: Outcome): seq<Token>
    requires h in t.parents && Sound(t, hold, tokens)
  {
    match o
    case Got => tokens + [Token(h, m)]
    case Waits => tokens
    case WouldBlock => if RootOf(t, h) in hold.counts && !HeldOffPath(t, hold, h) then Others(t, tokens, RootOf(t, h)) else tokens
  }

  /** A get that does damage: a refused upgrade on a shard that a handle off the path has an entry for. */
  ghost predicate Harmful(t: Tree, hold: Hold, h: Id, o: Outcome)
    requires h in t.parents
  {
    o.WouldBlock? && RootOf(t, h) in hold.counts && HeldOffPath(t, hold, h)
  }

  /** Every outcome of a get, and the account of outstanding gets that goes with it. */
  lemma GetSoundIff(t: Tree, hold: Hold, tokens: seq<Token>, h: Id, m: Mode, nonblocking: bool)
    requires Sound(t, hold, tokens) && h in t.parents
    ensures var (r, o) := GetShard(t, hold, h, m, nonblocking);
            && (Sound(t, r, AfterGet(t, hold, tokens, h, m, o)) <==>
                !Harmful(t, hold, h, o) && (o.Got? ==> |tokens| + 1 < COUNT_SPACE))
            && (o.Waits? || (o.WouldBlock? && RootOf(t, h) !in hold.counts) ==> r == hold)
  {
    var (r, o) := GetShard(t, hold, h, m, nonblocking);
    if o.Got? {
      if |tokens| + 1 < COUNT_SPACE { GetKeepsSound(t, hold, tokens, h, m, nonblocking); }
    } else if o.Waits? {
      WaitChangesNothing(t, hold, h, m, nonblocking);
    } else if RootOf(t, h) !in hold.counts {
      BlockedHarmless(t, hold, tokens, h, m, nonblocking);
    } else if !HeldOffPath(t, hold, h) {
      RefusedUpgradeSound(t, hold, tokens, h, m, nonblocking);
    } else {
      RefusedUpgradeUnsound(t, hold, tokens, h, m, nonblocking, tokens);
    }
  }

  ghost predicate AllSound(t: Tree, holds: seq<Hold>, tokens: seq<seq<Token>>) {
    && |holds| == |tokens| == NUM_SHARDS
    && forall s {:trigger Sound(t, holds[s], tokens[s])} | 0 <= s < NUM_SHARDS :: Sound(t, holds[s], tokens[s])
  }

  lemma AllSoundAt(t: Tree, holds: seq<Hold>, tokens: seq<seq<Token>>, s: ShardId)
    requires AllSound(t, holds, tokens)
    ensures Sound(t, holds[s], tokens[s])
  {
  }

  /** All shards are in step after a change of one exactly when that one is. */
  lemma OneShardChanges(t: Tree, holds: seq<Hold>, tokens: seq<seq<Token>>, s: ShardId, r: Hold, now: seq<Token>)
    requires AllSound(t, holds, tokens)
    ensures AllSound(t, holds[s := r], tokens[s := now]) <==> Sound(t, r, now)
  {
    var holds', tokens' := holds[s := r], tokens[s := now];
    if AllSound(t, holds', tokens') { AllSoundAt(t, holds', tokens', s); }
    if Sound(t, r, now) {
      forall k | 0 <= k < NUM_SHARDS ensures Sound(t, holds'[k], tokens'[k]) { AllSoundAt(t, holds, tokens, k); }
    }
  }

  lemma NewHandleAllSound(t: Tree, u: Tree, holds: seq<Hold>, tokens: seq<seq<Token>>, h: Id, parent: Option<Id>)
    requires AllSound(t, holds, tokens) && h !in t.parents && u.parents == t.parents[h := parent]
    ensures AllSound(u, holds, tokens)
  {
    forall s | 0 <= s < NUM_SHARDS ensures Sound(u, holds[s], tokens[s]) {
      AllSoundAt(t, holds, tokens, s);
      NewHandleSound(t, u, holds[s], tokens[s], h, parent);
    }
  }

  lemma EmptySound()
    ensures Sound(Tree(map[], {}), Hold(Free, map[]), [])
  {
  }

  // ----------------------------------------------------------------------------- the object

  /** All handles on all shards. */
  class LockTable {
    var tree: Tree
    var holds: seq<Hold>                  // by shard
    ghost var tokens: seq<seq<Token>>     // the gets outstanding on each shard

    ghost predicate Valid()
      reads this
    {
      AllSound(tree, holds, tokens)
    }

    constructor ()
      ensures Valid() && tree == Tree(map[], {})
      ensures forall s | 0 <= s < NUM_SHARDS :: holds[s] == Hold(Free, map[]) && tokens[s] == []
    {
      tree := Tree(map[], {});
      holds := seq(NUM_SHARDS, _ => Hold(Free, map[]));
      tokens := seq(NUM_SHARDS, _ => []);
      EmptySound();
    }

    method NewHandle(h: Id, parent: Option<Id>, nonblocking: bool)
      requires Valid() && h !in tree.parents && (parent.Some? ==> parent.value in tree.parents && parent.value < h)
      modifies this
      ensures Valid() && holds == old(holds) && tokens == old(tokens)
      ensures tree == Tree(old(tree.parents)[h := parent], old(tree.nonblocking) + if nonblocking then {h} else {})
    {
      var u := Tree(tree.parents[h := parent], tree.nonblocking + if nonblocking then {h} else {});
      NewHandleAllSound(tree, u, holds, tokens, h, parent);
      tree := u;
    }

    /**
     `get_shard`: all is in step afterwards, unless it is a refused upgrade on a shard that
     another handle of the tree, off the path, has an entry for, or the counts are full.
     */
    method Get(h: Id, s: ShardId, m: Mode, nonblocking: bool) returns (o: Outcome)
      requires Valid() && h in tree.parents
      modifies this
      ensures tree == old(tree) && |holds| == |tokens| == NUM_SHARDS
      ensures holds == old(holds)[s := GetShard(tree, old(holds)[s], h, m, nonblocking).0]
      ensures o == GetShard(tree, old(holds)[s], h, m, nonblocking).1 && IsOutcome(tree, old(holds)[s], h, m, nonblocking, o)
      ensures tokens == old(tokens)[s := AfterGet(tree, old(holds)[s], old(tokens)[s], h, m, o)]
      ensures Valid() <==> !Harmful(tree, old(holds)[s], h, o) && (o.Got? ==> |old(tokens)[s]| + 1 < COUNT_SPACE)
      ensures o.Waits? || (o.WouldBlock? && RootOf(tree, h) !in old(holds)[s].counts) ==> holds == old(holds)
    {
      var (r, outcome) := GetShard(tree, holds[s], h, m, nonblocking);
      AllSoundAt(tree, holds, tokens, s);
      GetSoundIff(tree, holds[s], tokens[s], h, m, nonblocking);
      ghost var now := AfterGet(tree, holds[s], tokens[s], h, m, outcome);
      OneShardChanges(tree, holds, tokens, s, r, now);
      GetOutcome(tree, holds[s], h, m, nonblocking);
      holds, tokens, o := holds[s := r], tokens[s := now], outcome;
    }

    /**
     `release_shard`: an entry that does not exist is refused; otherwise all is in step afterwards
     exactly when such a get was outstanding, and after any other release no account fits.
     */
    method Release(h: Id, s: ShardId, m: Mode) returns (ok: bool)
      requires Valid() && h in tree.parents
      modifies this
      ensures tree == old(tree) && ok == (h in old(holds)[s].counts) && |holds| == |tokens| == NUM_SHARDS
      ensures !ok ==> Valid() && holds == old(holds) && tokens == old(tokens)
      ensures ok ==> holds == old(holds)[s := holds[s]] && tokens == old(tokens)[s := tokens[s]]
      ensures ok ==> Released(tree, old(holds)[s], old(tokens)[s], h, m, holds[s], tokens[s])
      ensures ok ==> (Valid() <==> Token(h, m) in old(tokens)[s])
    {
      if h !in holds[s].counts {
        return false;
      }
      ok := true;
      AllSoundAt(tree, holds, tokens, s);
      ghost var now := AfterRelease(tree, holds[s], tokens[s], h, m);
      var r := ReleaseShard(tree, holds[s], h, m).value;
      OneShardChanges(tree, holds, tokens, s, r, now);
      holds, tokens := holds[s := r], tokens[s := now];
    }

    /**
     `clear`, which is also the destructor: the handle has no entry left, exactly what was asked
     through it is given back on every shard, and everyone it asked through still counts the rest.
     All is in step afterwards if and only if no handle below had an entry.
     */
    method Clear(h: Id)
      requires Valid() && h in tree.parents
      modifies this
      ensures tree == old(tree) && ClearedTo(tree, old(holds), old(tokens), holds, tokens, h, NUM_SHARDS)
      ensures Valid() <==> forall s: ShardId :: NothingBelow(tree, old(holds)[s], h)
    {
      holds, tokens := ClearAll(tree, holds, h, tokens);
      AllClearedIff(tree, old(holds), old(tokens), holds, tokens, h);
    }
  }

  /** The first `n` shards are cleared of `h`, the others are as they were. */
  ghost predicate ClearedTo(t: Tree, holds: seq<Hold>, tokens: seq<seq<Token>>, holds': seq<Hold>, tokens': seq<seq<Token>>, h: Id, n: nat) {
    && |holds| == |tokens| == |holds'| == |tokens'| == NUM_SHARDS && h in t.parents
    && (forall s: ShardId | s < n :: Cleared(t, holds[s], tokens[s], holds'[s], tokens'[s], h))
    && (forall s: ShardId | n <= s :: holds'[s] == holds[s] && tokens'[s] == tokens[s])
  }

  lemma ClearedOne(t: Tree, holds: seq<Hold>, tokens: seq<seq<Token>>, holds': seq<Hold>, tokens': seq<seq<Token>>,
                   h: Id, s: ShardId, r: Hold, now: seq<Token>)
    requires ClearedTo(t, holds, tokens, holds', tokens', h, s) && Cleared(t, holds'[s], tokens'[s], r, now, h)
    ensures ClearedTo(t, holds, tokens, holds'[s := r], tokens'[s := now], h, s + 1)
  {
  }

  method ClearAll(t: Tree, holds: seq<Hold>, h: Id, ghost tokens: seq<seq<Token>>) returns (rs: seq<Hold>, ghost now: seq<seq<Token>>)
    requires AllSound(t, holds, tokens) && h in t.parents
    ensures ClearedTo(t, holds, tokens, rs, now, h, NUM_SHARDS)
  {
    rs, now := holds, tokens;
    for s := 0 to NUM_SHARDS
      invariant ClearedTo(t, holds, tokens, rs, now, h, s)
    {
      AllSoundAt(t, holds, tokens, s);
      var r;
      ghost var left;
      r, left := ClearShard(t, rs[s], h, now[s]);
      ClearedOne(t, holds, tokens, rs, now, h, s, r, left);
      rs, now := rs[s := r], now[s := left];
    }
  }

  lemma AllClearedIff(t: Tree, holds: seq<Hold>, tokens: seq<seq<Token>>, holds': seq<Hold>, tokens': seq<seq<Token>>, h: Id)
    requires ClearedTo(t, holds, tokens, holds', tokens', h, NUM_SHARDS)
    ensures AllSound(t, holds', tokens') <==> forall s: ShardId :: NothingBelow(t, holds[s], h)
  {
    forall s: ShardId ensures Sound(t, holds'[s], tokens'[s]) <==> NothingBelow(t, holds[s], h) {
      ClearedSoundIff(t, holds[s], tokens[s], holds'[s], tokens'[s], h, tokens'[s]);
    }
    if AllSound(t, holds', tokens') {
      forall s: ShardId ensures NothingBelow(t, holds[s], h) { AllSoundAt(t, holds', tokens', s); }
    }
  }

  // --------------------------------------------------------------------------- an example

  /** Handle 0 with children 1 and 2, and handle 3 on its own. */
  function Family(): Tree {
    Tree(map[0 := None, 1 := Some(0), 2 := Some(0), 3 := None], {})
  }

  /** The shard after 1, 2 and 3 were given it for reading. */
  function ThreeReaders(): Hold {
    Hold(Readers(2), map[0 := Counts(2, 0), 1 := Counts(1, 0), 2 := Counts(1, 0), 3 := Counts(1, 0)])
  }

  function OneReader(): Hold { Hold(Readers(1), map[0 := Counts(1, 0), 1 := Counts(1, 0)]) }

  function TwoReaders(): Hold { Hold(Readers(1), map[0 := Counts(2, 0), 1 := Counts(1, 0), 2 := Counts(1, 0)]) }

  lemma ReadersInTurn()
    ensures GetShard(Family(), Hold(Free, map[]), 1, Mode.Read, true) == (OneReader(), Got)
    ensures GetShard(Family(), OneReader(), 2, Mode.Read, true) == (TwoReaders(), Got)
    ensures GetShard(Family(), TwoReaders(), 3, Mode.Read, true) == (ThreeReaders(), Got)
  {
    assert GetShard(Family(), OneReader(), 0, Mode.Read, true).0.counts == map[0 := Counts(2, 0), 1 := Counts(1, 0)];
    assert GetShard(Family(), OneReader(), 2, Mode.Read, true).0.counts == TwoReaders().counts;
  }

  lemma SiblingRefused()
    ensures var t := Family();
            && GetShard(t, ThreeReaders(), 1, Mode.Write, true).1.WouldBlock?
            && RootOf(t, 1) in ThreeReaders().counts && HeldOffPath(t, ThreeReaders(), 1)
  {
    var t := Family();
    assert RootOf(t, 1) == 0 && RootOf(t, 2) == 0 && !Under(t, 1, 2);
  }

  lemma SiblingNoAccount(tokens: seq<Token>)
    requires Sound(Family(), ThreeReaders(), tokens)
    ensures NoAccount(Family(), GetShard(Family(), ThreeReaders(), 1, Mode.Write, true).0)
  {
    SiblingRefused();
    forall other ensures !Sound(Family(), GetShard(Family(), ThreeReaders(), 1, Mode.Write, true).0, other) {
      RefusedUpgradeUnsound(Family(), ThreeReaders(), tokens, 1, Mode.Write, true, other);
    }
  }

  method FamilyTable() returns (table: LockTable)
    ensures fresh(table) && table.Valid() && table.tree == Family() && table.holds[0] == Hold(Free, map[]) && table.tokens[0] == []
  {
    table := ParentAndChild();
    table.NewHandle(2, Some(0), false);
    table.NewHandle(3, None, false);
  }

  method ParentAndChild() returns (table: LockTable)
    ensures fresh(table) && table.Valid() && table.tree == Tree(map[0 := None, 1 := Some(0)], {})
    ensures table.holds[0] == Hold(Free, map[]) && table.tokens[0] == []
  {
    table := new LockTable();
    table.NewHandle(0, None, false);
    table.NewHandle(1, Some(0), false);
  }

  method FamilyRead(table: LockTable, h: Id, ghost next: Hold)
    requires table.Valid() && table.tree == Family() && h in Family().parents && |table.tokens[0]| + 1 < COUNT_SPACE
    requires GetShard(Family(), table.holds[0], h, Mode.Read, true) == (next, Got)
    modifies table
    ensures table.Valid() && table.tree == Family() && table.holds[0] == next && |table.tokens[0]| == |old(table.tokens[0])| + 1
  {
    var o := table.Get(h, 0, Mode.Read, true);
  }

  method FamilyReads() returns (table: LockTable)
    ensures fresh(table) && table.Valid() && table.tree == Family() && table.holds[0] == ThreeReaders()
  {
    table := FamilyTable();
    ReadersInTurn();
    FamilyRead(table, 1, OneReader());
    FamilyRead(table, 2, TwoReaders());
    FamilyRead(table, 3, ThreeReaders());
  }

  /** Two children of one handle and a stranger read; one child asks to write, and nothing fits any more. */
  method SiblingUpgrade() returns (table: LockTable)
    ensures !table.Valid() && |table.holds| == NUM_SHARDS && NoAccount(table.tree, table.holds[0])
  {
    table := FamilyReads();
    AllSoundAt(table.tree, table.holds, table.tokens, 0);
    SiblingNoAccount(table.tokens[0]);
    SiblingRefused();
    var o := table.Get(1, 0, Mode.Write, true);
  }
}
