/**
 How a serializable transaction validates a query: it runs the query again and strikes the
 answers off the set of event ids it recorded.

 The source keeps that set in a `std::set` ordered by an order that leaves ids of different
 shards unrelated.  Such a set takes unrelated ids for equal: it keeps no id of a shard other
 than that of the first one, and striking off an id of another shard strikes off everything.
 */
module FindValidation {
  import opened EventLog

  // ------------------------------------------------------------------- the query's answers

  /** Does the live document under the key match? */
  predicate IsAnswer(env: Env, shards: Shards, c: string, q: string, k: string) {
    var e := Current(shards[env.shardOf(Obj(c, k))], Obj(c, k));
    e.Some? && env.matches(q, e.value.fields)
  }

  function AnswerId(env: Env, shards: Shards, c: string, k: string): EventId
    requires Current(shards[env.shardOf(Obj(c, k))], Obj(c, k)).Some?
  {
    EventId(env.shardOf(Obj(c, k)), shards[env.shardOf(Obj(c, k))].latest[Obj(c, k)])
  }

  /** The ids of the answers, in the order of the keys. */
  function ListAnswers(env: Env, shards: Shards, c: string, q: string, order: seq<string>): seq<EventId> {
    if order == [] then []
    else if IsAnswer(env, shards, c, q, order[0]) then
      [AnswerId(env, shards, c, order[0])] + ListAnswers(env, shards, c, q, order[1..])
    else ListAnswers(env, shards, c, q, order[1..])
  }

  /** The keys are a possible order for the query to list its answers: each answer once. */
  predicate Complete(env: Env, shards: Shards, c: string, q: string, order: seq<string>) {
    && (forall i, j | 0 <= i < j < |order| :: order[i] != order[j])
    && (forall s: ShardId :: forall o | o in shards[s].latest :: o.collection == c && IsAnswer(env, shards, c, q, o.key) ==> o.key in order)
  }

  /** The ids of all answers. */
  ghost function Answers(env: Env, shards: Shards, c: string, q: string, order: seq<string>): set<EventId> {
    set k | k in order && IsAnswer(env, shards, c, q, k) :: AnswerId(env, shards, c, k)
  }

  lemma CompleteCovers(env: Env, shards: Shards, c: string, q: string, order: seq<string>, k: string)
    requires Complete(env, shards, c, q, order) && IsAnswer(env, shards, c, q, k)
    ensures k in order && AnswerId(env, shards, c, k) in Answers(env, shards, c, q, order)
  {
    var s: ShardId, o := env.shardOf(Obj(c, k)), Obj(c, k);
    assert o in shards[s].latest;
  }

  // ------------------------------------------------------------------ striking them off

  /** `operator<` on ids. */
  predicate Older(a: EventId, b: EventId) {
    a.shard == b.shard && Before(a.pos, b.pos)
  }

  /** What an ordered set takes for equal. */
  predicate Equivalent(a: EventId, b: EventId) {
    !Older(a, b) && !Older(b, a)
  }

  /** `emplace`, one id after another. */
  function EidSet(recorded: seq<EventId>): set<EventId> {
    if recorded == [] then {}
    else
      var before, id := EidSet(recorded[..|recorded| - 1]), recorded[|recorded| - 1];
      if exists e | e in before :: Equivalent(e, id) then before else before + {id}
  }

  /** The elements `erase` removes. */
  function Erased(eids: set<EventId>, id: EventId): set<EventId> {
    set e | e in eids && Equivalent(e, id)
  }

  /** Each answer must strike something off, and nothing may be left. */
  predicate StrikesOff(eids: set<EventId>, answers: seq<EventId>) {
    if answers == [] then eids == {}
    else Erased(eids, answers[0]) != {} && StrikesOff(eids - Erased(eids, answers[0]), answers[1..])
  }

  /** `validate_no_phantom`, for recorded ids and the answers in the order they come. */
  predicate NoPhantom(recorded: seq<EventId>, answers: seq<EventId>) {
    StrikesOff(EidSet(recorded), answers)
  }

  // -------------------------------------------------------------- when it is what it says

  ghost predicate InShard(ids: set<EventId>, s: ShardId) {
    forall e | e in ids :: e.shard == s
  }

  /** Only ids of the first one's shard are kept. */
  lemma {:induction false} EidSetIs(recorded: seq<EventId>)
    requires recorded != []
    ensures EidSet(recorded) == set e | e in recorded && e.shard == recorded[0].shard
  {
    var n := |recorded| - 1;
    var front, id := recorded[..n], recorded[n];
    assert recorded == front + [id];
    if n == 0 {
      assert EidSet(front) == {};
    } else {
      EidSetIs(front);
      assert front[0] in EidSet(front);
    }
  }

  lemma ErasedIs(eids: set<EventId>, s: ShardId, id: EventId)
    requires InShard(eids, s)
    ensures Erased(eids, id) == if id.shard != s then eids else eids * {id}
  {
  }

  ghost predicate Distinct(ids: seq<EventId>) {
    forall i, j | 0 <= i < j < |ids| :: ids[i] != ids[j]
  }

  ghost function IdsOf(ids: seq<EventId>): set<EventId> {
    set e | e in ids
  }

  /** The last answer is of another shard, all others are kept ids, and some kept id is no answer at all. */
  ghost predicate ForeignLast(eids: set<EventId>, s: ShardId, answers: seq<EventId>) {
    answers != [] && answers[|answers| - 1].shard != s && IdsOf(answers[..|answers| - 1]) < eids
  }

  lemma IdsOfCons(id: EventId, rest: seq<EventId>)
    ensures IdsOf([id] + rest) == {id} + IdsOf(rest)
    ensures Distinct([id] + rest) <==> Distinct(rest) && id !in rest
  {
    var all := [id] + rest;
    assert forall i | 0 <= i < |rest| :: all[i + 1] == rest[i];
    if Distinct(all) {
      forall i, j | 0 <= i < j < |rest| ensures rest[i] != rest[j] { assert all[i + 1] != all[j + 1]; }
      forall i | 0 <= i < |rest| ensures rest[i] != id { assert all[0] != all[i + 1]; }
    }
  }

  lemma StruckAll(eids: set<EventId>, s: ShardId, id: EventId, rest: seq<EventId>)
    requires InShard(eids, s) && id.shard != s
    ensures var answers := [id] + rest;
            eids != {} && rest == [] <==> Distinct(answers) && (IdsOf(answers) == eids || ForeignLast(eids, s, answers))
    ensures IdsOf(rest) == {} <==> rest == []
    ensures !ForeignLast({}, s, rest)
  {
    var answers := [id] + rest;
    IdsOfCons(id, rest);
    assert id in IdsOf(answers) && id !in eids;
    if rest == [] {
      assert answers[..0] == [] && answers[|answers| - 1] == id;
    } else {
      assert answers[..|answers| - 1][0] == id;
      assert rest[0] in IdsOf(rest);
    }
  }

  lemma StruckOne(eids: set<EventId>, s: ShardId, id: EventId, rest: seq<EventId>)
    requires InShard(eids, s) && id.shard == s
    ensures var answers := [id] + rest;
            id in eids && Distinct(rest) && IdsOf(rest) == eids - {id} <==> Distinct(answers) && IdsOf(answers) == eids
  {
    IdsOfCons(id, rest);
    assert id in IdsOf(rest) <==> id in rest;
  }

  lemma StruckOneThenForeign(eids: set<EventId>, s: ShardId, id: EventId, rest: seq<EventId>)
    requires InShard(eids, s) && id.shard == s
    ensures var answers := [id] + rest;
            id in eids && Distinct(rest) && ForeignLast(eids - {id}, s, rest) <==> Distinct(answers) && ForeignLast(eids, s, answers)
  {
    var answers := [id] + rest;
    IdsOfCons(id, rest);
    if rest != [] {
      var front, last := rest[..|rest| - 1], rest[|rest| - 1];
      assert rest == front + [last];
      assert answers[..|answers| - 1] == [id] + front && answers[|answers| - 1] == last;
      IdsOfCons(id, front);
      assert id in rest <==> id in front || id == last;
      assert id in IdsOf(front) <==> id in front;
    }
  }

  /**
   Striking off succeeds exactly when the answers are the kept ids, each once, or are kept ids and
   one last id of another shard while some kept id is no answer at all.
   */
  lemma {:induction false} StrikesOffIff(eids: set<EventId>, s: ShardId, answers: seq<EventId>)
    requires InShard(eids, s)
    ensures StrikesOff(eids, answers) <==> Distinct(answers) && (IdsOf(answers) == eids || ForeignLast(eids, s, answers))
    decreases |answers|
  {
    if answers == [] {
      assert IdsOf(answers) == {};
    } else {
      var id, rest := answers[0], answers[1..];
      assert answers == [id] + rest;
      ErasedIs(eids, s, id);
      StrikesOffIff(eids - Erased(eids, id), s, rest);
      if id.shard != s {
        StruckAll(eids, s, id, rest);
      } else {
        StruckOne(eids, s, id, rest);
        StruckOneThenForeign(eids, s, id, rest);
      }
    }
  }

  // ------------------------------------------------------------------------ phantoms

  ghost predicate OneShard(ids: set<EventId>) {
    forall a, b | a in ids && b in ids :: a.shard == b.shard
  }

  /** An accepted query saw exactly its present answers if and only if all ids in play are of one shard. */
  lemma AcceptedIsExactIff(recorded: seq<EventId>, answers: seq<EventId>)
    requires NoPhantom(recorded, answers)
    ensures IdsOf(recorded) == IdsOf(answers) <==> OneShard(IdsOf(recorded) + IdsOf(answers))
  {
    var r, n := IdsOf(recorded), IdsOf(answers);
    if recorded == [] {
      assert answers == [];
    } else {
      var s, kept := recorded[0].shard, EidSet(recorded);
      EidSetIs(recorded);
      assert recorded[0] in r && recorded[0] in kept;
      StrikesOffIff(kept, s, answers);
      if n != kept {
        var front, last := answers[..|answers| - 1], answers[|answers| - 1];
        var e :| e in kept && e !in IdsOf(front);
        assert answers == front + [last] && last in n;
        assert e in r && e !in n;
      }
    }
  }

  /** Otherwise a phantom can pass: one id was recorded, and the one answer now is another object's. */
  lemma PhantomAccepted(x: EventId, z: EventId)
    requires x.shard != z.shard
    ensures NoPhantom([x], [z]) && IdsOf([x]) != IdsOf([z])
  {
    var recorded, answers := [x], [z];
    EidSetIs(recorded);
    assert EidSet(recorded) == {x};
    assert answers[1..] == [];
    assert x in IdsOf([x]) && x !in IdsOf([z]);
  }

  /** And a query whose answers are of two shards is refused although nothing has changed. */
  lemma UnchangedRefused(x: EventId, z: EventId)
    requires x.shard != z.shard
    ensures !NoPhantom([x, z], [x, z]) && !NoPhantom([x, z], [z, x])
  {
    var recorded, answers := [x, z], [z, x];
    EidSetIs(recorded);
    assert EidSet(recorded) == {x};
    assert recorded[1..] == [z] && answers[1..] == [x];
    ErasedIs({x}, x.shard, x);
    ErasedIs({x}, x.shard, z);
    assert {x} * {x} == {x} && {x} - {x} == {};
    assert Erased({}, z) == {} && Erased({}, x) == {};
    assert !StrikesOff({}, [z]) && !StrikesOff({}, [x]);
  }

  lemma {:induction false} ListIsAnswers(env: Env, shards: Shards, c: string, q: string, order: seq<string>)
    ensures IdsOf(ListAnswers(env, shards, c, q, order)) == Answers(env, shards, c, q, order)
  {
    if order != [] {
      ListIsAnswers(env, shards, c, q, order[1..]);
      assert order == [order[0]] + order[1..];
      var rest := Answers(env, shards, c, q, order[1..]);
      if IsAnswer(env, shards, c, q, order[0]) {
        assert Answers(env, shards, c, q, order) == {AnswerId(env, shards, c, order[0])} + rest;
      } else {
        assert Answers(env, shards, c, q, order) == rest;
      }
    }
  }
}
