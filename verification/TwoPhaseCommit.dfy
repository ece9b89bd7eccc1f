/**
 The distributed commit: one coordinator, any number of direct children, messages in flight,
 peers that may not be found and replies that may never come.
 */
module TwoPhaseCommit {

  type Child = nat

  /** A node's view of the transaction; `Absent` when it has never heard of it. */
  datatype Node = Absent | Pending | Prepared | Committed | Aborted

  datatype Kind = Prepare | Commit | Abort
  datatype Request = Request(child: Child, kind: Kind)
  datatype Vote = Vote(child: Child, yes: bool)

  /** Where the coordinator is; `ok` is its `success` flag. */
  datatype Phase =
    | Start
    | Asking(todo: set<Child>, awaiting: set<Child>, ok: bool)
    | Waiting(awaiting: set<Child>, ok: bool)
    | Telling(todo: set<Child>, commit: bool)
    | Over(commit: bool)
    | Stopped                                  // the coordinator's own prepare threw; only `abort` is left

  datatype Sys = Sys(
    children: set<Child>,
    local: Node,
    nodes: map<Child, Node>,
    phase: Phase,
    requests: set<Request>,
    votes: set<Vote>,
    untold: set<Child>)                        // children not found when the decision went out

  /** How a node's `prepare` ends: locks and validation succeed, fail, or throw. */
  datatype Ending = Succeeds | Fails | Throws

  datatype Step =
    | Begin                                    // `phase_one` starts
    | GiveUp                                   // `abort` instead
    | Ask(c: Child, found: bool)
    | PrepareLocal(ending: Ending)
    | Receive(vote: Vote)
    | Lose(c: Child)                           // the peer is gone: its answer counts as no
    | Decide
    | Tell(c: Child, found: bool)
    | FinishLocal
    | OnPrepare(c: Child, ending: Ending)
    | OnCommit(c: Child)
    | OnAbort(c: Child)

  predicate WellFormed(st: Sys) {
    && st.nodes.Keys == st.children
    && (forall r | r in st.requests :: r.child in st.children)
    && (forall v | v in st.votes :: v.child in st.children)
    && st.untold <= st.children
    && match st.phase
       case Asking(todo, awaiting, _) => todo <= st.children && awaiting <= st.children
       case Waiting(awaiting, _) => awaiting <= st.children
       case Telling(todo, _) => todo <= st.children
       case _ => true
  }

  predicate Enabled(st: Sys, step: Step) {
    match step
    case Begin => st.phase.Start?
    case GiveUp => st.phase.Start? || st.phase.Stopped?
    case Ask(c, _) => st.phase.Asking? && c in st.phase.todo
    case PrepareLocal(_) => st.phase.Asking? && st.phase.todo == {}
    case Receive(vote) => st.phase.Waiting? && vote in st.votes && vote.child in st.phase.awaiting
    case Lose(c) => st.phase.Waiting? && c in st.phase.awaiting
    case Decide => st.phase.Waiting? && st.phase.awaiting == {}
    case Tell(c, _) => st.phase.Telling? && c in st.phase.todo
    case FinishLocal => st.phase.Telling? && st.phase.todo == {}
    case OnPrepare(c, _) => Request(c, Prepare) in st.requests && c in st.nodes
    case OnCommit(c) => Request(c, Commit) in st.requests && c in st.nodes
    case OnAbort(c) => Request(c, Abort) in st.requests && c in st.nodes
  }

  function PreparedNode(n: Node, ending: Ending): Node {
    if !n.Pending? || ending.Throws? then n else if ending.Succeeds? then Prepared else Aborted
  }

  function Do(st: Sys, step: Step): Sys
    requires Enabled(st, step)
  {
    match step
    case Begin => st.(phase := Asking(st.children, {}, true))
    case GiveUp => st.(phase := Telling(st.children, false))
    case Ask(c, found) =>
      var p := st.phase;
      if found then
        st.(phase := Asking(p.todo - {c}, p.awaiting + {c}, p.ok), requests := st.requests + {Request(c, Prepare)})
      else st.(phase := Asking(p.todo - {c}, p.awaiting, false))
    case PrepareLocal(ending) =>
      if ending.Throws? || !st.local.Pending? then st.(phase := Stopped)
      else
        st.(local := PreparedNode(st.local, ending),
            phase := Waiting(st.phase.awaiting, st.phase.ok && ending.Succeeds?))
    case Receive(vote) =>
      st.(phase := Waiting(st.phase.awaiting - {vote.child}, st.phase.ok && vote.yes), votes := st.votes - {vote})
    case Lose(c) => st.(phase := Waiting(st.phase.awaiting - {c}, false))
    case Decide => st.(phase := Telling(st.children, st.phase.ok))
    case Tell(c, found) =>
      var p := st.phase;
      if found then
        st.(phase := Telling(p.todo - {c}, p.commit),
            requests := st.requests + {Request(c, if p.commit then Commit else Abort)})
      else st.(phase := Telling(p.todo - {c}, p.commit), untold := st.untold + {c})
    case FinishLocal =>
      st.(phase := Over(st.phase.commit), local := if st.phase.commit then Committed else Aborted)
    case OnPrepare(c, ending) =>
      var n := st.nodes[c];
      st.(nodes := st.nodes[c := PreparedNode(n, ending)],
          requests := st.requests - {Request(c, Prepare)},
          votes := st.votes + {Vote(c, n.Pending? && ending.Succeeds?)})
    case OnCommit(c) =>
      // a node that is not prepared throws and stays as it is
      st.(nodes := st.nodes[c := if st.nodes[c].Prepared? then Committed else st.nodes[c]],
          requests := st.requests - {Request(c, Commit)})
    case OnAbort(c) =>
      st.(nodes := st.nodes[c := if st.nodes[c].Pending? || st.nodes[c].Prepared? then Aborted else st.nodes[c]],
          requests := st.requests - {Request(c, Abort)})
  }

  /** Children have heard of the transaction or not; nothing is in flight. */
  predicate Initial(st: Sys) {
    && st.nodes.Keys == st.children && st.local.Pending? && st.phase.Start?
    && (forall c | c in st.children :: st.nodes[c].Absent? || st.nodes[c].Pending?)
    && st.requests == {} && st.votes == {} && st.untold == {}
  }

  ghost predicate Run(st: Sys, steps: seq<Step>, end: Sys)
    decreases |steps|
  {
    if steps == [] then st == end else Enabled(st, steps[0]) && Run(Do(st, steps[0]), steps[1..], end)
  }

  ghost predicate Reachable(st: Sys) {
    exists init, steps :: Initial(init) && Run(init, steps, st)
  }

  // ------------------------------------------------------------------------ the invariant

  predicate Undecided(p: Phase) {
    p.Start? || p.Asking? || p.Waiting? || p.Stopped?
  }

  predicate DecidedOn(p: Phase, commit: bool) {
    (p.Telling? || p.Over?) && p.commit == commit
  }

  /** Has the child been sent the decision, as far as it could be found? */
  predicate Told(st: Sys, c: Child) {
    !(st.phase.Telling? && c in st.phase.todo) && c !in st.untold
  }

  /** What holds of each child, phase by phase. */
  predicate ChildOk(st: Sys, c: Child)
    requires c in st.nodes
  {
    var n := st.nodes[c];
    && (Vote(c, true) in st.votes ==> n.Prepared? || !Undecided(st.phase))
    && (Request(c, Commit) in st.requests ==> DecidedOn(st.phase, true) && n.Prepared? && !(st.phase.Telling? && c in st.phase.todo))
    && (Request(c, Abort) in st.requests ==> DecidedOn(st.phase, false) && !(st.phase.Telling? && c in st.phase.todo))
    && (n.Committed? ==> DecidedOn(st.phase, true))
    && AskedOnce(st, c)
    && (Vote(c, false) in st.votes ==> !n.Prepared? && !n.Committed?)
    && match st.phase
       case Start => (n.Absent? || n.Pending?) && Request(c, Prepare) !in st.requests
       case Asking(todo, awaiting, ok) => ok ==> c in todo || c in awaiting
       case Waiting(awaiting, ok) => ok ==> c in awaiting || n.Prepared?
       case Telling(todo, commit) => DecisionOk(st, c, commit) && (commit && c in todo ==> n.Prepared?)
       case Over(commit) => DecisionOk(st, c, commit)
       case Stopped => true
  }

  /** A child is asked once and answers once: before that it has no vote and is not prepared, and it has no two votes. */
  predicate AskedOnce(st: Sys, c: Child)
    requires c in st.nodes
  {
    var ready := st.nodes[c].Prepared? || st.nodes[c].Committed?;
    var voted := Vote(c, true) in st.votes || Vote(c, false) in st.votes;
    && !(Vote(c, true) in st.votes && Vote(c, false) in st.votes)
    && (voted ==> Request(c, Prepare) !in st.requests) && (Request(c, Prepare) in st.requests ==> !ready)
    && (st.phase.Start? || (st.phase.Asking? && c in st.phase.todo) ==> !voted && !ready && Request(c, Prepare) !in st.requests)
  }

  predicate DecisionOk(st: Sys, c: Child, commit: bool)
    requires c in st.nodes
  {
    if commit then
      && (st.nodes[c].Prepared? || st.nodes[c].Committed?)
      && (Told(st, c) ==> Request(c, Commit) in st.requests || st.nodes[c].Committed?)
    else Told(st, c) ==> Request(c, Abort) in st.requests || st.nodes[c].Absent? || st.nodes[c].Aborted?
  }

  predicate LocalOk(st: Sys) {
    match st.phase
    case Start => st.local.Pending?
    case Asking(_, _, _) => st.local.Pending?
    case Waiting(_, ok) => if ok then st.local.Prepared? else st.local.Prepared? || st.local.Aborted?
    case Telling(_, commit) => if commit then st.local.Prepared? else !st.local.Committed?
    case Over(commit) => st.local == if commit then Committed else Aborted
    case Stopped => st.local.Pending?
  }

  ghost predicate Inv(st: Sys) {
    && WellFormed(st) && LocalOk(st)
    && forall c | c in st.nodes :: ChildOk(st, c)
  }

  lemma StepKeepsChild(st: Sys, step: Step, c: Child)
    requires Inv(st) && Enabled(st, step) && c in st.nodes
    ensures c in Do(st, step).nodes && ChildOk(Do(st, step), c)
  {
    assert ChildOk(st, c);
  }

  lemma StepKeepsInv(st: Sys, step: Step)
    requires Inv(st) && Enabled(st, step)
    ensures Inv(Do(st, step))
  {
    var st' := Do(st, step);
    forall c | c in st'.nodes ensures ChildOk(st', c) {
      StepKeepsChild(st, step, c);
    }
  }

  lemma InitialInv(st: Sys)
    requires Initial(st)
    ensures Inv(st)
  {
  }

  lemma {:induction false} RunKeepsInv(st: Sys, steps: seq<Step>, end: Sys)
    requires Inv(st) && Run(st, steps, end)
    ensures Inv(end)
    decreases |steps|
  {
    if steps != [] {
      StepKeepsInv(st, steps[0]);
      RunKeepsInv(Do(st, steps[0]), steps[1..], end);
    }
  }

  lemma ReachableInv(st: Sys)
    requires Reachable(st)
    ensures Inv(st)
  {
    var init, steps :| Initial(init) && Run(init, steps, st);
    InitialInv(init);
    RunKeepsInv(init, steps, st);
  }

  // ------------------------------------------------------------------------- the theorems

  predicate SomeCommitted(st: Sys) {
    st.local.Committed? || exists c | c in st.nodes :: st.nodes[c].Committed?
  }

  predicate SomeAborted(st: Sys) {
    st.local.Aborted? || exists c | c in st.nodes :: st.nodes[c].Aborted?
  }

  /** A node that has prepared, and perhaps committed since. */
  predicate Ready(n: Node) {
    n.Prepared? || n.Committed?
  }

  /** Only a prepare that succeeded makes a node ready. */
  lemma {:induction false} ReadyOnlyAfterSuccess(st: Sys, steps: seq<Step>, end: Sys, c: Child)
    requires Inv(st) && Run(st, steps, end) && c in st.nodes
    ensures c in end.nodes && (Ready(end.nodes[c]) && !Ready(st.nodes[c]) ==> OnPrepare(c, Succeeds) in steps)
    decreases |steps|
  {
    if steps != [] {
      var st' := Do(st, steps[0]);
      StepKeepsInv(st, steps[0]);
      ReadyOnlyAfterSuccess(st', steps[1..], end, c);
      assert ChildOk(st, c);
      assert Ready(st'.nodes[c]) && !Ready(st.nodes[c]) ==> steps[0] == OnPrepare(c, Succeeds);
    }
  }

  /**
   In every run, whoever is prepared or committed has had a prepare that succeeded; so has whoever
   said yes.
   */
  lemma PreparedMeansSucceeded(init: Sys, steps: seq<Step>, st: Sys)
    requires Initial(init) && Run(init, steps, st)
    ensures st.local.Prepared? || st.local.Committed? ==> PrepareLocal(Succeeds) in steps
    ensures forall c | c in st.nodes && (st.nodes[c].Prepared? || st.nodes[c].Committed?) :: OnPrepare(c, Succeeds) in steps
    ensures forall c | Vote(c, true) in st.votes :: OnPrepare(c, Succeeds) in steps
  {
    InitialInv(init);
    RunKeepsInv(init, steps, st);
    SameNodes(init, steps, st);
    forall c | c in st.nodes && Ready(st.nodes[c]) ensures OnPrepare(c, Succeeds) in steps { ReadyOnlyAfterSuccess(init, steps, st, c); }
    if Ready(st.local) { LocalAfterSuccess(init, steps, st); }
    forall c | Vote(c, true) in st.votes ensures OnPrepare(c, Succeeds) in steps { YesAfterSuccess(init, steps, st, c); }
  }

  lemma {:induction false} SameNodes(st: Sys, steps: seq<Step>, end: Sys)
    requires Run(st, steps, end)
    ensures end.nodes.Keys == st.nodes.Keys
    decreases |steps|
  {
    if steps != [] { SameNodes(Do(st, steps[0]), steps[1..], end); }
  }

  lemma {:induction false} LocalAfterSuccess(st: Sys, steps: seq<Step>, end: Sys)
    requires Inv(st) && Run(st, steps, end) && !Ready(st.local) && Ready(end.local)
    ensures PrepareLocal(Succeeds) in steps
    decreases |steps|
  {
    var st' := Do(st, steps[0]);
    StepKeepsInv(st, steps[0]);
    if !Ready(st'.local) { LocalAfterSuccess(st', steps[1..], end); }
  }

  lemma {:induction false} YesAfterSuccess(st: Sys, steps: seq<Step>, end: Sys, c: Child)
    requires Run(st, steps, end) && Vote(c, true) !in st.votes && Vote(c, true) in end.votes
    ensures OnPrepare(c, Succeeds) in steps
    decreases |steps|
  {
    var st' := Do(st, steps[0]);
    if Vote(c, true) !in st'.votes { YesAfterSuccess(st', steps[1..], end, c); }
  }

  /** An aborted child stays aborted; so does the coordinator's own part, once it has voted. */
  lemma {:induction false} AbortedStays(st: Sys, steps: seq<Step>, end: Sys, c: Child)
    requires Run(st, steps, end) && c in st.nodes && st.nodes[c].Aborted?
    ensures c in end.nodes && end.nodes[c].Aborted?
    decreases |steps|
  {
    if steps != [] { AbortedStays(Do(st, steps[0]), steps[1..], end, c); }
  }

  lemma {:induction false} AbortedLocalStays(st: Sys, steps: seq<Step>, end: Sys)
    requires Inv(st) && Run(st, steps, end) && st.local.Aborted?
    ensures end.local.Aborted?
    decreases |steps|
  {
    if steps != [] {
      StepKeepsInv(st, steps[0]);
      AbortedLocalStays(Do(st, steps[0]), steps[1..], end);
    }
  }

  /** A child whose prepare fails while it is pending is aborted from that step on, and has said no. */
  lemma FailedPrepareAborts(init: Sys, before: seq<Step>, st: Sys, c: Child, after: seq<Step>, end: Sys)
    requires Initial(init) && Run(init, before, st) && Enabled(st, OnPrepare(c, Fails)) && st.nodes[c].Pending?
    requires Run(Do(st, OnPrepare(c, Fails)), after, end)
    ensures Do(st, OnPrepare(c, Fails)).nodes[c].Aborted? && Vote(c, false) in Do(st, OnPrepare(c, Fails)).votes
    ensures c in end.nodes && end.nodes[c].Aborted?
  {
    AbortedStays(Do(st, OnPrepare(c, Fails)), after, end, c);
  }

  /** The same of the coordinator's own part. */
  lemma FailedLocalPrepareAborts(init: Sys, before: seq<Step>, st: Sys, after: seq<Step>, end: Sys)
    requires Initial(init) && Run(init, before, st) && Enabled(st, PrepareLocal(Fails))
    requires Run(Do(st, PrepareLocal(Fails)), after, end)
    ensures Do(st, PrepareLocal(Fails)).local.Aborted? && end.local.Aborted?
  {
    InitialInv(init);
    RunKeepsInv(init, before, st);
    StepKeepsInv(st, PrepareLocal(Fails));
    AbortedLocalStays(Do(st, PrepareLocal(Fails)), after, end);
  }

  /** A child goes on being pending exactly until a prepare of it succeeds or fails, or it is told to abort. */
  lemma {:induction false} PendingUntil(st: Sys, steps: seq<Step>, end: Sys, c: Child)
    requires Inv(st) && Run(st, steps, end) && c in st.nodes && st.nodes[c].Pending?
    ensures c in end.nodes
    ensures end.nodes[c].Pending? <==> OnPrepare(c, Succeeds) !in steps && OnPrepare(c, Fails) !in steps && OnAbort(c) !in steps
    decreases |steps|
  {
    if steps != [] {
      var st' := Do(st, steps[0]);
      StepKeepsInv(st, steps[0]);
      assert ChildOk(st, c);
      assert steps == [steps[0]] + steps[1..];
      if st'.nodes[c].Pending? {
        PendingUntil(st', steps[1..], end, c);
      } else {
        NeverPendingAgain(st', steps[1..], end, c);
      }
    }
  }

  lemma {:induction false} NeverPendingAgain(st: Sys, steps: seq<Step>, end: Sys, c: Child)
    requires Run(st, steps, end) && c in st.nodes && !st.nodes[c].Pending?
    ensures c in end.nodes && !end.nodes[c].Pending?
    decreases |steps|
  {
    if steps != [] { NeverPendingAgain(Do(st, steps[0]), steps[1..], end, c); }
  }

  /** In every run a child that was pending is so still exactly if no prepare of it ended and it was not told to abort. */
  lemma PendingIff(init: Sys, steps: seq<Step>, st: Sys, c: Child)
    requires Initial(init) && Run(init, steps, st) && c in init.nodes && init.nodes[c].Pending?
    ensures c in st.nodes
    ensures st.nodes[c].Pending? <==> OnPrepare(c, Succeeds) !in steps && OnPrepare(c, Fails) !in steps && OnAbort(c) !in steps
  {
    InitialInv(init);
    PendingUntil(init, steps, st, c);
  }

  /** Once any node has committed, every node is prepared or committed, after a prepare that succeeded. */
  lemma CommitMeansAllPrepared(init: Sys, steps: seq<Step>, st: Sys)
    requires Initial(init) && Run(init, steps, st) && SomeCommitted(st)
    ensures (st.local.Prepared? || st.local.Committed?) && PrepareLocal(Succeeds) in steps
    ensures forall c | c in st.nodes :: (st.nodes[c].Prepared? || st.nodes[c].Committed?) && OnPrepare(c, Succeeds) in steps
  {
    InitialInv(init);
    RunKeepsInv(init, steps, st);
    assert DecidedOn(st.phase, true) by {
      if !st.local.Committed? {
        var c :| c in st.nodes && st.nodes[c].Committed?;
        assert ChildOk(st, c);
      }
    }
    forall c | c in st.nodes ensures Ready(st.nodes[c]) {
      assert ChildOk(st, c);
    }
    PreparedMeansSucceeded(init, steps, st);
  }

  /** No node is committed while another is aborted. */
  lemma Agreement(st: Sys)
    requires Reachable(st)
    ensures !(SomeCommitted(st) && SomeAborted(st))
  {
    if SomeCommitted(st) {
      var init, steps :| Initial(init) && Run(init, steps, st);
      CommitMeansAllPrepared(init, steps, st);
    }
  }

  /** A commit request always finds its node prepared, so it is never refused. */
  lemma CommitIsNeverRefused(st: Sys, c: Child)
    requires Reachable(st) && Enabled(st, OnCommit(c))
    ensures st.nodes[c].Prepared? && Do(st, OnCommit(c)).nodes[c].Committed?
  {
    ReachableInv(st);
    assert ChildOk(st, c);
  }

  /** Nothing can happen any more. */
  ghost predicate Quiescent(st: Sys) {
    forall step :: !Enabled(st, step)
  }

  /** When everything has settled, all children that could be found carry out the coordinator's decision. */
  lemma SettledTogether(st: Sys)
    requires Reachable(st) && Quiescent(st)
    ensures st.phase.Over? && st.local == (if st.phase.commit then Committed else Aborted)
    ensures forall c | c in st.nodes && c !in st.untold ::
              if st.phase.commit then st.nodes[c].Committed? else st.nodes[c].Aborted? || st.nodes[c].Absent?
  {
    ReachableInv(st);
    QuiescentIsOver(st);
    forall c | c in st.nodes && c !in st.untold
      ensures if st.phase.commit then st.nodes[c].Committed? else st.nodes[c].Aborted? || st.nodes[c].Absent?
    {
      assert ChildOk(st, c);
      assert !Enabled(st, OnCommit(c)) && !Enabled(st, OnAbort(c));
    }
  }

  /** The coordinator can always go on until it is through. */
  lemma CoordinatorGoesOn(st: Sys) returns (step: Step)
    requires !st.phase.Over?
    ensures Enabled(st, step)
  {
    match st.phase
    case Start => step := Begin;
    case Asking(todo, _, _) =>
      step := PrepareLocal(Succeeds);
      if todo != {} { var c :| c in todo; step := Ask(c, true); }
    case Waiting(awaiting, _) =>
      step := Decide;
      if awaiting != {} { var c :| c in awaiting; step := Lose(c); }
    case Telling(todo, _) =>
      step := FinishLocal;
      if todo != {} { var c :| c in todo; step := Tell(c, true); }
    case Stopped => step := GiveUp;
  }

  lemma QuiescentIsOver(st: Sys)
    requires Quiescent(st)
    ensures st.phase.Over?
  {
    if !st.phase.Over? { var step := CoordinatorGoesOn(st); }
  }

  // ------------------------------------------------------------- when nothing goes wrong

  /** A step in which every peer is found, every answer comes and every prepare succeeds. */
  predicate Smooth(step: Step) {
    match step
    case GiveUp => false
    case Ask(_, found) => found
    case PrepareLocal(ending) => ending.Succeeds?
    case Lose(_) => false
    case Tell(_, found) => found
    case OnPrepare(_, ending) => ending.Succeeds?
    case _ => true
  }

  predicate SmoothChild(st: Sys, c: Child)
    requires c in st.nodes
  {
    && (Request(c, Prepare) in st.requests ==> st.nodes[c].Pending? && !st.phase.Start? && !(st.phase.Asking? && c in st.phase.todo))
    && (st.phase.Start? || (st.phase.Asking? && c in st.phase.todo) ==> st.nodes[c].Pending?)
    && Vote(c, false) !in st.votes
  }

  ghost predicate SmoothInv(st: Sys) {
    && Inv(st) && st.untold == {}
    && (forall c | c in st.nodes :: SmoothChild(st, c))
    && match st.phase
       case Start => true
       case Asking(_, _, ok) => ok
       case Waiting(_, ok) => ok
       case Telling(_, commit) => commit
       case Over(commit) => commit
       case Stopped => false
  }

  lemma SmoothStep(st: Sys, step: Step)
    requires SmoothInv(st) && Enabled(st, step) && Smooth(step)
    ensures SmoothInv(Do(st, step))
  {
    StepKeepsInv(st, step);
    var st' := Do(st, step);
    forall c | c in st'.nodes ensures SmoothChild(st', c) {
      assert SmoothChild(st, c) && ChildOk(st, c);
    }
    if step.Receive? { assert SmoothChild(st, step.vote.child); }
  }

  lemma {:induction false} SmoothRun(st: Sys, steps: seq<Step>, end: Sys)
    requires SmoothInv(st) && Run(st, steps, end) && forall i | 0 <= i < |steps| :: Smooth(steps[i])
    ensures SmoothInv(end)
    decreases |steps|
  {
    if steps != [] {
      SmoothStep(st, steps[0]);
      SmoothRun(Do(st, steps[0]), steps[1..], end);
    }
  }

  /** With every child pending and every step smooth, a run that has settled has committed everywhere. */
  lemma SmoothRunsCommit(init: Sys, steps: seq<Step>, end: Sys)
    requires Initial(init) && (forall c | c in init.nodes :: init.nodes[c].Pending?)
    requires Run(init, steps, end) && (forall i | 0 <= i < |steps| :: Smooth(steps[i])) && Quiescent(end)
    ensures end.local.Committed? && forall c | c in end.nodes :: end.nodes[c].Committed?
  {
    InitialInv(init);
    SmoothRun(init, steps, end);
    SettledTogether(end);
  }

  // ------------------------------------------------------------------------ every run ends

  /** How much the coordinator has still to do: each message it may send, and each answer to come. */
  function PhaseRank(p: Phase, n: nat): nat {
    match p
    case Start => 7 * n + 4
    case Asking(todo, awaiting, _) => 4 * |todo| + |awaiting| + 3 * n + 3
    case Waiting(awaiting, _) => |awaiting| + 3 * n + 2
    case Telling(todo, _) => 3 * |todo| + 1
    case Over(_) => 0
    case Stopped => 3 * n + 2
  }

  function Rank(st: Sys): nat {
    PhaseRank(st.phase, |st.children|) + 2 * |st.requests| + |st.votes|
  }

  lemma AddOne<T>(s: set<T>, x: T)
    ensures |s + {x}| <= |s| + 1
    ensures x in s ==> |s - {x}| == |s| - 1
  {
    if x in s { assert s + {x} == s; }
  }

  lemma SendingLowersRank(st: Sys, step: Step)
    requires (step.Ask? || step.Tell?) && Enabled(st, step)
    ensures Rank(Do(st, step)) < Rank(st)
  {
    var kind := if step.Ask? then Prepare else if st.phase.commit then Commit else Abort;
    AddOne(st.phase.todo, step.c);
    AddOne(st.requests, Request(step.c, kind));
    if step.Ask? { AddOne(st.phase.awaiting, step.c); }
  }

  lemma AnswerLowersRank(st: Sys, step: Step)
    requires (step.Receive? || step.Lose?) && Enabled(st, step)
    ensures Rank(Do(st, step)) < Rank(st)
  {
    AddOne(st.phase.awaiting, if step.Lose? then step.c else step.vote.child);
    if step.Receive? { AddOne(st.votes, step.vote); }
  }

  lemma HandlingLowersRank(st: Sys, step: Step)
    requires (step.OnPrepare? || step.OnCommit? || step.OnAbort?) && Enabled(st, step)
    ensures Rank(Do(st, step)) < Rank(st)
  {
    AddOne(st.requests, Request(step.c, if step.OnPrepare? then Prepare else if step.OnCommit? then Commit else Abort));
    if step.OnPrepare? { AddOne(st.votes, Vote(step.c, st.nodes[step.c].Pending? && step.ending.Succeeds?)); }
  }

  lemma DecidingLowersRank(st: Sys, step: Step)
    requires step.Begin? || step.GiveUp? || step.PrepareLocal? || step.Decide? || step.FinishLocal?
    requires Enabled(st, step)
    ensures Rank(Do(st, step)) < Rank(st)
  {
  }

  /** Every step brings the end nearer: no run goes on for ever. */
  lemma StepLowersRank(st: Sys, step: Step)
    requires Enabled(st, step)
    ensures Rank(Do(st, step)) < Rank(st)
  {
    if step.Ask? || step.Tell? {
      SendingLowersRank(st, step);
    } else if step.Receive? || step.Lose? {
      AnswerLowersRank(st, step);
    } else if step.OnPrepare? || step.OnCommit? || step.OnAbort? {
      HandlingLowersRank(st, step);
    } else {
      DecidingLowersRank(st, step);
    }
  }

  /** A run has at most as many steps as its start has rank. */
  lemma {:induction false} RunsAreBounded(st: Sys, steps: seq<Step>, end: Sys)
    requires Run(st, steps, end)
    ensures |steps| + Rank(end) <= Rank(st)
    decreases |steps|
  {
    if steps != [] {
      StepLowersRank(st, steps[0]);
      RunsAreBounded(Do(st, steps[0]), steps[1..], end);
    }
  }
}
