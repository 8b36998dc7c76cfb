/** The lock protocol over a whole committee: correct nodes run the handlers of `LockTable`,
    every other node may send anything it can sign, and messages may be delivered in any order,
    repeatedly, or never.  A node's commit handlers run concurrently: one looks for a conflicting lock
    and then inserts its own, and other handlers of the node may come in between.  The results
    are about every run. */
module LockCluster {
  import opened Bytes
  import opened LockTable
  import opened Sequences

  /** What correct nodes have done so far that other nodes may rely on. */
  datatype Event =
    | VoteCast(member: Address, op: OpId, shard: ShardId, approved: bool)
    | AckSent(member: Address, op: OpId, shard: ShardId)
    | ReleaseDone(member: Address, op: OpId, shard: ShardId)

  /** A commit handler that has passed its checks and not inserted its lock yet. */
  datatype Handler = Handler(node: Address, commit: LockCommit)

  /** `nodes` holds the correct nodes only. */
  datatype Cluster = Cluster(nodes: map<Address, Tables>, handlers: map<nat, Handler>, history: seq<Event>)

  /** One atomic step of one correct node.  `Release` is a delivered abort or one of the node's
      own releases; `Register` is its coordinator storing or dropping acquired locks. */
  datatype Step =
    | Prepare(node: Address, prepare: LockPrepare, signs: bool)
    | DeliverVote(node: Address, vote: LockVote)
    | StartCommit(node: Address, commit: LockCommit, id: nat)
    | FinishCommit(handler: nat, signature: Result<seq<byte>>)
    | DeliverAck(node: Address, ack: LockAck)
    | Release(node: Address, op: OpId, shard: ShardId)
    | Register(node: Address, locks: map<OpId, seq<ShardLock>>)

  function Init(correct: set<Address>): Cluster {
    Cluster(map a | a in correct :: EMPTY_TABLES, map[], [])
  }

  /** A correct node's signature on a vote or an acknowledgement exists only if it gave it. */
  predicate Enabled(net: Network, c: Cluster, step: Step) {
    match step
    case Prepare(m, _, _) => m in c.nodes
    case DeliverVote(m, v) =>
      m in c.nodes && (net.voteSig(v).Valid? && v.validator in c.nodes ==>
                         VoteCast(v.validator, v.atomicId, v.shardId, v.approved) in c.history)
    case StartCommit(m, _, id) => m in c.nodes && id !in c.handlers
    case FinishCommit(id, _) => id in c.handlers && c.handlers[id].node in c.nodes
    case DeliverAck(m, a) =>
      m in c.nodes && (net.ackSig(a).Valid? && a.validator in c.nodes ==>
                         AckSent(a.validator, a.atomicId, a.shardId) in c.history)
    case Release(m, _, _) => m in c.nodes
    case Register(m, _) => m in c.nodes
  }

  function Apply(net: Network, c: Cluster, step: Step): Cluster
    requires Enabled(net, c, step)
  {
    match step
    case Prepare(m, p, signs) =>
      var vote := PrepareVote(net, m, c.nodes[m], p, _ => if signs then Ok([]) else Err(SigningFailed));
      if vote.Ok? then c.(history := c.history + [VoteCast(m, p.atomicId, p.shardId, vote.value.approved)]) else c
    case DeliverVote(m, v) => c.(nodes := c.nodes[m := Vote(net, c.nodes[m], v)])
    case StartCommit(m, cm, id) =>
      if CommitRefusal(net, c.nodes[m], cm).Ok? then c.(handlers := c.handlers[id := Handler(m, cm)]) else c
    case FinishCommit(id, sig) =>
      var (m, cm) := (c.handlers[id].node, c.handlers[id].commit);
      var (t, r) := CommitApplied(m, c.nodes[m], cm, sig);
      Cluster(c.nodes[m := t], c.handlers - {id},
              if r.Ok? then c.history + [AckSent(m, cm.atomicId, cm.shardId)] else c.history)
    case DeliverAck(m, a) => c.(nodes := c.nodes[m := Ack(net, c.nodes[m], a)])
    case Release(m, o, s) =>
      c.(nodes := c.nodes[m := Released(c.nodes[m], o, s)], history := c.history + [ReleaseDone(m, o, s)])
    case Register(m, ls) => c.(nodes := c.nodes[m := c.nodes[m].(locks := ls)])
  }

  predicate ValidRun(net: Network, c0: Cluster, steps: seq<Step>)
    decreases |steps|, 0
  {
    steps == [] ||
    (ValidRun(net, c0, steps[..|steps| - 1]) &&
     Enabled(net, Exec(net, c0, steps[..|steps| - 1]), steps[|steps| - 1]))
  }

  function Exec(net: Network, c0: Cluster, steps: seq<Step>): Cluster
    requires ValidRun(net, c0, steps)
    decreases |steps|, 1
  {
    if steps == [] then c0
    else Apply(net, Exec(net, c0, steps[..|steps| - 1]), steps[|steps| - 1])
  }

  /** The step lets no two commit handlers of node `m` for one shard and different operations overlap. */
  ghost predicate SteadyStep(net: Network, c: Cluster, step: Step, m: Address)
    requires Enabled(net, c, step)
  {
    step.StartCommit? && step.node == m && CommitRefusal(net, c.nodes[m], step.commit).Ok? ==>
      forall id :: id in c.handlers && c.handlers[id].node == m
                   && c.handlers[id].commit.shardId == step.commit.shardId ==>
        c.handlers[id].commit.atomicId == step.commit.atomicId
  }

  ghost predicate Steady(net: Network, c0: Cluster, steps: seq<Step>, m: Address)
    requires ValidRun(net, c0, steps)
  {
    steps == [] ||
    (Steady(net, c0, steps[..|steps| - 1], m)
     && SteadyStep(net, Exec(net, c0, steps[..|steps| - 1]), steps[|steps| - 1], m))
  }

  /** `m` acknowledged (`o`, `s`) and has processed no release for it since. */
  ghost predicate Active(h: seq<Event>, m: Address, o: OpId, s: ShardId) {
    exists i :: 0 <= i < |h| && h[i] == AckSent(m, o, s)
                && forall j :: i < j < |h| ==> h[j] != ReleaseDone(m, o, s)
  }

  /** `m` holds what it acknowledged and has not released; its unfinished handlers meet no other operation's
      lock, and those for one shard serve one operation. */
  ghost predicate InOrder(c: Cluster, m: Address)
    requires m in c.nodes
  {
    && (forall o: OpId, s: ShardId :: Active(c.history, m, o, s) ==> Holds(c.nodes[m], s, o))
    && (forall id :: id in c.handlers && c.handlers[id].node == m ==>
          !Conflicts(c.nodes[m], c.handlers[id].commit.shardId, c.handlers[id].commit.atomicId))
    && (forall i, j :: i in c.handlers && j in c.handlers && c.handlers[i].node == m && c.handlers[j].node == m
                       && c.handlers[i].commit.shardId == c.handlers[j].commit.shardId ==>
          c.handlers[i].commit.atomicId == c.handlers[j].commit.atomicId)
  }

  ghost predicate GenuineAck(net: Network, c: Cluster, a: LockAck, o: OpId, s: ShardId) {
    && a.atomicId == o && a.shardId == s
    && s in net.committees && a.validator in net.committees[s]
    && (a.validator in c.nodes ==> AckSent(a.validator, o, s) in c.history)
  }

  ghost predicate RecordedAcksGenuine(net: Network, c: Cluster) {
    forall m, o: OpId, s: ShardId, a ::
      m in c.nodes && a in Entries(c.nodes[m].pendingAcks, o, s) ==> GenuineAck(net, c, a, o, s)
  }

  ghost predicate GenuineVote(net: Network, c: Cluster, v: LockVote, o: OpId, s: ShardId) {
    && v.atomicId == o && v.shardId == s
    && s in net.committees && v.validator in net.committees[s]
    && (v.validator in c.nodes ==> VoteCast(v.validator, o, s, v.approved) in c.history)
  }

  ghost predicate RecordedVotesGenuine(net: Network, c: Cluster) {
    forall m, o: OpId, s: ShardId, v ::
      m in c.nodes && v in Entries(c.nodes[m].pendingVotes, o, s) ==> GenuineVote(net, c, v, o, s)
  }

  lemma ActiveGrows(h: seq<Event>, e: Event, m: Address, o: OpId, s: ShardId)
    ensures Active(h + [e], m, o, s) <==>
            e == AckSent(m, o, s) || (Active(h, m, o, s) && e != ReleaseDone(m, o, s))
  {
    var g := h + [e];
    if Active(g, m, o, s) && e != AckSent(m, o, s) {
      var i :| 0 <= i < |g| && g[i] == AckSent(m, o, s) && forall j :: i < j < |g| ==> g[j] != ReleaseDone(m, o, s);
      assert h[i] == AckSent(m, o, s);
      assert forall j :: i < j < |h| ==> h[j] == g[j];
      assert g[|h|] == e;
    }
    if e == AckSent(m, o, s) {
      assert g[|h|] == AckSent(m, o, s);
    } else if Active(h, m, o, s) && e != ReleaseDone(m, o, s) {
      var i :| 0 <= i < |h| && h[i] == AckSent(m, o, s) && forall j :: i < j < |h| ==> h[j] != ReleaseDone(m, o, s);
      assert g[i] == AckSent(m, o, s);
    }
  }

  /** No step done for one operation removes or replaces another operation's lock on a node in order: a lock
      goes only when its own node processes a release for exactly that operation and shard. */
  lemma LocksOnlyReleasedByOwner(net: Network, c: Cluster, step: Step, m: Address, o: OpId, s: ShardId)
    requires Enabled(net, c, step)
    requires m in c.nodes && InOrder(c, m) && Holds(c.nodes[m], s, o)
    requires step != Release(m, o, s)
    ensures Holds(Apply(net, c, step).nodes[m], s, o)
  {
    if step.Release? && step.node == m {
      ReleaseFrame(c.nodes[m], step.op, step.shard);
    }
  }

  lemma StepKeepsAckersHold(net: Network, c: Cluster, step: Step, m: Address)
    requires Enabled(net, c, step) && m in c.nodes && InOrder(c, m)
    ensures forall o: OpId, s: ShardId :: Active(Apply(net, c, step).history, m, o, s) ==>
              Holds(Apply(net, c, step).nodes[m], s, o)
  {
    var c' := Apply(net, c, step);
    forall o: OpId, s: ShardId | Active(c'.history, m, o, s)
      ensures Holds(c'.nodes[m], s, o)
    {
      if |c'.history| > |c.history| {
        ActiveGrows(c.history, c'.history[|c.history|], m, o, s);
      }
      if Active(c.history, m, o, s) {
        LocksOnlyReleasedByOwner(net, c, step, m, o, s);
      }
    }
  }

  lemma StepKeepsOrder(net: Network, c: Cluster, step: Step, m: Address)
    requires Enabled(net, c, step) && m in c.nodes && InOrder(c, m) && SteadyStep(net, c, step, m)
    ensures InOrder(Apply(net, c, step), m)
  {
    StepKeepsAckersHold(net, c, step, m);
    if step.Release? && step.node == m {
      ReleaseFrame(c.nodes[m], step.op, step.shard);
    }
  }

  lemma StepKeepsAcksGenuine(net: Network, c: Cluster, step: Step)
    requires Enabled(net, c, step) && RecordedAcksGenuine(net, c)
    ensures RecordedAcksGenuine(net, Apply(net, c, step))
  {
    var c' := Apply(net, c, step);
    assert c'.nodes.Keys == c.nodes.Keys;
    forall m, o: OpId, s: ShardId, a | m in c'.nodes && a in Entries(c'.nodes[m].pendingAcks, o, s)
      ensures GenuineAck(net, c', a, o, s)
    {
      if a in Entries(c.nodes[m].pendingAcks, o, s) {
        assert GenuineAck(net, c, a, o, s);
      } else {
        assert step.DeliverAck? && step.node == m && step.ack == a;
      }
    }
  }

  lemma StepKeepsVotesGenuine(net: Network, c: Cluster, step: Step)
    requires Enabled(net, c, step) && RecordedVotesGenuine(net, c)
    ensures RecordedVotesGenuine(net, Apply(net, c, step))
  {
    var c' := Apply(net, c, step);
    assert c'.nodes.Keys == c.nodes.Keys;
    forall m, o: OpId, s: ShardId, v | m in c'.nodes && v in Entries(c'.nodes[m].pendingVotes, o, s)
      ensures GenuineVote(net, c', v, o, s)
    {
      if v in Entries(c.nodes[m].pendingVotes, o, s) {
        assert GenuineVote(net, c, v, o, s);
      } else {
        assert step.DeliverVote? && step.node == m && step.vote == v;
      }
    }
  }

  /** In every reachable cluster every recorded vote and acknowledgement was signed by a committee member, which,
      if correct, really gave it. */
  lemma {:induction false} EveryRun(net: Network, correct: set<Address>, steps: seq<Step>)
    requires ValidRun(net, Init(correct), steps)
    ensures Exec(net, Init(correct), steps).nodes.Keys == correct
    ensures RecordedAcksGenuine(net, Exec(net, Init(correct), steps))
    ensures RecordedVotesGenuine(net, Exec(net, Init(correct), steps))
  {
    if steps != [] {
      var before := steps[..|steps| - 1];
      EveryRun(net, correct, before);
      StepKeepsAcksGenuine(net, Exec(net, Init(correct), before), steps[|steps| - 1]);
      StepKeepsVotesGenuine(net, Exec(net, Init(correct), before), steps[|steps| - 1]);
    }
  }

  /** In every reachable cluster a correct node whose commit handlers did not overlap holds every lock it has
      acknowledged and not released. */
  lemma {:induction false} SteadyNodesHold(net: Network, correct: set<Address>, steps: seq<Step>, m: Address)
    requires ValidRun(net, Init(correct), steps) && m in correct && Steady(net, Init(correct), steps, m)
    ensures m in Exec(net, Init(correct), steps).nodes && InOrder(Exec(net, Init(correct), steps), m)
  {
    if steps != [] {
      var before := steps[..|steps| - 1];
      SteadyNodesHold(net, correct, before, m);
      EveryRun(net, correct, before);
      StepKeepsOrder(net, Exec(net, Init(correct), before), steps[|steps| - 1], m);
    }
  }

  /** Node `m` was sent a commit for (`o`, `s`) that over two thirds of the committee approve, with no vote from
      outside it. */
  ghost predicate Asked(net: Network, steps: seq<Step>, m: Address, o: OpId, s: ShardId) {
    exists i :: 0 <= i < |steps| && steps[i].StartCommit? && steps[i].node == m && Carried(net, steps[i].commit)
                && steps[i].commit.atomicId == o && steps[i].commit.shardId == s
  }

  lemma AskedStays(net: Network, steps: seq<Step>, step: Step, m: Address, o: OpId, s: ShardId)
    requires Asked(net, steps, m, o, s)
    ensures Asked(net, steps + [step], m, o, s)
  {
    var i :| 0 <= i < |steps| && steps[i].StartCommit? && steps[i].node == m && Carried(net, steps[i].commit)
             && steps[i].commit.atomicId == o && steps[i].commit.shardId == s;
    assert (steps + [step])[i] == steps[i];
  }

  ghost predicate HandlersAsked(net: Network, c: Cluster, steps: seq<Step>) {
    forall id :: id in c.handlers ==>
      Asked(net, steps, c.handlers[id].node, c.handlers[id].commit.atomicId, c.handlers[id].commit.shardId)
  }

  ghost predicate LocksAsked(net: Network, c: Cluster, steps: seq<Step>) {
    forall m, o: OpId, s: ShardId :: m in c.nodes && Holds(c.nodes[m], s, o) ==> Asked(net, steps, m, o, s)
  }

  ghost predicate AcksAsked(net: Network, c: Cluster, steps: seq<Step>) {
    forall m, o: OpId, s: ShardId :: AckSent(m, o, s) in c.history ==> Asked(net, steps, m, o, s)
  }

  /** Handlers, locks and acknowledgements of correct nodes all go back to such commits. */
  ghost predicate AllAsked(net: Network, c: Cluster, steps: seq<Step>) {
    HandlersAsked(net, c, steps) && LocksAsked(net, c, steps) && AcksAsked(net, c, steps)
  }

  lemma StepKeepsHandlersAsked(net: Network, c: Cluster, steps: seq<Step>, step: Step)
    requires Enabled(net, c, step) && HandlersAsked(net, c, steps)
    ensures HandlersAsked(net, Apply(net, c, step), steps + [step])
  {
    var c', all := Apply(net, c, step), steps + [step];
    assert all[|steps|] == step;
    forall id | id in c'.handlers
      ensures Asked(net, all, c'.handlers[id].node, c'.handlers[id].commit.atomicId, c'.handlers[id].commit.shardId)
    {
      var h := c'.handlers[id];
      if id in c.handlers && c.handlers[id] == h {
        AskedStays(net, steps, step, h.node, h.commit.atomicId, h.commit.shardId);
      } else {
        CommitRefusedIff(net, c.nodes[step.node], step.commit);
      }
    }
  }

  lemma StepKeepsLocksAsked(net: Network, c: Cluster, steps: seq<Step>, step: Step)
    requires Enabled(net, c, step) && HandlersAsked(net, c, steps) && LocksAsked(net, c, steps)
    ensures LocksAsked(net, Apply(net, c, step), steps + [step])
  {
    var c' := Apply(net, c, step);
    if step.Release? { ReleaseFrame(c.nodes[step.node], step.op, step.shard); }
    forall m, o: OpId, s: ShardId | m in c'.nodes && Holds(c'.nodes[m], s, o)
      ensures Asked(net, steps + [step], m, o, s)
    {
      AskedStays(net, steps, step, m, o, s);
    }
  }

  lemma StepKeepsAcksAsked(net: Network, c: Cluster, steps: seq<Step>, step: Step)
    requires Enabled(net, c, step) && HandlersAsked(net, c, steps) && AcksAsked(net, c, steps)
    ensures AcksAsked(net, Apply(net, c, step), steps + [step])
  {
    var c' := Apply(net, c, step);
    forall m, o: OpId, s: ShardId | AckSent(m, o, s) in c'.history ensures Asked(net, steps + [step], m, o, s) {
      AskedStays(net, steps, step, m, o, s);
    }
  }

  /** Over every run, handlers overlapping or not: a correct node holds a shard for an operation, or has
      acknowledged it, only if it was sent a commit that over two thirds of the committee approve. */
  lemma {:induction false} LocksAnswerCommits(net: Network, correct: set<Address>, steps: seq<Step>)
    requires ValidRun(net, Init(correct), steps)
    ensures AllAsked(net, Exec(net, Init(correct), steps), steps)
  {
    if steps != [] {
      var before := steps[..|steps| - 1];
      LocksAnswerCommits(net, correct, before);
      var c, step := Exec(net, Init(correct), before), steps[|steps| - 1];
      StepKeepsHandlersAsked(net, c, before, step);
      StepKeepsLocksAsked(net, c, before, step);
      StepKeepsAcksAsked(net, c, before, step);
      assert before + [steps[|steps| - 1]] == steps;
    }
  }

  /** Step `i` asked node `m`, a member, for a vote on (`o`, `s`) on behalf of a member, and the vote says whether no
      other operation held the shard there at that moment. */
  ghost predicate VoteAsked(net: Network, c0: Cluster, steps: seq<Step>, i: nat, m: Address, o: OpId, s: ShardId,
                            approved: bool)
    requires ValidRun(net, c0, steps)
  {
    && i < |steps| && steps[i].Prepare? && steps[i].node == m
    && steps[i].prepare.atomicId == o && steps[i].prepare.shardId == s
    && s in net.committees && m in net.committees[s] && steps[i].prepare.requester in net.committees[s]
    && ValidRun(net, c0, steps[..i])
    && var nodes := Exec(net, c0, steps[..i]).nodes;
       m in nodes && (approved <==> !(s in nodes[m].localLocks && nodes[m].localLocks[s] != o))
  }

  /** Over every run a correct node's vote is its true answer to a member's request. */
  lemma {:induction false} VotesAnswerPrepares(net: Network, c0: Cluster, steps: seq<Step>, m: Address, o: OpId,
                                               s: ShardId, approved: bool)
    requires ValidRun(net, c0, steps) && c0.history == []
    requires VoteCast(m, o, s, approved) in Exec(net, c0, steps).history
    ensures exists i: nat :: VoteAsked(net, c0, steps, i, m, o, s, approved)
  {
    var before, step := steps[..|steps| - 1], steps[|steps| - 1];
    var c := Exec(net, c0, before);
    if VoteCast(m, o, s, approved) in c.history {
      VotesAnswerPrepares(net, c0, before, m, o, s, approved);
      var i: nat :| VoteAsked(net, c0, before, i, m, o, s, approved);
      assert before[..i] == steps[..i];
      assert VoteAsked(net, c0, steps, i, m, o, s, approved);
    } else {
      var sign := _ => if step.signs then Ok([]) else Err(SigningFailed);
      PrepareAnswers(net, m, c.nodes[m], step.prepare, sign);
      assert VoteAsked(net, c0, steps, |before|, m, o, s, approved);
    }
  }

  // ------------------------------------------------------------------ quorums

  function Members(committee: seq<Address>): set<Address> {
    set a | a in committee
  }

  /** Two sets that together outnumber the committee plus its faulty part share a correct member. */
  lemma CommonCorrect(committee: set<Address>, correct: set<Address>, q1: set<Address>, q2: set<Address>)
      returns (m: Address)
    requires q1 <= committee && q2 <= committee
    requires |q1| + |q2| > |committee| + |committee - correct|
    ensures m in q1 && m in q2 && m in correct
  {
    var both := q1 * q2;
    assert |q1 + q2| + |both| == |q1| + |q2|;
    SubsetSize(q1 + q2, committee);
    if both <= committee - correct {
      SubsetSize(both, committee - correct);
      assert false;
    }
    m :| m in both && m !in committee - correct;
  }

  /** 2n/3 + 1 is n minus the largest tolerated number of faulty members, and two such sets
      always overlap in more members than can be faulty. */
  lemma ThresholdIsQuorum(n: nat, faulty: nat)
    requires 1 <= n && faulty <= (n - 1) / 3
    ensures Threshold(n) == n - (n - 1) / 3
    ensures 2 * Threshold(n) > n + faulty
  {
  }

  ghost predicate AckedBy(c: Cluster, o: OpId, s: ShardId, q: set<Address>) {
    forall m :: m in q && m in c.nodes ==> Active(c.history, m, o, s)
  }

  /** Mutual exclusion: when the acknowledgers of two operations together outnumber the committee plus those of
      its members that are faulty or whose commit handlers overlapped, no run gives them one shard.
      `steady` are members known to be neither. */
  lemma Exclusion(net: Network, correct: set<Address>, steady: set<Address>, steps: seq<Step>, s: ShardId,
                  o1: OpId, q1: set<Address>, o2: OpId, q2: set<Address>)
    requires ValidRun(net, Init(correct), steps)
    requires steady <= correct && forall m :: m in steady ==> Steady(net, Init(correct), steps, m)
    requires s in net.committees && Distinct(net.committees[s])
    requires q1 <= Members(net.committees[s]) && q2 <= Members(net.committees[s])
    requires |q1| + |q2| > |net.committees[s]| + |Members(net.committees[s]) - steady|
    requires AckedBy(Exec(net, Init(correct), steps), o1, s, q1)
    requires AckedBy(Exec(net, Init(correct), steps), o2, s, q2)
    ensures o1 == o2
  {
    DistinctSize(net.committees[s]);
    var m := CommonCorrect(Members(net.committees[s]), steady, q1, q2);
    SteadyNodesHold(net, correct, steps, m);
    var c := Exec(net, Init(correct), steps);
    assert Holds(c.nodes[m], s, o1) && Holds(c.nodes[m], s, o2);
  }

  /** The acknowledgement list a coordinator has collected. */
  function Collected(c: Cluster, r: Address, o: OpId, s: ShardId): seq<LockAck>
    requires r in c.nodes
  {
    Entries(c.nodes[r].pendingAcks, o, s)
  }

  function Signers(acks: seq<LockAck>): seq<Address> {
    seq(|acks|, i requires 0 <= i < |acks| => acks[i].validator)
  }

  /** The protocol's promise, read off the coordinators' own tables: with at most a third of the committee faulty
      or overlapping, two coordinators that each hold a committee-sized list of acknowledgements from
      distinct signers for one shard, none of them released since, serve one operation. */
  lemma CoordinatorExclusion(net: Network, correct: set<Address>, steady: set<Address>, steps: seq<Step>, s: ShardId,
                             r1: Address, o1: OpId, r2: Address, o2: OpId)
    requires ValidRun(net, Init(correct), steps)
    requires steady <= correct && forall m :: m in steady ==> Steady(net, Init(correct), steps, m)
    requires s in net.committees && Distinct(net.committees[s]) && net.committees[s] != []
    requires |Members(net.committees[s]) - steady| <= (|net.committees[s]| - 1) / 3
    requires var c := Exec(net, Init(correct), steps);
             && r1 in c.nodes && r2 in c.nodes
             && |Collected(c, r1, o1, s)| >= Threshold(|net.committees[s]|)
             && |Collected(c, r2, o2, s)| >= Threshold(|net.committees[s]|)
             && Distinct(Signers(Collected(c, r1, o1, s))) && Distinct(Signers(Collected(c, r2, o2, s)))
             && AckedBy(c, o1, s, Members(Signers(Collected(c, r1, o1, s))))
             && AckedBy(c, o2, s, Members(Signers(Collected(c, r2, o2, s))))
    ensures o1 == o2
  {
    EveryRun(net, correct, steps);
    var c := Exec(net, Init(correct), steps);
    var a1, a2 := Collected(c, r1, o1, s), Collected(c, r2, o2, s);
    SignersInCommittee(net, c, r1, o1, s);
    SignersInCommittee(net, c, r2, o2, s);
    DistinctSize(Signers(a1));
    DistinctSize(Signers(a2));
    ThresholdIsQuorum(|net.committees[s]|, |Members(net.committees[s]) - steady|);
    Exclusion(net, correct, steady, steps, s, o1, Members(Signers(a1)), o2, Members(Signers(a2)));
  }

  lemma SignersInCommittee(net: Network, c: Cluster, r: Address, o: OpId, s: ShardId)
    requires RecordedAcksGenuine(net, c) && r in c.nodes
    ensures s in net.committees ==> Members(Signers(Collected(c, r, o, s))) <= Members(net.committees[s])
  {
    var acks := Collected(c, r, o, s);
    forall a | a in Signers(acks)
      ensures s in net.committees ==> a in net.committees[s]
    {
      var i :| 0 <= i < |acks| && Signers(acks)[i] == a;
      assert acks[i] in acks;
      assert GenuineAck(net, c, acks[i], o, s);
    }
  }
}
