/** Runs of the cluster, stage by stage, and the runs that show which conditions of mutual exclusion are
    needed (L1/src/consensus/cross_shard_atomic.rs). */
module ClusterRuns {
  import opened Bytes
  import opened LockTable
  import opened Sequences
  import opened LockCluster

  // ------------------------------------------------------------------ building runs

  function OneCommittee(cm: seq<Address>, s: ShardId): Network {
    Network(map[s := cm], _ => Valid, _ => Valid)
  }

  ghost predicate Reaches(net: Network, c0: Cluster, steps: seq<Step>, c: Cluster) {
    ValidRun(net, c0, steps) && Exec(net, c0, steps) == c
  }

  lemma OneMoreStep(net: Network, c0: Cluster, steps: seq<Step>, c: Cluster, step: Step)
    requires Reaches(net, c0, steps, c) && Enabled(net, c, step)
    ensures Reaches(net, c0, steps + [step], Apply(net, c, step))
  {
    assert (steps + [step])[..|steps|] == steps;
  }

  /** No commit handler starts before the last one has finished. */
  ghost predicate Serial(net: Network, c0: Cluster, steps: seq<Step>)
    requires ValidRun(net, c0, steps)
  {
    steps == [] ||
    (Serial(net, c0, steps[..|steps| - 1])
     && (steps[|steps| - 1].StartCommit? ==> Exec(net, c0, steps[..|steps| - 1]).handlers == map[]))
  }

  lemma {:induction false} SerialIsSteady(net: Network, c0: Cluster, steps: seq<Step>, m: Address)
    requires ValidRun(net, c0, steps) && Serial(net, c0, steps)
    ensures Steady(net, c0, steps, m)
  {
    if steps != [] { SerialIsSteady(net, c0, steps[..|steps| - 1], m); }
  }

  /** A run without overlapping handlers, all of them finished at its end. */
  ghost predicate Calm(net: Network, c0: Cluster, steps: seq<Step>, c: Cluster) {
    Reaches(net, c0, steps, c) && Serial(net, c0, steps) && c.handlers == map[]
  }

  lemma CalmStep(net: Network, c0: Cluster, steps: seq<Step>, c: Cluster, step: Step)
    requires Calm(net, c0, steps, c) && Enabled(net, c, step) && !step.StartCommit?
    ensures Calm(net, c0, steps + [step], Apply(net, c, step))
  {
    OneMoreStep(net, c0, steps, c, step);
    assert (steps + [step])[..|steps|] == steps;
  }

  ghost predicate NoReleases(h: seq<Event>) {
    forall i :: 0 <= i < |h| ==> !h[i].ReleaseDone?
  }

  /** The same nodes, and nothing done is undone. */
  ghost predicate Grown(c: Cluster, c': Cluster) {
    && c'.nodes.Keys == c.nodes.Keys
    && (forall e :: e in c.history ==> e in c'.history)
    && (NoReleases(c.history) ==> NoReleases(c'.history))
  }

  lemma SentIsActive(h: seq<Event>, m: Address, o: OpId, s: ShardId)
    requires NoReleases(h) && AckSent(m, o, s) in h
    ensures Active(h, m, o, s)
  {
  }

  // ------------------------------------------------------------------ commits

  function VoteFrom(m: Address, o: OpId, s: ShardId): LockVote {
    LockVote(o, s, m, true, [])
  }

  function VotesFrom(ms: seq<Address>, o: OpId, s: ShardId): (r: seq<LockVote>)
    ensures |r| == |ms|
  {
    seq(|ms|, i requires 0 <= i < |ms| => VoteFrom(ms[i], o, s))
  }

  /** A commit with the approval of exactly as many different members as the handler asks for. */
  function FullCommit(cm: seq<Address>, o: OpId, s: ShardId): LockCommit
    requires cm != []
  {
    LockCommit(o, s, VotesFrom(cm[..Threshold(|cm|)], o, s))
  }

  lemma {:induction false} AllApproved(votes: seq<LockVote>)
    requires forall v :: v in votes ==> v.approved
    ensures CountApproved(votes) == |votes|
  {
    if votes != [] { AllApproved(votes[..|votes| - 1]); }
  }

  lemma CommitAccepted(cm: seq<Address>, t: Tables, o: OpId, s: ShardId)
    requires cm != [] && !Conflicts(t, s, o)
    ensures CommitRefusal(OneCommittee(cm, s), t, FullCommit(cm, o, s)).Ok?
  {
    AllApproved(FullCommit(cm, o, s).votes);
  }

  function AfterCommit(c: Cluster, m: Address, o: OpId, s: ShardId): Cluster
    requires m in c.nodes
  {
    c.(nodes := c.nodes[m := Locked(c.nodes[m], o, s)], history := c.history + [AckSent(m, o, s)])
  }

  lemma CommitOnce(cm: seq<Address>, s: ShardId, c0: Cluster, steps: seq<Step>, c: Cluster, m: Address, o: OpId)
      returns (steps': seq<Step>)
    requires cm != [] && Calm(OneCommittee(cm, s), c0, steps, c) && m in c.nodes && !Conflicts(c.nodes[m], s, o)
    ensures Calm(OneCommittee(cm, s), c0, steps', AfterCommit(c, m, o, s))
  {
    var net, start, finish := OneCommittee(cm, s), StartCommit(m, FullCommit(cm, o, s), 0), FinishCommit(0, Ok([]));
    CommitAccepted(cm, c.nodes[m], o, s);
    OneMoreStep(net, c0, steps, c, start);
    assert (steps + [start])[..|steps|] == steps;
    var busy := Apply(net, c, start);
    assert busy == c.(handlers := map[0 := Handler(m, FullCommit(cm, o, s))]);
    OneMoreStep(net, c0, steps + [start], busy, finish);
    steps' := steps + [start] + [finish];
    assert steps'[..|steps'| - 1] == steps + [start];
    assert Apply(net, busy, finish) == AfterCommit(c, m, o, s);
  }

  /** Every member of `ms` has locked the shard for `o` and acknowledged; nothing else changed. */
  ghost predicate Committed(c: Cluster, c': Cluster, o: OpId, s: ShardId, ms: seq<Address>) {
    && Grown(c, c')
    && (forall m :: m in c.nodes ==> c'.nodes[m] == if m in ms then Locked(c.nodes[m], o, s) else c.nodes[m])
    && (forall m :: m in ms && m in c.nodes ==> AckSent(m, o, s) in c'.history)
  }

  lemma CommittedNext(c: Cluster, c': Cluster, o: OpId, s: ShardId, ms: seq<Address>, m: Address)
    requires Committed(c, c', o, s, ms) && m in c.nodes
    ensures m in c'.nodes && Committed(c, AfterCommit(c', m, o, s), o, s, ms + [m])
  {
  }

  lemma {:induction false} CommitAll(cm: seq<Address>, s: ShardId, c0: Cluster, steps: seq<Step>, c: Cluster, o: OpId,
                                     ms: seq<Address>)
      returns (steps': seq<Step>, c': Cluster)
    requires cm != [] && Calm(OneCommittee(cm, s), c0, steps, c)
    requires forall m :: m in ms ==> m in c.nodes && !Conflicts(c.nodes[m], s, o)
    ensures Calm(OneCommittee(cm, s), c0, steps', c') && Committed(c, c', o, s, ms)
  {
    if ms == [] {
      steps', c' := steps, c;
    } else {
      var front, m := ms[..|ms| - 1], ms[|ms| - 1];
      assert ms == front + [m];
      steps', c' := CommitAll(cm, s, c0, steps, c, o, front);
      steps' := CommitOnce(cm, s, c0, steps', c', m, o);
      CommittedNext(c, c', o, s, front, m);
      c' := AfterCommit(c', m, o, s);
    }
  }

  // ------------------------------------------------------------------ the exact bound

  /** The first `level` members if all are faulty, else the faulty ones and others from position `at` on. */
  function Ackers(cm: seq<Address>, faulty: nat, level: nat, at: nat): seq<Address>
    requires faulty <= at && faulty <= |cm| && (level > faulty ==> at + (level - faulty) <= |cm|)
  {
    if level <= faulty then cm[..level] else cm[..faulty] + cm[at..at + (level - faulty)]
  }

  function Extra(faulty: nat, level: nat): nat {
    if level <= faulty then 0 else level - faulty
  }

  lemma AckersAre(cm: seq<Address>, faulty: nat, level: nat, at: nat)
    requires Distinct(cm) && faulty <= at && faulty <= |cm| && (level > faulty ==> at + (level - faulty) <= |cm|)
    ensures Distinct(Ackers(cm, faulty, level, at)) && |Ackers(cm, faulty, level, at)| == level
    ensures Members(Ackers(cm, faulty, level, at)) <= Members(cm)
    ensures |Members(Ackers(cm, faulty, level, at))| == level
    ensures forall m :: m in Ackers(cm, faulty, level, at) && m in cm[faulty..] ==>
              level > faulty && m in cm[at..at + (level - faulty)]
  {
    DistinctSize(Ackers(cm, faulty, level, at));
    forall m | m in cm[..faulty] ensures m !in cm[faulty..] {
    }
  }

  lemma FaultyPart(cm: seq<Address>, faulty: nat)
    requires Distinct(cm) && faulty <= |cm|
    ensures Members(cm) - Members(cm[faulty..]) == Members(cm[..faulty]) && |Members(cm[..faulty])| == faulty
  {
    DistinctSize(cm[..faulty]);
    assert cm == cm[..faulty] + cm[faulty..];
    assert forall a :: a in cm[..faulty] ==> a !in cm[faulty..];
  }

  /** Votes and acknowledgements collected are as they were. */
  ghost predicate SameLists(c: Cluster, c': Cluster) {
    && c'.nodes.Keys == c.nodes.Keys
    && forall m :: m in c.nodes ==>
         c'.nodes[m].pendingVotes == c.nodes[m].pendingVotes && c'.nodes[m].pendingAcks == c.nodes[m].pendingAcks
  }

  ghost predicate AllSent(c: Cluster, o: OpId, s: ShardId, ms: seq<Address>) {
    forall m :: m in ms ==> AckSent(m, o, s) in c.history
  }

  /** The commits of two operations, on different members. */
  lemma CommitTwo(cm: seq<Address>, s: ShardId, c0: Cluster, steps: seq<Step>, c: Cluster,
                  o1: OpId, ms1: seq<Address>, o2: OpId, ms2: seq<Address>)
      returns (steps': seq<Step>, c': Cluster)
    requires cm != [] && Calm(OneCommittee(cm, s), c0, steps, c) && NoReleases(c.history)
    requires forall m :: m in c.nodes ==> s !in c.nodes[m].localLocks
    requires forall m :: m in ms1 ==> m in c.nodes && m !in ms2
    requires forall m :: m in ms2 ==> m in c.nodes
    ensures Calm(OneCommittee(cm, s), c0, steps', c') && Grown(c, c') && NoReleases(c'.history) && SameLists(c, c')
    ensures AllSent(c', o1, s, ms1) && AllSent(c', o2, s, ms2)
  {
    var c1;
    steps', c1 := CommitAll(cm, s, c0, steps, c, o1, ms1);
    steps', c' := CommitAll(cm, s, c0, steps', c1, o2, ms2);
  }

  /** `level` different members. */
  ghost predicate AckerList(cm: seq<Address>, ms: seq<Address>, level: nat) {
    Distinct(ms) && |ms| == level && Members(ms) <= Members(cm) && |Members(ms)| == level
  }

  /** Commits that as many members acknowledge for each operation as the levels say. */
  lemma CommitBoth(cm: seq<Address>, faulty: nat, l1: nat, l2: nat, s: ShardId, c0: Cluster, steps: seq<Step>,
                   c: Cluster, o1: OpId, o2: OpId)
      returns (steps': seq<Step>, c': Cluster, ackers1: seq<Address>, ackers2: seq<Address>)
    requires cm != [] && Distinct(cm) && faulty <= |cm| && l1 <= |cm| && l2 <= |cm| && l1 + l2 <= |cm| + faulty
    requires Calm(OneCommittee(cm, s), c0, steps, c) && NoReleases(c.history) && c.nodes.Keys == Members(cm[faulty..])
    requires forall m :: m in c.nodes ==> s !in c.nodes[m].localLocks
    ensures Calm(OneCommittee(cm, s), c0, steps', c') && Grown(c, c') && NoReleases(c'.history) && SameLists(c, c')
    ensures AckerList(cm, ackers1, l1) && AckedBy(c', o1, s, Members(ackers1))
    ensures AckerList(cm, ackers2, l2) && AckedBy(c', o2, s, Members(ackers2))
  {
    var k1, k2 := Extra(faulty, l1), Extra(faulty, l2);
    var at := faulty + k1;
    var ms1, ms2 := cm[faulty..at], cm[at..at + k2];
    TwoParts(cm, faulty, at, at + k2);
    steps', c' := CommitTwo(cm, s, c0, steps, c, o1, ms1, o2, ms2);
    ackers1 := AckersOf(c', cm, faulty, l1, faulty, o1, s, ms1);
    ackers2 := AckersOf(c', cm, faulty, l2, at, o2, s, ms2);
  }

  lemma TwoParts(cm: seq<Address>, faulty: nat, i: nat, j: nat)
    requires Distinct(cm) && faulty <= i <= j <= |cm|
    ensures forall m :: m in cm[faulty..i] ==> m in Members(cm[faulty..]) && m !in cm[i..j]
    ensures forall m :: m in cm[i..j] ==> m in Members(cm[faulty..])
  {
    InTheRest(cm, faulty, faulty, i);
    InTheRest(cm, faulty, i, j);
  }

  lemma AckersOf(c: Cluster, cm: seq<Address>, faulty: nat, level: nat, at: nat, o: OpId, s: ShardId, ms: seq<Address>)
      returns (ackers: seq<Address>)
    requires Distinct(cm) && faulty <= at && faulty <= |cm| && at + Extra(faulty, level) <= |cm|
    requires ms == cm[at..at + Extra(faulty, level)] && AllSent(c, o, s, ms)
    requires c.nodes.Keys == Members(cm[faulty..]) && NoReleases(c.history)
    ensures AckerList(cm, ackers, level) && AckedBy(c, o, s, Members(ackers))
  {
    ackers := Ackers(cm, faulty, level, at);
    AckersAre(cm, faulty, level, at);
    AckedByThose(c, cm, faulty, level, at, o, s, ms);
  }

  lemma InTheRest(cm: seq<Address>, faulty: nat, i: nat, j: nat)
    requires faulty <= i <= j <= |cm|
    ensures forall m :: m in cm[i..j] ==> m in Members(cm[faulty..])
  {
    forall m | m in cm[i..j] ensures m in cm[faulty..] {
      var k :| i <= k < j && cm[k] == m;
      assert cm[faulty..][k - faulty] == m;
    }
  }

  lemma AckedByThose(c: Cluster, cm: seq<Address>, faulty: nat, level: nat, at: nat, o: OpId, s: ShardId,
                     ms: seq<Address>)
    requires Distinct(cm) && faulty <= at && faulty <= |cm| && at + Extra(faulty, level) <= |cm|
    requires ms == cm[at..at + Extra(faulty, level)] && AllSent(c, o, s, ms)
    requires c.nodes.Keys == Members(cm[faulty..]) && NoReleases(c.history)
    ensures AckedBy(c, o, s, Members(Ackers(cm, faulty, level, at)))
  {
    var q := Members(Ackers(cm, faulty, level, at));
    assert forall m :: m in q && m in c.nodes ==> m in ms by { CorrectAckers(cm, faulty, level, at); }
    AckedBySenders(c, o, s, q, ms);
  }

  lemma CorrectAckers(cm: seq<Address>, faulty: nat, level: nat, at: nat)
    requires Distinct(cm) && faulty <= at && faulty <= |cm| && at + Extra(faulty, level) <= |cm|
    ensures forall m :: m in Members(Ackers(cm, faulty, level, at)) && m in Members(cm[faulty..]) ==>
              m in cm[at..at + Extra(faulty, level)]
  {
    AckersAre(cm, faulty, level, at);
  }

  lemma AckedBySenders(c: Cluster, o: OpId, s: ShardId, q: set<Address>, ms: seq<Address>)
    requires NoReleases(c.history) && AllSent(c, o, s, ms) && forall m :: m in q && m in c.nodes ==> m in ms
    ensures AckedBy(c, o, s, q)
  {
    forall m | m in q && m in c.nodes ensures Active(c.history, m, o, s) {
      SentIsActive(c.history, m, o, s);
    }
  }

  /** The bound in `Exclusion` is exact: for every committee and number of faulty members, and any two levels that
      together do not exceed it, there is a run without overlapping handlers in which two operations
      have that many distinct unreleased acknowledgers for one shard. */
  lemma ExclusionIsSharp(cm: seq<Address>, faulty: nat, l1: nat, l2: nat, s: ShardId, o1: OpId, o2: OpId)
      returns (correct: set<Address>, steps: seq<Step>, q1: set<Address>, q2: set<Address>)
    requires cm != [] && Distinct(cm) && o1 != o2
    requires faulty <= |cm| && l1 <= |cm| && l2 <= |cm| && l1 + l2 <= |cm| + faulty
    ensures ValidRun(OneCommittee(cm, s), Init(correct), steps) && Serial(OneCommittee(cm, s), Init(correct), steps)
    ensures |Members(cm) - correct| == faulty
    ensures q1 <= Members(cm) && q2 <= Members(cm) && |q1| == l1 && |q2| == l2
    ensures AckedBy(Exec(OneCommittee(cm, s), Init(correct), steps), o1, s, q1)
    ensures AckedBy(Exec(OneCommittee(cm, s), Init(correct), steps), o2, s, q2)
  {
    correct := Members(cm[faulty..]);
    FaultyPart(cm, faulty);
    var c0 := Init(correct);
    assert Calm(OneCommittee(cm, s), c0, [], c0);
    var c, ackers1, ackers2;
    steps, c, ackers1, ackers2 := CommitBoth(cm, faulty, l1, l2, s, c0, [], c0, o1, o2);
    q1, q2 := Members(ackers1), Members(ackers2);
  }

  // ------------------------------------------------------------------ overlapping handlers

  lemma LockedTwice(t: Tables, o1: OpId, o2: OpId, s: ShardId)
    ensures Locked(Locked(t, o1, s), o2, s) == Locked(t, o2, s)
  {
    assert Locked(Locked(t, o1, s), o2, s).localLocks == Locked(t, o2, s).localLocks;
  }

  lemma OverlapOnce(cm: seq<Address>, s: ShardId, c0: Cluster, steps: seq<Step>, c: Cluster, m: Address, o1: OpId,
                    o2: OpId)
      returns (steps': seq<Step>, c': Cluster)
    requires cm != [] && Reaches(OneCommittee(cm, s), c0, steps, c) && c.handlers == map[]
    requires m in c.nodes && s !in c.nodes[m].localLocks
    ensures Reaches(OneCommittee(cm, s), c0, steps', c') && c'.handlers == map[]
    ensures c'.nodes == c.nodes[m := Locked(c.nodes[m], o2, s)]
    ensures c'.history == c.history + [AckSent(m, o1, s)] + [AckSent(m, o2, s)]
  {
    var net := OneCommittee(cm, s);
    var h1, h2 := Handler(m, FullCommit(cm, o1, s)), Handler(m, FullCommit(cm, o2, s));
    CommitAccepted(cm, c.nodes[m], o1, s);
    CommitAccepted(cm, c.nodes[m], o2, s);
    OneMoreStep(net, c0, steps, c, StartCommit(m, h1.commit, 0));
    var c1, s1 := c.(handlers := map[0 := h1]), steps + [StartCommit(m, h1.commit, 0)];
    assert Apply(net, c, StartCommit(m, h1.commit, 0)) == c1;
    OneMoreStep(net, c0, s1, c1, StartCommit(m, h2.commit, 1));
    var c2, s2 := c.(handlers := map[0 := h1, 1 := h2]), s1 + [StartCommit(m, h2.commit, 1)];
    assert Apply(net, c1, StartCommit(m, h2.commit, 1)) == c2;
    OneMoreStep(net, c0, s2, c2, FinishCommit(0, Ok([])));
    var c3, s3 := Apply(net, c2, FinishCommit(0, Ok([]))), s2 + [FinishCommit(0, Ok([]))];
    assert c3.handlers == map[1 := h2];
    OneMoreStep(net, c0, s3, c3, FinishCommit(1, Ok([])));
    steps', c' := s3 + [FinishCommit(1, Ok([]))], Apply(net, c3, FinishCommit(1, Ok([])));
    LockedTwice(c.nodes[m], o1, o2, s);
  }

  lemma {:induction false} OverlapAll(cm: seq<Address>, s: ShardId, correct: set<Address>, ms: seq<Address>, o1: OpId,
                                      o2: OpId)
      returns (steps: seq<Step>, c: Cluster)
    requires cm != [] && Distinct(ms) && Members(ms) <= correct
    ensures Reaches(OneCommittee(cm, s), Init(correct), steps, c) && c.handlers == map[]
    ensures c.nodes.Keys == correct && NoReleases(c.history)
    ensures forall m :: m in correct && m !in ms ==> s !in c.nodes[m].localLocks
    ensures forall m :: m in ms ==> AckSent(m, o1, s) in c.history && AckSent(m, o2, s) in c.history
  {
    if ms == [] {
      steps, c := [], Init(correct);
    } else {
      var front, m := ms[..|ms| - 1], ms[|ms| - 1];
      assert Members(front) <= Members(ms) && m in Members(ms) && m !in front;
      steps, c := OverlapAll(cm, s, correct, front, o1, o2);
      var before := c;
      steps, c := OverlapOnce(cm, s, Init(correct), steps, c, m, o1, o2);
      assert ms == front + [m];
    }
  }

  /** Without that condition exclusion fails with no faulty member at all: if on every node two commit handlers
      overlap, each finding the shard free before either inserts, all members acknowledge both
      operations, whatever the committee. */
  lemma OverlapBreaksExclusion(cm: seq<Address>, s: ShardId, o1: OpId, o2: OpId) returns (steps: seq<Step>)
    requires cm != [] && Distinct(cm) && o1 != o2
    ensures ValidRun(OneCommittee(cm, s), Init(Members(cm)), steps)
    ensures AckedBy(Exec(OneCommittee(cm, s), Init(Members(cm)), steps), o1, s, Members(cm))
    ensures AckedBy(Exec(OneCommittee(cm, s), Init(Members(cm)), steps), o2, s, Members(cm))
  {
    var c;
    steps, c := OverlapAll(cm, s, Members(cm), cm, o1, o2);
    forall m | m in Members(cm) ensures Active(c.history, m, o1, s) && Active(c.history, m, o2, s) {
      SentIsActive(c.history, m, o1, s);
      SentIsActive(c.history, m, o2, s);
    }
  }
}
