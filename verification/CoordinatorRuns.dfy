/** What coordinators collect (L1/src/consensus/cross_shard_atomic.rs): prepares, votes, commits and
    acknowledgements, in that order, after which two correct coordinators hold, for different
    operations on one shard, lists that both pass the tests of `try_acquire_shard_lock` and
    `verify_lock`; and when that cannot be. */
module CoordinatorRuns {
  import opened Bytes
  import opened LockTable
  import opened Sequences
  import opened LockCluster
  import opened ClusterRuns
  import opened ShardAcquisition

  function VoteList(c: Cluster, r: Address, o: OpId, s: ShardId): seq<LockVote>
    requires r in c.nodes
  {
    Entries(c.nodes[r].pendingVotes, o, s)
  }

  function AckFrom(m: Address, o: OpId, s: ShardId): LockAck {
    LockAck(o, s, m, true, [])
  }

  function AcksFrom(ms: seq<Address>, o: OpId, s: ShardId): (acks: seq<LockAck>)
    ensures |acks| == |ms|
  {
    seq(|ms|, i requires 0 <= i < |ms| => AckFrom(ms[i], o, s))
  }

  // ------------------------------------------------------------------ prepares

  /** Every correct one of `ms` has cast an approving vote. */
  ghost predicate AllCast(c: Cluster, o: OpId, s: ShardId, ms: seq<Address>) {
    forall m :: m in ms && m in c.nodes ==> VoteCast(m, o, s, true) in c.history
  }

  /** Members that find the shard free vote for the operation; the tables stay as they are. */
  lemma {:induction false} CastVotes(cm: seq<Address>, s: ShardId, c0: Cluster, steps: seq<Step>, c: Cluster, o: OpId,
                                     ms: seq<Address>)
      returns (steps': seq<Step>, c': Cluster)
    requires cm != [] && Calm(OneCommittee(cm, s), c0, steps, c) && Members(ms) <= Members(cm)
    requires forall m :: m in c.nodes ==> s !in c.nodes[m].localLocks
    ensures Calm(OneCommittee(cm, s), c0, steps', c') && Grown(c, c') && c'.nodes == c.nodes && AllCast(c', o, s, ms)
  {
    steps', c' := steps, c;
    if ms != [] {
      var front, m := ms[..|ms| - 1], ms[|ms| - 1];
      assert ms == front + [m] && m in Members(ms);
      steps', c' := CastVotes(cm, s, c0, steps, c, o, front);
      if m in c.nodes {
        var step := Prepare(m, LockPrepare(o, s, cm[0]), true);
        CalmStep(OneCommittee(cm, s), c0, steps', c', step);
        steps', c' := steps' + [step], Apply(OneCommittee(cm, s), c', step);
        assert c'.history[|c'.history| - 1] == VoteCast(m, o, s, true);
      }
    }
  }

  // ------------------------------------------------------------------ deliveries

  /** Only the lists of `r` for `o` may differ. */
  ghost predicate OnlyLists(c: Cluster, c': Cluster, r: Address, o: OpId, s: ShardId) {
    && c'.history == c.history && c'.nodes.Keys == c.nodes.Keys
    && (forall m :: m in c.nodes ==> c'.nodes[m].localLocks == c.nodes[m].localLocks)
    && forall m, p: OpId :: m in c.nodes && (m, p) != (r, o) ==>
         VoteList(c', m, p, s) == VoteList(c, m, p, s) && Collected(c', m, p, s) == Collected(c, m, p, s)
  }

  ghost predicate VotesDelivered(c: Cluster, c': Cluster, r: Address, o: OpId, s: ShardId, ms: seq<Address>) {
    && r in c.nodes && OnlyLists(c, c', r, o, s)
    && VoteList(c', r, o, s) == VoteList(c, r, o, s) + VotesFrom(ms, o, s)
    && Collected(c', r, o, s) == Collected(c, r, o, s)
  }

  ghost predicate AcksDelivered(c: Cluster, c': Cluster, r: Address, o: OpId, s: ShardId, ms: seq<Address>) {
    && r in c.nodes && OnlyLists(c, c', r, o, s)
    && VoteList(c', r, o, s) == VoteList(c, r, o, s)
    && Collected(c', r, o, s) == Collected(c, r, o, s) + AcksFrom(ms, o, s)
  }

  lemma VotedLists(t: Tables, v: LockVote)
    ensures var t' := Voted(t, v);
            && t'.localLocks == t.localLocks && t'.pendingAcks == t.pendingAcks
            && Entries(t'.pendingVotes, v.atomicId, v.shardId) == Entries(t.pendingVotes, v.atomicId, v.shardId) + [v]
            && forall p: OpId :: p != v.atomicId ==>
                 Entries(t'.pendingVotes, p, v.shardId) == Entries(t.pendingVotes, p, v.shardId)
  {
  }

  lemma AckedLists(t: Tables, a: LockAck)
    ensures var t' := Acked(t, a);
            && t'.localLocks == t.localLocks && t'.pendingVotes == t.pendingVotes
            && Entries(t'.pendingAcks, a.atomicId, a.shardId) == Entries(t.pendingAcks, a.atomicId, a.shardId) + [a]
            && forall p: OpId :: p != a.atomicId ==>
                 Entries(t'.pendingAcks, p, a.shardId) == Entries(t.pendingAcks, p, a.shardId)
  {
  }

  lemma OneVote(cm: seq<Address>, s: ShardId, c: Cluster, c': Cluster, r: Address, o: OpId, ms: seq<Address>,
                m: Address)
    requires VotesDelivered(c, c', r, o, s, ms) && m in cm && AllCast(c, o, s, [m])
    ensures Enabled(OneCommittee(cm, s), c', DeliverVote(r, VoteFrom(m, o, s)))
    ensures VotesDelivered(c, Apply(OneCommittee(cm, s), c', DeliverVote(r, VoteFrom(m, o, s))), r, o, s, ms + [m])
  {
    var net, v, t := OneCommittee(cm, s), VoteFrom(m, o, s), c'.nodes[r];
    assert m in [m];
    assert Apply(net, c', DeliverVote(r, v)) == c'.(nodes := c'.nodes[r := Voted(t, v)]);
    VotedLists(t, v);
    assert VotesFrom(ms + [m], o, s) == VotesFrom(ms, o, s) + [v];
  }

  lemma OneAck(cm: seq<Address>, s: ShardId, c: Cluster, c': Cluster, r: Address, o: OpId, ms: seq<Address>, m: Address)
    requires AcksDelivered(c, c', r, o, s, ms) && m in cm && (m in c.nodes ==> AckSent(m, o, s) in c.history)
    ensures Enabled(OneCommittee(cm, s), c', DeliverAck(r, AckFrom(m, o, s)))
    ensures AcksDelivered(c, Apply(OneCommittee(cm, s), c', DeliverAck(r, AckFrom(m, o, s))), r, o, s, ms + [m])
  {
    var net, a, t := OneCommittee(cm, s), AckFrom(m, o, s), c'.nodes[r];
    assert Apply(net, c', DeliverAck(r, a)) == c'.(nodes := c'.nodes[r := Acked(t, a)]);
    AckedLists(t, a);
    assert AcksFrom(ms + [m], o, s) == AcksFrom(ms, o, s) + [a];
  }

  /** Votes that were cast are recorded, in order, and nothing else changes. */
  lemma {:induction false} DeliverVotes(cm: seq<Address>, s: ShardId, c0: Cluster, steps: seq<Step>, c: Cluster,
                                        r: Address, o: OpId, ms: seq<Address>)
      returns (steps': seq<Step>, c': Cluster)
    requires Calm(OneCommittee(cm, s), c0, steps, c) && r in c.nodes
    requires Members(ms) <= Members(cm) && AllCast(c, o, s, ms)
    ensures Calm(OneCommittee(cm, s), c0, steps', c') && VotesDelivered(c, c', r, o, s, ms)
  {
    steps', c' := steps, c;
    if ms != [] {
      var front, m := ms[..|ms| - 1], ms[|ms| - 1];
      assert ms == front + [m] && m in Members(ms);
      steps', c' := DeliverVotes(cm, s, c0, steps, c, r, o, front);
      OneVote(cm, s, c, c', r, o, front, m);
      CalmStep(OneCommittee(cm, s), c0, steps', c', DeliverVote(r, VoteFrom(m, o, s)));
      steps', c' := steps' + [DeliverVote(r, VoteFrom(m, o, s))],
        Apply(OneCommittee(cm, s), c', DeliverVote(r, VoteFrom(m, o, s)));
    }
  }

  /** Acknowledgements that were sent are recorded, in order, and nothing else changes. */
  lemma {:induction false} DeliverAcks(cm: seq<Address>, s: ShardId, c0: Cluster, steps: seq<Step>, c: Cluster,
                                       r: Address, o: OpId, ms: seq<Address>)
      returns (steps': seq<Step>, c': Cluster)
    requires Calm(OneCommittee(cm, s), c0, steps, c) && r in c.nodes
    requires Members(ms) <= Members(cm) && forall m :: m in ms && m in c.nodes ==> AckSent(m, o, s) in c.history
    ensures Calm(OneCommittee(cm, s), c0, steps', c') && AcksDelivered(c, c', r, o, s, ms)
  {
    steps', c' := steps, c;
    if ms != [] {
      var front, m := ms[..|ms| - 1], ms[|ms| - 1];
      assert ms == front + [m] && m in Members(ms);
      steps', c' := DeliverAcks(cm, s, c0, steps, c, r, o, front);
      OneAck(cm, s, c, c', r, o, front, m);
      CalmStep(OneCommittee(cm, s), c0, steps', c', DeliverAck(r, AckFrom(m, o, s)));
      steps', c' := steps' + [DeliverAck(r, AckFrom(m, o, s))],
        Apply(OneCommittee(cm, s), c', DeliverAck(r, AckFrom(m, o, s)));
    }
  }

  // ------------------------------------------------------------------ two coordinators

  function Voters(votes: seq<LockVote>): seq<Address> {
    seq(|votes|, i requires 0 <= i < |votes| => votes[i].validator)
  }

  /** `r` has `v` votes and the acknowledgements it asks for, all from different members, none released
      since, and they pass both tests of the round and the check of the lock. */
  ghost predicate Gathers(cm: seq<Address>, c: Cluster, r: Address, o: OpId, s: ShardId, v: nat) {
    && r in c.nodes
    && var (votes, acks) := (VoteList(c, r, o, s), Collected(c, r, o, s));
       && |votes| == v && Distinct(Voters(votes)) && Members(Voters(votes)) <= Members(cm)
       && |acks| == Threshold(v) && Distinct(Signers(acks)) && AckedBy(c, o, s, Members(Signers(acks)))
       && RoundSucceeds(votes, acks)
       && (forall proof: Hash32 :: VerifyLock(OneCommittee(cm, s), LockFrom(o, s, votes, proof), false))
  }

  lemma ListsSuffice(cm: seq<Address>, c: Cluster, r: Address, o: OpId, s: ShardId, v: nat, ackers: seq<Address>)
    requires Distinct(cm) && 1 <= v <= |cm| && (|cm| * 2 + 2) / 3 <= v && r in c.nodes
    requires VoteList(c, r, o, s) == VotesFrom(cm[..v], o, s) && Collected(c, r, o, s) == AcksFrom(ackers, o, s)
    requires Distinct(ackers) && |ackers| == Threshold(v) && AckedBy(c, o, s, Members(ackers))
    ensures Gathers(cm, c, r, o, s, v)
  {
    assert Voters(VotesFrom(cm[..v], o, s)) == cm[..v];
    assert Signers(AcksFrom(ackers, o, s)) == ackers;
    AllApproved(VotesFrom(cm[..v], o, s));
  }

  /** No lock on the shard, no lists, no releases, no handlers. */
  ghost predicate Fresh(c: Cluster, s: ShardId) {
    && NoReleases(c.history)
    && forall m :: m in c.nodes ==> s !in c.nodes[m].localLocks
                                    && c.nodes[m].pendingVotes == map[] && c.nodes[m].pendingAcks == map[]
  }

  /** The cluster once both coordinators have their votes. */
  ghost predicate HaveVotes(cm: seq<Address>, s: ShardId, c0: Cluster, c: Cluster, r1: Address, o1: OpId, v1: nat,
                         r2: Address, o2: OpId, v2: nat)
    requires v1 <= |cm| && v2 <= |cm|
  {
    && c.nodes.Keys == c0.nodes.Keys && NoReleases(c.history) && r1 in c.nodes && r2 in c.nodes
    && (forall m :: m in c.nodes ==> s !in c.nodes[m].localLocks)
    && VoteList(c, r1, o1, s) == VotesFrom(cm[..v1], o1, s) && Collected(c, r1, o1, s) == []
    && VoteList(c, r2, o2, s) == VotesFrom(cm[..v2], o2, s) && Collected(c, r2, o2, s) == []
  }

  /** Members vote for both operations. */
  lemma CastBoth(cm: seq<Address>, s: ShardId, c0: Cluster, v1: nat, v2: nat, o1: OpId, o2: OpId)
      returns (steps: seq<Step>, c: Cluster)
    requires cm != [] && v1 <= |cm| && v2 <= |cm| && c0.handlers == map[] && Fresh(c0, s)
    ensures Calm(OneCommittee(cm, s), c0, steps, c) && c.nodes == c0.nodes && NoReleases(c.history)
    ensures AllCast(c, o1, s, cm[..v1]) && AllCast(c, o2, s, cm[..v2])
  {
    assert Calm(OneCommittee(cm, s), c0, [], c0);
    assert Members(cm[..v1]) <= Members(cm) && Members(cm[..v2]) <= Members(cm);
    steps, c := CastVotes(cm, s, c0, [], c0, o1, cm[..v1]);
    steps, c := CastVotes(cm, s, c0, steps, c, o2, cm[..v2]);
  }

  /** Prepares and votes for both operations. */
  lemma VoteForBoth(cm: seq<Address>, s: ShardId, c0: Cluster, v1: nat, v2: nat, r1: Address, o1: OpId,
                    r2: Address, o2: OpId)
      returns (steps: seq<Step>, c: Cluster)
    requires cm != [] && v1 <= |cm| && v2 <= |cm| && o1 != o2
    requires c0.handlers == map[] && Fresh(c0, s) && r1 in c0.nodes && r2 in c0.nodes
    ensures Calm(OneCommittee(cm, s), c0, steps, c) && HaveVotes(cm, s, c0, c, r1, o1, v1, r2, o2, v2)
  {
    var cast, once;
    steps, cast := CastBoth(cm, s, c0, v1, v2, o1, o2);
    assert Members(cm[..v1]) <= Members(cm) && Members(cm[..v2]) <= Members(cm);
    steps, once := DeliverVotes(cm, s, c0, steps, cast, r1, o1, cm[..v1]);
    assert VoteList(once, r1, o1, s) == VotesFrom(cm[..v1], o1, s);
    assert VoteList(once, r2, o2, s) == [] && Collected(once, r2, o2, s) == [];
    steps, c := DeliverVotes(cm, s, c0, steps, once, r2, o2, cm[..v2]);
  }

  lemma AckedMeansSent(c: Cluster, o: OpId, s: ShardId, ackers: seq<Address>)
    requires AckedBy(c, o, s, Members(ackers))
    ensures forall m :: m in ackers && m in c.nodes ==> AckSent(m, o, s) in c.history
  {
    forall m | m in ackers && m in c.nodes ensures AckSent(m, o, s) in c.history {
      assert m in Members(ackers);
    }
  }

  /** `r` has its votes and no acknowledgements yet, and those it needs have been sent. */
  ghost predicate Ready(cm: seq<Address>, s: ShardId, c: Cluster, r: Address, o: OpId, v: nat, ackers: seq<Address>)
    requires v <= |cm|
  {
    && r in c.nodes && VoteList(c, r, o, s) == VotesFrom(cm[..v], o, s) && Collected(c, r, o, s) == []
    && Distinct(ackers) && |ackers| == Threshold(v) && Members(ackers) <= Members(cm)
    && AckedBy(c, o, s, Members(ackers))
  }

  lemma ReadyAfterCommits(cm: seq<Address>, s: ShardId, voted: Cluster, c: Cluster, r: Address, o: OpId, v: nat,
                          ackers: seq<Address>)
    requires v <= |cm| && r in voted.nodes
    requires VoteList(voted, r, o, s) == VotesFrom(cm[..v], o, s) && Collected(voted, r, o, s) == []
    requires SameLists(voted, c) && AckerList(cm, ackers, Threshold(v)) && AckedBy(c, o, s, Members(ackers))
    ensures Ready(cm, s, c, r, o, v, ackers)
  {
  }

  /** Both coordinators receive their acknowledgements. */
  lemma AckBoth(cm: seq<Address>, s: ShardId, c0: Cluster, steps: seq<Step>, c: Cluster, v1: nat, v2: nat,
                r1: Address, o1: OpId, ackers1: seq<Address>, r2: Address, o2: OpId, ackers2: seq<Address>)
      returns (steps': seq<Step>, c': Cluster)
    requires Calm(OneCommittee(cm, s), c0, steps, c) && Distinct(cm) && o1 != o2 && r1 in c.nodes && r2 in c.nodes
    requires 1 <= v1 <= |cm| && (|cm| * 2 + 2) / 3 <= v1 && 1 <= v2 <= |cm| && (|cm| * 2 + 2) / 3 <= v2
    requires Ready(cm, s, c, r1, o1, v1, ackers1) && Ready(cm, s, c, r2, o2, v2, ackers2)
    ensures Calm(OneCommittee(cm, s), c0, steps', c')
    ensures Gathers(cm, c', r1, o1, s, v1) && Gathers(cm, c', r2, o2, s, v2)
  {
    AckedMeansSent(c, o1, s, ackers1);
    AckedMeansSent(c, o2, s, ackers2);
    var c1;
    steps', c1 := DeliverAcks(cm, s, c0, steps, c, r1, o1, ackers1);
    steps', c' := DeliverAcks(cm, s, c0, steps', c1, r2, o2, ackers2);
    assert Collected(c1, r1, o1, s) == AcksFrom(ackers1, o1, s);
    ListsSuffice(cm, c', r1, o1, s, v1, ackers1);
    assert Collected(c', r2, o2, s) == AcksFrom(ackers2, o2, s);
    ListsSuffice(cm, c', r2, o2, s, v2, ackers2);
  }

  /** For any two numbers of votes that `verify_lock` accepts and whose levels together do not exceed committee plus
      faulty members, there is a run of prepares, votes, commits and acknowledgements, no handlers
      overlapping, after which two correct coordinators both obtain the shard, for different
      operations. */
  lemma BothObtainTheShard(cm: seq<Address>, faulty: nat, v1: nat, v2: nat, s: ShardId, o1: OpId, o2: OpId)
      returns (correct: set<Address>, steps: seq<Step>, r1: Address, r2: Address)
    requires Distinct(cm) && o1 != o2 && faulty + 2 <= |cm|
    requires (|cm| * 2 + 2) / 3 <= v1 <= |cm| && (|cm| * 2 + 2) / 3 <= v2 <= |cm|
    requires Threshold(v1) + Threshold(v2) <= |cm| + faulty
    ensures ValidRun(OneCommittee(cm, s), Init(correct), steps) && Serial(OneCommittee(cm, s), Init(correct), steps)
    ensures |Members(cm) - correct| == faulty && r1 in correct && r2 in correct && r1 != r2
    ensures Gathers(cm, Exec(OneCommittee(cm, s), Init(correct), steps), r1, o1, s, v1)
    ensures Gathers(cm, Exec(OneCommittee(cm, s), Init(correct), steps), r2, o2, s, v2)
  {
    correct := Members(cm[faulty..]);
    FaultyPart(cm, faulty);
    r1, r2 := cm[|cm| - 2], cm[|cm| - 1];
    assert r1 == cm[faulty..][|cm| - 2 - faulty] && r2 == cm[faulty..][|cm| - 1 - faulty];
    var c;
    steps, c := FullRun(cm, faulty, v1, v2, s, Init(correct), r1, o1, r2, o2);
  }

  /** Prepares, votes, commits. */
  lemma VoteAndCommit(cm: seq<Address>, faulty: nat, v1: nat, v2: nat, s: ShardId, c0: Cluster, r1: Address, o1: OpId,
                      r2: Address, o2: OpId)
      returns (steps: seq<Step>, c: Cluster, ackers1: seq<Address>, ackers2: seq<Address>)
    requires Distinct(cm) && o1 != o2 && faulty < |cm|
    requires (|cm| * 2 + 2) / 3 <= v1 <= |cm| && (|cm| * 2 + 2) / 3 <= v2 <= |cm|
    requires Threshold(v1) + Threshold(v2) <= |cm| + faulty
    requires c0.handlers == map[] && Fresh(c0, s) && c0.nodes.Keys == Members(cm[faulty..])
    requires r1 in c0.nodes && r2 in c0.nodes
    ensures Calm(OneCommittee(cm, s), c0, steps, c)
    ensures Ready(cm, s, c, r1, o1, v1, ackers1) && Ready(cm, s, c, r2, o2, v2, ackers2)
  {
    var voted;
    steps, voted := VoteForBoth(cm, s, c0, v1, v2, r1, o1, r2, o2);
    steps, c, ackers1, ackers2 := CommitBoth(cm, faulty, Threshold(v1), Threshold(v2), s, c0, steps, voted, o1, o2);
    ReadyAfterCommits(cm, s, voted, c, r1, o1, v1, ackers1);
    ReadyAfterCommits(cm, s, voted, c, r2, o2, v2, ackers2);
  }

  /** Prepares, votes, commits, acknowledgements. */
  lemma FullRun(cm: seq<Address>, faulty: nat, v1: nat, v2: nat, s: ShardId, c0: Cluster, r1: Address, o1: OpId,
                r2: Address, o2: OpId)
      returns (steps: seq<Step>, c: Cluster)
    requires Distinct(cm) && o1 != o2 && faulty < |cm|
    requires (|cm| * 2 + 2) / 3 <= v1 <= |cm| && (|cm| * 2 + 2) / 3 <= v2 <= |cm|
    requires Threshold(v1) + Threshold(v2) <= |cm| + faulty
    requires c0.handlers == map[] && Fresh(c0, s) && c0.nodes.Keys == Members(cm[faulty..])
    requires r1 in c0.nodes && r2 in c0.nodes
    ensures Calm(OneCommittee(cm, s), c0, steps, c)
    ensures Gathers(cm, c, r1, o1, s, v1) && Gathers(cm, c, r2, o2, s, v2)
  {
    var committed, ackers1, ackers2;
    steps, committed, ackers1, ackers2 := VoteAndCommit(cm, faulty, v1, v2, s, c0, r1, o1, r2, o2);
    steps, c := AckBoth(cm, s, c0, steps, committed, v1, v2, r1, o1, ackers1, r2, o2, ackers2);
  }

  /** A coordinator computes its acknowledgement level from the votes it received, and `verify_lock` accepts
      ceil(2n/3) of them.  For every committee of five or more with a third faulty, two correct
      coordinators that received just that many both obtain the shard. */
  lemma LevelFromFewestVotes(cm: seq<Address>, s: ShardId, o1: OpId, o2: OpId)
      returns (correct: set<Address>, steps: seq<Step>, r1: Address, r2: Address)
    requires |cm| >= 5 && Distinct(cm) && o1 != o2
    ensures ValidRun(OneCommittee(cm, s), Init(correct), steps) && Serial(OneCommittee(cm, s), Init(correct), steps)
    ensures |Members(cm) - correct| == (|cm| - 1) / 3 && r1 in correct && r2 in correct && r1 != r2
    ensures Gathers(cm, Exec(OneCommittee(cm, s), Init(correct), steps), r1, o1, s, (|cm| * 2 + 2) / 3)
    ensures Gathers(cm, Exec(OneCommittee(cm, s), Init(correct), steps), r2, o2, s, (|cm| * 2 + 2) / 3)
  {
    var v := (|cm| * 2 + 2) / 3;
    correct, steps, r1, r2 := BothObtainTheShard(cm, (|cm| - 1) / 3, v, v, s, o1, o2);
  }

  /** And only such levels: when the two levels together exceed committee plus the members that are faulty or
      overlapping, two coordinators that gather their lists serve one operation, over every run. */
  lemma LevelExcludes(cm: seq<Address>, correct: set<Address>, steady: set<Address>, steps: seq<Step>, s: ShardId,
                      r1: Address, o1: OpId, v1: nat, r2: Address, o2: OpId, v2: nat)
    requires ValidRun(OneCommittee(cm, s), Init(correct), steps) && Distinct(cm)
    requires steady <= correct && forall m :: m in steady ==> Steady(OneCommittee(cm, s), Init(correct), steps, m)
    requires Threshold(v1) + Threshold(v2) > |cm| + |Members(cm) - steady|
    requires Gathers(cm, Exec(OneCommittee(cm, s), Init(correct), steps), r1, o1, s, v1)
    requires Gathers(cm, Exec(OneCommittee(cm, s), Init(correct), steps), r2, o2, s, v2)
    ensures o1 == o2
  {
    var net := OneCommittee(cm, s);
    var c := Exec(net, Init(correct), steps);
    EveryRun(net, correct, steps);
    SignersInCommittee(net, c, r1, o1, s);
    SignersInCommittee(net, c, r2, o2, s);
    var q1, q2 := Signers(Collected(c, r1, o1, s)), Signers(Collected(c, r2, o2, s));
    DistinctSize(q1);
    DistinctSize(q2);
    Exclusion(net, correct, steady, steps, s, o1, Members(q1), o2, Members(q2));
  }

  // ------------------------------------------------------------------ entries, not signers

  /** A run after which `r` has collected `n1` entries for `o1` and `n2` for `o2`, and nothing was locked. */
  ghost predicate Filled(net: Network, correct: set<Address>, steps: seq<Step>, r: Address, s: ShardId,
                         o1: OpId, n1: nat, o2: OpId, n2: nat) {
    && ValidRun(net, Init(correct), steps)
    && var c := Exec(net, Init(correct), steps);
       && c.nodes.Keys == correct && c.history == [] && r in c.nodes
       && |Collected(c, r, o1, s)| == n1 && |Collected(c, r, o2, s)| == n2
  }

  /** Delivering a faulty member's acknowledgement makes its own list longer and leaves another's alone. */
  lemma OneMoreAck(net: Network, correct: set<Address>, steps: seq<Step>, r: Address, s: ShardId, a: LockAck,
                   n1: nat, o: OpId, n2: nat)
    requires Filled(net, correct, steps, r, s, a.atomicId, n1, o, n2)
    requires s in net.committees && a.shardId == s && a.atomicId != o
    requires a.validator in net.committees[s] && a.validator !in correct && net.ackSig(a).Valid?
    ensures Filled(net, correct, steps + [DeliverAck(r, a)], r, s, a.atomicId, n1 + 1, o, n2)
  {
    OneMoreStep(net, Init(correct), steps, Exec(net, Init(correct), steps), DeliverAck(r, a));
  }

  lemma OtherWayRound(net: Network, correct: set<Address>, steps: seq<Step>, r: Address, s: ShardId,
                      o1: OpId, n1: nat, o2: OpId, n2: nat)
    requires Filled(net, correct, steps, r, s, o1, n1, o2, n2)
    ensures Filled(net, correct, steps, r, s, o2, n2, o1, n1)
  {
  }

  /** The two acknowledgements of one member, delivered `k` times each. */
  function RepeatedAcks(r: Address, a1: LockAck, a2: LockAck, k: nat): seq<Step> {
    if k == 0 then [] else RepeatedAcks(r, a1, a2, k - 1) + [DeliverAck(r, a1)] + [DeliverAck(r, a2)]
  }

  /** `record_ack` counts list entries, so distinct signers is a real condition of `CoordinatorExclusion`: one
      faulty member can fill the lists of two operations to any length. */
  lemma {:induction false} OneMemberFillsBothLists(net: Network, correct: set<Address>, r: Address, s: ShardId,
                                                   a1: LockAck, a2: LockAck, k: nat)
    requires r in correct && s in net.committees
    requires a1.shardId == s && a2.shardId == s && a1.atomicId != a2.atomicId
    requires a1.validator == a2.validator && a1.validator in net.committees[s] && a1.validator !in correct
    requires net.ackSig(a1).Valid? && net.ackSig(a2).Valid?
    ensures Filled(net, correct, RepeatedAcks(r, a1, a2, k), r, s, a1.atomicId, k, a2.atomicId, k)
  {
    if k > 0 {
      OneMemberFillsBothLists(net, correct, r, s, a1, a2, k - 1);
      var before := RepeatedAcks(r, a1, a2, k - 1);
      OneMoreAck(net, correct, before, r, s, a1, k - 1, a2.atomicId, k - 1);
      OtherWayRound(net, correct, before + [DeliverAck(r, a1)], r, s, a1.atomicId, k, a2.atomicId, k - 1);
      OneMoreAck(net, correct, before + [DeliverAck(r, a1)], r, s, a2, k - 1, a1.atomicId, k);
      OtherWayRound(net, correct, RepeatedAcks(r, a1, a2, k), r, s, a2.atomicId, k, a1.atomicId, k);
    }
  }
}
