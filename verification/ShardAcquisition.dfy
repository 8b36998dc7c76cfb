/** `acquire_all`: one operation takes all its shards, in order, on one node
    (L1/src/consensus/cross_shard_atomic.rs).  Messages handled while the coordinator waits for
    votes or acknowledgements change the same tables; they are the rounds' interference. */
module ShardAcquisition {
  import opened Bytes
  import opened LockTable

  // ------------------------------------------------------------------ the acquisition order

  function Insert(x: ShardId, s: seq<ShardId>): (r: seq<ShardId>)
    ensures r != []
  {
    if s == [] || x < s[0] then [x] + s
    else if x == s[0] then s
    else [s[0]] + Insert(x, s[1..])
  }

  /** `sort` followed by `dedup`. */
  function SortDedup(s: seq<ShardId>): seq<ShardId> {
    if s == [] then [] else Insert(s[0], SortDedup(s[1..]))
  }

  predicate Increasing(s: seq<int>) {
    forall i, j :: 0 <= i < j < |s| ==> s[i] < s[j]
  }

  lemma PrependIncreasing(x: ShardId, s: seq<ShardId>)
    requires Increasing(s) && (s != [] ==> x < s[0])
    ensures Increasing([x] + s)
  {
  }

  lemma {:induction false} InsertIncreasing(x: ShardId, s: seq<ShardId>)
    requires Increasing(s)
    ensures Increasing(Insert(x, s))
    ensures forall y :: y in Insert(x, s) <==> y == x || y in s
    ensures Insert(x, s)[0] == if s == [] || x < s[0] then x else s[0]
  {
    if s == [] || x < s[0] {
      PrependIncreasing(x, s);
    } else if x > s[0] {
      InsertIncreasing(x, s[1..]);
      PrependIncreasing(s[0], Insert(x, s[1..]));
    }
  }

  /** The order is strictly increasing and covers exactly the shards asked for. */
  lemma {:induction false} AcquisitionOrder(s: seq<ShardId>)
    ensures Increasing(SortDedup(s))
    ensures forall y :: y in SortDedup(s) <==> y in s
  {
    if s != [] {
      AcquisitionOrder(s[1..]);
      InsertIncreasing(s[0], SortDedup(s[1..]));
    }
  }

  lemma HeadsAgree(a: seq<ShardId>, b: seq<ShardId>)
    requires Increasing(a) && Increasing(b) && a != [] && b != []
    requires forall y :: y in a <==> y in b
    ensures a[0] == b[0]
  {
    assert a[0] in b && b[0] in a;
  }

  /** Only one strictly increasing sequence has given elements, so all operations that name the
      same shards, in whatever order and however often, take them in one order. */
  lemma {:induction false} OrderIsCanonical(a: seq<ShardId>, b: seq<ShardId>)
    requires Increasing(a) && Increasing(b)
    requires forall y :: y in a <==> y in b
    ensures a == b
  {
    assert (a != [] ==> a[0] in b) && (b != [] ==> b[0] in a);
    if a != [] {
      HeadsAgree(a, b);
      assert forall y :: y in a[1..] <==> y in a && y != a[0];
      assert forall y :: y in b[1..] <==> y in b && y != b[0];
      OrderIsCanonical(a[1..], b[1..]);
    }
  }

  /** An operation that asked for `request` and has taken the first `taken` shards of its order. */
  datatype Waiter = Waiter(request: seq<ShardId>, taken: nat) {
    predicate Waiting() { taken < |SortDedup(request)| }
    function Wanted(): ShardId requires Waiting() { SortDedup(request)[taken] }
    function Held(): seq<ShardId> requires Waiting() { SortDedup(request)[..taken] }
  }

  lemma {:induction false} GreatestWanted(ws: seq<Waiter>) returns (k: nat)
    requires ws != [] && forall w :: w in ws ==> w.Waiting()
    ensures k < |ws| && forall i :: 0 <= i < |ws| ==> ws[i].Wanted() <= ws[k].Wanted()
  {
    k := 0;
    for i := 0 to |ws|
      invariant k < |ws| && forall j :: 0 <= j < i ==> ws[j].Wanted() <= ws[k].Wanted()
    {
      if ws[i].Wanted() > ws[k].Wanted() { k := i; }
    }
  }

  /** In any ring of waiting operations, of any size, some operation wants a shard that the next
      one does not hold: no deadlock. */
  lemma NoWaitCycle(ws: seq<Waiter>)
    requires ws != [] && forall w :: w in ws ==> w.Waiting()
    ensures exists i :: 0 <= i < |ws| && ws[i].Wanted() !in ws[(i + 1) % |ws|].Held()
  {
    var k := GreatestWanted(ws);
    var next := ws[(k + 1) % |ws|];
    AcquisitionOrder(next.request);
    assert next.Wanted() <= ws[k].Wanted();
    assert ws[k].Wanted() !in next.Held();
  }

  // ------------------------------------------------------------------ the acquisition itself

  /** What other messages and other operations on this node do meanwhile. */
  datatype Interference =
    | GotVote(vote: LockVote)
    | GotAck(ack: LockAck)
    | GotCommit(op: OpId, shard: ShardId)
    | GotRelease(op: OpId, shard: ShardId)
    | Registered(op: OpId, locks: seq<ShardLock>)
    | Unregistered(op: OpId)

  /** What the world does during one round: whether the five-second budget was spent before it, whether
      the two messages serialise, what was handled while waiting for votes and for acknowledgements,
      and whether the lock was stale when it was checked. */
  datatype Round = Round(timedOut: bool, prepareSerializes: bool, beforeVotes: seq<Interference>,
                         commitSerializes: bool, beforeAcks: seq<Interference>, stale: bool)

  /** The lock registry after other operations' registrations; an operation's own entry is written by
      its own task only. */
  function Registry(locks: map<OpId, seq<ShardLock>>, during: seq<Interference>, own: OpId): map<OpId, seq<ShardLock>> {
    if during == [] then locks
    else
      var before, last := Registry(locks, during[..|during| - 1], own), during[|during| - 1];
      match last
      case Registered(o, ls) => if o == own then before else before[o := ls]
      case Unregistered(o) => if o == own then before else before - {o}
      case _ => before
  }

  lemma {:induction false} OwnEntryStays(locks: map<OpId, seq<ShardLock>>, during: seq<Interference>, own: OpId)
    ensures var after := Registry(locks, during, own);
            (own in after <==> own in locks) && (own in locks ==> after[own] == locks[own])
  {
    if during != [] { OwnEntryStays(locks, during[..|during| - 1], own); }
  }

  lemma {:induction false} RegistryConcat(locks: map<OpId, seq<ShardLock>>, a: seq<Interference>, b: seq<Interference>,
                                          own: OpId)
    ensures Registry(locks, a + b, own) == Registry(Registry(locks, a, own), b, own)
  {
    if b == [] {
      assert a + b == a;
    } else {
      RegistryConcat(locks, a, b[..|b| - 1], own);
      assert (a + b)[..|a + b| - 1] == a + b[..|b| - 1];
    }
  }

  /** One of these on the node's tables. */
  function Disturb(t: Tables, e: Interference, own: OpId): Tables {
    match e
    case GotVote(v) => Voted(t, v)
    case GotAck(a) => Acked(t, a)
    case GotCommit(o, s) => if Conflicts(t, s, o) then t else Locked(t, o, s)
    case GotRelease(o, s) => Released(t, o, s)
    case Registered(o, ls) => if o == own then t else t.(locks := t.locks[o := ls])
    case Unregistered(o) => if o == own then t else t.(locks := t.locks - {o})
  }

  function Disturbed(t: Tables, during: seq<Interference>, own: OpId): Tables {
    if during == [] then t else Disturb(Disturbed(t, during[..|during| - 1], own), during[|during| - 1], own)
  }

  lemma {:induction false} RegistryOfDisturbed(t: Tables, during: seq<Interference>, own: OpId)
    ensures Disturbed(t, during, own).locks == Registry(t.locks, during, own)
  {
    if during != [] { RegistryOfDisturbed(t, during[..|during| - 1], own); }
  }

  /** Whatever others do meanwhile, a shard locked on the node stays locked for its operation until that operation
      releases it. */
  lemma {:induction false} LocksSurvive(t: Tables, during: seq<Interference>, own: OpId, op: OpId, shard: ShardId)
    requires Holds(t, shard, op) && GotRelease(op, shard) !in during
    ensures Holds(Disturbed(t, during, own), shard, op)
  {
    if during != [] {
      var front, e := during[..|during| - 1], during[|during| - 1];
      LocksSurvive(t, front, own, op, shard);
      assert e in during;
      if e.GotRelease? { ReleaseFrame(Disturbed(t, front, own), e.op, e.shard); }
    }
  }

  method Interfere(m: DistributedLockManager, during: seq<Interference>, own: OpId)
    modifies m
    ensures m.State() == Disturbed(old(m.State()), during, own)
    ensures m.locks == Registry(old(m.locks), during, own)
  {
    for i := 0 to |during|
      invariant m.State() == Disturbed(old(m.State()), during[..i], own)
    {
      assert during[..i + 1][..i] == during[..i];
      match during[i]
      case GotVote(v) => m.RecordVote(v);
      case GotAck(a) => m.RecordAck(a);
      case GotCommit(o, s) => var _ := m.ApplyLock(o, s);
      case GotRelease(o, s) => m.ReleaseLock(o, s);
      case Registered(o, ls) => if o != own { m.locks := m.locks[o := ls]; }
      case Unregistered(o) => if o != own { m.locks := m.locks - {o}; }
    }
    assert during[..|during|] == during;
    RegistryOfDisturbed(old(m.State()), during, own);
  }

  function ApprovedSignatures(votes: seq<LockVote>): (r: seq<seq<byte>>)
    ensures |r| == CountApproved(votes)
  {
    if votes == [] then []
    else
      var last := votes[|votes| - 1];
      ApprovedSignatures(votes[..|votes| - 1]) + if last.approved then [last.signature] else []
  }

  /** The signatures kept are those of the approving votes, each once, in the order of the votes. */
  lemma {:induction false} SignaturesAreApprovals(votes: seq<LockVote>) returns (at: seq<nat>)
    ensures Increasing(at) && (set i | i in at) == Approvals(votes) && TakenAt(votes, at, ApprovedSignatures(votes))
  {
    at := [];
    if votes == [] {
      assert Approvals(votes) == {};
    } else {
      var front, n := votes[..|votes| - 1], |votes| - 1;
      at := SignaturesAreApprovals(front);
      ApprovalsNext(votes);
      TakenFromMore(votes, at, ApprovedSignatures(front));
      if votes[n].approved {
        assert (set i | i in at + [n]) == (set i | i in at) + {n};
        at := at + [n];
      }
    }
  }

  /** The signatures of the votes at these places, in this order. */
  predicate TakenAt(votes: seq<LockVote>, at: seq<nat>, signatures: seq<seq<byte>>) {
    && |at| == |signatures|
    && forall k :: 0 <= k < |at| ==> at[k] < |votes| && signatures[k] == votes[at[k]].signature
  }

  lemma TakenFromMore(votes: seq<LockVote>, at: seq<nat>, signatures: seq<seq<byte>>)
    requires votes != [] && TakenAt(votes[..|votes| - 1], at, signatures)
    ensures TakenAt(votes, at, signatures)
    ensures TakenAt(votes, at + [|votes| - 1], signatures + [votes[|votes| - 1].signature])
    ensures forall k :: 0 <= k < |at| ==> at[k] < |votes| - 1
  {
  }

  predicate VerifyLock(net: Network, lock: ShardLock, stale: bool) {
    && lock.shardId in net.committees
    && |lock.validatorSignatures| >= (|net.committees[lock.shardId]| * 2 + 2) / 3
    && lock.consensusProof != []
    && !stale
  }

  /** A lock verifies exactly when it has the signatures of two thirds of its shard's committee and a proof, and is
      not stale. */
  lemma VerifiedIff(net: Network, lock: ShardLock, stale: bool)
    ensures VerifyLock(net, lock, stale) <==>
              && lock.shardId in net.committees
              && 3 * |lock.validatorSignatures| >= 2 * |net.committees[lock.shardId]|
              && |lock.consensusProof| > 0 && !stale
  {
  }

  /** The two tests of a round: approvals and acknowledgements against two thirds of the votes that arrived. */
  predicate RoundSucceeds(votes: seq<LockVote>, acks: seq<LockAck>) {
    CountApproved(votes) >= Threshold(|votes|) && |acks| >= Threshold(|votes|)
  }

  /** Over two thirds of the votes that arrived approve, and as many acknowledgements arrived. */
  lemma RoundSucceedsIff(votes: seq<LockVote>, acks: seq<LockAck>)
    ensures RoundSucceeds(votes, acks) <==> 3 * |Approvals(votes)| > 2 * |votes| && 3 * |acks| > 2 * |votes|
  {
    CountIsApprovals(votes);
  }

  function LockFrom(op: OpId, shard: ShardId, votes: seq<LockVote>, proof: Hash32): ShardLock {
    ShardLock(op, shard, proof, ApprovedSignatures(votes))
  }

  /** The votes a round sees, and the acknowledgements. */
  function VotesSeen(t: Tables, op: OpId, shard: ShardId, round: Round): seq<LockVote> {
    Entries(Disturbed(t, round.beforeVotes, op).pendingVotes, op, shard)
  }

  function AcksSeen(t: Tables, op: OpId, shard: ShardId, round: Round): seq<LockAck> {
    Entries(Disturbed(Disturbed(t, round.beforeVotes, op), round.beforeAcks, op).pendingAcks, op, shard)
  }

  type ProofHash = (seq<LockVote>, seq<LockAck>) -> Hash32

  /** The round as a whole: the tables afterwards, and the answer. */
  function Attempt(net: Network, t: Tables, op: OpId, shard: ShardId, round: Round, proofHash: ProofHash):
      (Tables, Result<ShardLock>)
  {
    if shard !in net.committees then (t, Err(CommitteeNotFound(shard)))
    else if !round.prepareSerializes then (t, Err(SerializationFailed))
    else
      var t1, votes := Disturbed(t, round.beforeVotes, op), VotesSeen(t, op, shard, round);
      if CountApproved(votes) < Threshold(|votes|) then
        (t1, Err(ConsensusNotReached(Threshold(|votes|), CountApproved(votes))))
      else if !round.commitSerializes then (t1, Err(SerializationFailed))
      else
        var t2, acks := Disturbed(t1, round.beforeAcks, op), AcksSeen(t, op, shard, round);
        if |acks| < Threshold(|votes|) then (Released(t2, op, shard), Err(LockAcquisitionFailed))
        else (t2, Ok(LockFrom(op, shard, votes, proofHash(votes, acks))))
  }

  /** A round obtains the lock exactly when the shard has a committee, both messages serialise, and over two thirds of
      the votes that arrived approve and as many acknowledgements arrived; then nothing but the
      interference has changed the tables.  A round that falls short of acknowledgements releases. */
  lemma AttemptSucceedsIff(net: Network, t: Tables, op: OpId, shard: ShardId, round: Round, proofHash: ProofHash)
    ensures var ((t', r), votes, acks) := (Attempt(net, t, op, shard, round, proofHash), VotesSeen(t, op, shard, round),
                                           AcksSeen(t, op, shard, round));
            var (enough, acked) := (3 * |Approvals(votes)| > 2 * |votes|, 3 * |acks| > 2 * |votes|);
            && (r.Ok? <==> && shard in net.committees && round.prepareSerializes && round.commitSerializes
                           && enough && acked)
            && (r.Ok? ==> && t' == Disturbed(Disturbed(t, round.beforeVotes, op), round.beforeAcks, op)
                          && r.value.atomicId == op && r.value.shardId == shard
                          && r.value.consensusProof == proofHash(votes, acks)
                          && r.value.validatorSignatures == ApprovedSignatures(votes))
            && (r == Err(CommitteeNotFound(shard)) <==> shard !in net.committees)
            && (r == Err(SerializationFailed) <==> && shard in net.committees
                                                   && (!round.prepareSerializes || (enough && !round.commitSerializes)))
            && (r == Err(LockAcquisitionFailed) <==> && shard in net.committees && round.prepareSerializes
                                                     && round.commitSerializes && enough && !acked)
            && (r == Err(LockAcquisitionFailed) ==> !Holds(t', shard, op))
            && (r.Err? && r.error.ConsensusNotReached? <==>
                  shard in net.committees && round.prepareSerializes && !enough)
  {
    CountIsApprovals(VotesSeen(t, op, shard, round));
    ReleaseFrame(Disturbed(Disturbed(t, round.beforeVotes, op), round.beforeAcks, op), op, shard);
  }

  /** One shard: prepare, votes, commit, acknowledgements. */
  method TryAcquireShardLock(m: DistributedLockManager, net: Network, op: OpId, shard: ShardId, round: Round,
                             proofHash: ProofHash)
      returns (r: Result<ShardLock>, ghost others: seq<Interference>)
    modifies m
    ensures (m.State(), r) == Attempt(net, old(m.State()), op, shard, round, proofHash)
    ensures m.locks == Registry(old(m.locks), others, op)
  {
    others := [];
    if shard !in net.committees { return Err(CommitteeNotFound(shard)), others; }
    if !round.prepareSerializes { return Err(SerializationFailed), others; }
    Interfere(m, round.beforeVotes, op);
    others := round.beforeVotes;
    var votes := Entries(m.pendingVotes, op, shard);
    var threshold := Threshold(|votes|);
    if CountApproved(votes) < threshold {
      return Err(ConsensusNotReached(threshold, CountApproved(votes))), others;
    }
    if !round.commitSerializes { return Err(SerializationFailed), others; }
    RegistryConcat(old(m.locks), round.beforeVotes, round.beforeAcks, op);
    Interfere(m, round.beforeAcks, op);
    others := others + round.beforeAcks;
    var acks := Entries(m.pendingAcks, op, shard);
    if |acks| < threshold {
      m.ReleaseLock(op, shard);
      return Err(LockAcquisitionFailed), others;
    }
    r := Ok(LockFrom(op, shard, votes, proofHash(votes, acks)));
  }

  function ShardIds(locks: seq<ShardLock>): (r: seq<ShardId>)
    ensures |r| == |locks|
  {
    seq(|locks|, i requires 0 <= i < |locks| => locks[i].shardId)
  }

  ghost predicate AllFor(locks: seq<ShardLock>, op: OpId) {
    forall l :: l in locks ==> l.atomicId == op
  }

  method ReleaseEach(m: DistributedLockManager, op: OpId, acquired: seq<ShardLock>)
    requires AllFor(acquired, op)
    modifies m
    ensures m.locks == old(m.locks)
    ensures forall s :: s in ShardIds(acquired) ==> !Holds(m.State(), s, op)
    ensures forall s: ShardId, o: OpId :: o != op ==> (Holds(m.State(), s, o) <==> Holds(old(m.State()), s, o))
  {
    for i := 0 to |acquired|
      invariant m.locks == old(m.locks)
      invariant forall j :: 0 <= j < i ==> !Holds(m.State(), ShardIds(acquired)[j], op)
      invariant forall s: ShardId, o: OpId :: o != op ==> (Holds(m.State(), s, o) <==> Holds(old(m.State()), s, o))
    {
      ReleaseFrame(m.State(), op, acquired[i].shardId);
      assert acquired[i].atomicId == op;
      m.ReleaseLock(acquired[i].atomicId, acquired[i].shardId);
    }
  }

  /** An acquisition: who asks for which shards, in order, and what the world does in each round. */
  datatype Plan = Plan(net: Network, op: OpId, order: seq<ShardId>, rounds: nat -> Round, proofHash: ProofHash)

  /** The tables before round `n` if every round before it obtained its lock. */
  function TablesAt(p: Plan, t: Tables, n: nat): Tables
    requires n <= |p.order|
  {
    if n == 0 then t
    else Attempt(p.net, TablesAt(p, t, n - 1), p.op, p.order[n - 1], p.rounds(n - 1), p.proofHash).0
  }

  function AttemptAt(p: Plan, t: Tables, n: nat): Result<ShardLock>
    requires n < |p.order|
  {
    Attempt(p.net, TablesAt(p, t, n), p.op, p.order[n], p.rounds(n), p.proofHash).1
  }

  /** Round `n` is in time, obtains the lock, and the lock verifies. */
  predicate Works(p: Plan, t: Tables, n: nat) {
    && n < |p.order| && !p.rounds(n).timedOut
    && var lock := AttemptAt(p, t, n); lock.Ok? && VerifyLock(p.net, lock.value, p.rounds(n).stale)
  }

  ghost predicate AllWork(p: Plan, t: Tables) {
    forall n: nat :: n < |p.order| ==> Works(p, t, n)
  }

  /** The locks of the rounds so far, all of which worked. */
  ghost predicate Obtained(p: Plan, t: Tables, locks: seq<ShardLock>) {
    && |locks| <= |p.order|
    && forall n: nat :: n < |locks| ==> Works(p, t, n) && AttemptAt(p, t, n) == Ok(locks[n])
  }

  /** Round `n` is the first that does not work, and `e` says why. */
  ghost predicate StopsAt(p: Plan, t: Tables, n: nat, e: AtomicError) {
    && n < |p.order| && !Works(p, t, n) && (forall i: nat :: i < n ==> Works(p, t, i))
    && var lock := AttemptAt(p, t, n);
       e == if p.rounds(n).timedOut then LockTimeout else if lock.Err? then lock.error else LockAcquisitionFailed
  }

  /** The lock carries the signatures of two thirds of its shard's committee, and a proof. */
  predicate TwoThirdsSigned(net: Network, l: ShardLock) {
    && l.shardId in net.committees
    && 3 * |l.validatorSignatures| >= 2 * |net.committees[l.shardId]| && |l.consensusProof| > 0
  }

  lemma ObtainedLocks(p: Plan, t: Tables, locks: seq<ShardLock>)
    requires Obtained(p, t, locks)
    ensures ShardIds(locks) == p.order[..|locks|] && AllFor(locks, p.op)
    ensures forall l :: l in locks ==> TwoThirdsSigned(p.net, l)
  {
    forall n: nat | n < |locks|
      ensures locks[n].shardId == p.order[n] && locks[n].atomicId == p.op && TwoThirdsSigned(p.net, locks[n])
    {
      assert Works(p, t, n);
      AttemptSucceedsIff(p.net, TablesAt(p, t, n), p.op, p.order[n], p.rounds(n), p.proofHash);
      VerifiedIff(p.net, locks[n], p.rounds(n).stale);
    }
  }

  lemma OneMoreObtained(p: Plan, t: Tables, locks: seq<ShardLock>, lock: ShardLock)
    requires Obtained(p, t, locks) && Works(p, t, |locks|) && AttemptAt(p, t, |locks|) == Ok(lock)
    ensures Obtained(p, t, locks + [lock])
  {
  }

  lemma StopsAfter(p: Plan, t: Tables, locks: seq<ShardLock>, e: AtomicError)
    requires Obtained(p, t, locks) && |locks| < |p.order| && !Works(p, t, |locks|)
    requires var lock := AttemptAt(p, t, |locks|);
             e == if p.rounds(|locks|).timedOut then LockTimeout else if lock.Err? then lock.error
                  else LockAcquisitionFailed
    ensures StopsAt(p, t, |locks|, e) && !AllWork(p, t)
  {
  }

  /** All or nothing over the operation's shards.  It succeeds exactly when every round is in time, obtains its lock and
      the lock verifies.  Then the locks are the rounds', for exactly the requested shards in increasing
      order, each with the signatures of two thirds of its committee, and are registered.  Otherwise it
      answers with the error of the first round that does not work (`done`), and no shard taken in an
      earlier round is held by the operation, whatever was handled meanwhile.  Either way the registry
      is otherwise what other operations (`others`) made of it. */
  method AcquireAll(m: DistributedLockManager, net: Network, op: OpId, requested: seq<ShardId>,
                    rounds: nat -> Round, proofHash: ProofHash)
      returns (r: Result<seq<ShardLock>>, ghost done: nat, ghost others: seq<Interference>)
    modifies m
    ensures var (p, t) := (Plan(net, op, SortDedup(requested), rounds, proofHash), old(m.State()));
            && (r.Ok? <==> AllWork(p, t))
            && (r.Ok? ==> |r.value| == |p.order| && Obtained(p, t, r.value))
            && (r.Err? ==> StopsAt(p, t, done, r.error))
    ensures r.Ok? ==> ShardIds(r.value) == SortDedup(requested) && AllFor(r.value, op)
                      && m.locks == Registry(old(m.locks), others, op)[op := r.value]
    ensures r.Ok? ==> forall l :: l in r.value ==> TwoThirdsSigned(net, l)
    ensures r.Err? ==> m.locks == Registry(old(m.locks), others, op)
                       && forall s :: s in SortDedup(requested)[..done] ==> !Holds(m.State(), s, op)
  {
    var order := SortDedup(requested);
    var acquired: seq<ShardLock> := [];
    ghost var p, t := Plan(net, op, order, rounds, proofHash), m.State();
    done, others := 0, [];
    while |acquired| < |order|
      invariant done == |acquired| && Obtained(p, t, acquired) && m.State() == TablesAt(p, t, done)
      invariant m.locks == Registry(old(m.locks), others, op)
    {
      var shard := order[|acquired|];
      var round := rounds(|acquired|);
      if round.timedOut {
        ObtainedLocks(p, t, acquired);
        ReleaseEach(m, op, acquired);
        StopsAfter(p, t, acquired, LockTimeout);
        return Err(LockTimeout), done, others;
      }
      var lock, during := TryAcquireShardLock(m, net, op, shard, round, proofHash);
      assert lock == AttemptAt(p, t, done);
      RegistryConcat(old(m.locks), others, during, op);
      others := others + during;
      if lock.Err? {
        ObtainedLocks(p, t, acquired);
        ReleaseEach(m, op, acquired);
        StopsAfter(p, t, acquired, lock.error);
        return Err(lock.error), done, others;
      }
      if !VerifyLock(net, lock.value, round.stale) {
        ObtainedLocks(p, t, acquired);
        ReleaseEach(m, op, acquired);
        StopsAfter(p, t, acquired, LockAcquisitionFailed);
        return Err(LockAcquisitionFailed), done, others;
      }
      OneMoreObtained(p, t, acquired, lock.value);
      acquired := acquired + [lock.value];
      done := done + 1;
    }
    ObtainedLocks(p, t, acquired);
    assert order[..|acquired|] == order;
    m.locks := m.locks[op := acquired];
    r := Ok(acquired);
  }

  /** `release_all`: afterwards the operation is unregistered and holds none of its registered shards;
      every other operation's locks are untouched. */
  method ReleaseAll(m: DistributedLockManager, op: OpId)
    requires op in m.locks ==> AllFor(m.locks[op], op)
    modifies m
    ensures m.locks == old(m.locks) - {op}
    ensures op in old(m.locks) ==> forall s :: s in ShardIds(old(m.locks)[op]) ==> !Holds(m.State(), s, op)
    ensures forall s: ShardId, o: OpId :: o != op ==> (Holds(m.State(), s, o) <==> Holds(old(m.State()), s, o))
  {
    if op in m.locks {
      var registered := m.locks[op];
      m.locks := m.locks - {op};
      ReleaseEach(m, op, registered);
    }
  }
}
