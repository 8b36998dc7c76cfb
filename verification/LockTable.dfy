/** One node's view of the cross-shard lock protocol: the tables of `DistributedLockManager`
    and the five message handlers of `CrossShardAtomicProtocol`
    (L1/src/consensus/cross_shard_atomic.rs).  `Tables` is the value of the lock manager's maps;
    the classes update those maps in place and are proved to follow the functions on `Tables`. */
module LockTable {
  import opened Bytes

  type OpId = Hash32
  type ShardId = s: int | 0 <= s <= 0xFFFF

  datatype AtomicError =
    | CommitteeNotFound(shard: ShardId)
    | UnauthorizedSender
    | NotCommitteeMember
    | ConsensusNotReached(needed: nat, received: nat)
    | LockConflict(conflict: ShardId)
    | SigningFailed
    | SerializationFailed
    | LockTimeout
    | LockAcquisitionFailed

  datatype Result<+T> = Ok(value: T) | Err(error: AtomicError)

  datatype LockPrepare = LockPrepare(atomicId: OpId, shardId: ShardId, requester: Address)
  datatype LockVote = LockVote(atomicId: OpId, shardId: ShardId, validator: Address,
                               approved: bool, signature: seq<byte>)
  datatype LockCommit = LockCommit(atomicId: OpId, shardId: ShardId, votes: seq<LockVote>)
  datatype LockAck = LockAck(atomicId: OpId, shardId: ShardId, validator: Address,
                             acknowledged: bool, signature: seq<byte>)
  datatype LockAbort = LockAbort(atomicId: OpId, shardId: ShardId)
  datatype ShardLock = ShardLock(atomicId: OpId, shardId: ShardId, consensusProof: seq<byte>,
                                 validatorSignatures: seq<seq<byte>>)

  /** What a handler looks up outside the lock tables: the committees of the current epoch
      (a shard without one is absent) and ML-DSA-65 verification against the registry. */
  datatype Network = Network(committees: map<ShardId, seq<Address>>,
                             voteSig: LockVote -> Signed, ackSig: LockAck -> Signed)

  /** What verification answers: a signature is good, bad or its signer unknown, or it cannot be checked. */
  datatype Signed = Valid | Invalid | Unverifiable

  datatype Tables = Tables(localLocks: map<ShardId, OpId>,
                           pendingVotes: map<(OpId, ShardId), seq<LockVote>>,
                           pendingAcks: map<(OpId, ShardId), seq<LockAck>>,
                           locks: map<OpId, seq<ShardLock>>)

  const EMPTY_TABLES: Tables := Tables(map[], map[], map[], map[])

  predicate Holds(t: Tables, shard: ShardId, op: OpId) {
    shard in t.localLocks && t.localLocks[shard] == op
  }

  predicate Conflicts(t: Tables, shard: ShardId, op: OpId) {
    shard in t.localLocks && t.localLocks[shard] != op
  }

  function Entries<T>(m: map<(OpId, ShardId), seq<T>>, op: OpId, shard: ShardId): seq<T> {
    if (op, shard) in m then m[(op, shard)] else []
  }

  function Locked(t: Tables, op: OpId, shard: ShardId): Tables {
    t.(localLocks := t.localLocks[shard := op])
  }

  function Released(t: Tables, op: OpId, shard: ShardId): Tables {
    t.(localLocks := if Holds(t, shard, op) then t.localLocks - {shard} else t.localLocks,
       pendingVotes := t.pendingVotes - {(op, shard)},
       pendingAcks := t.pendingAcks - {(op, shard)})
  }

  function Voted(t: Tables, v: LockVote): Tables {
    t.(pendingVotes := t.pendingVotes[(v.atomicId, v.shardId) :=
         Entries(t.pendingVotes, v.atomicId, v.shardId) + [v]])
  }

  function Acked(t: Tables, a: LockAck): Tables {
    t.(pendingAcks := t.pendingAcks[(a.atomicId, a.shardId) :=
         Entries(t.pendingAcks, a.atomicId, a.shardId) + [a]])
  }

  function Threshold(members: nat): nat {
    members * 2 / 3 + 1
  }

  function CountApproved(votes: seq<LockVote>): (n: nat)
    ensures n <= |votes|
  {
    if votes == [] then 0
    else CountApproved(votes[..|votes| - 1]) + if votes[|votes| - 1].approved then 1 else 0
  }

  /** The positions of the approving votes. */
  function Approvals(votes: seq<LockVote>): set<nat> {
    set i: nat | i < |votes| && votes[i].approved
  }

  lemma ApprovalsNext(votes: seq<LockVote>)
    requires votes != []
    ensures var n := |votes| - 1;
            && n !in Approvals(votes[..n])
            && Approvals(votes) == if votes[n].approved then Approvals(votes[..n]) + {n} else Approvals(votes[..n])
  {
    var front := votes[..|votes| - 1];
    assert forall i: nat :: i in Approvals(front) <==> i < |front| && votes[i].approved;
  }

  lemma {:induction false} CountIsApprovals(votes: seq<LockVote>)
    ensures CountApproved(votes) == |Approvals(votes)|
  {
    if votes == [] {
      assert Approvals(votes) == {};
    } else {
      CountIsApprovals(votes[..|votes| - 1]);
      ApprovalsNext(votes);
    }
  }

  /** Everything `handle_lock_commit` checks before it touches the lock table. */
  function CommitRefusal(net: Network, t: Tables, c: LockCommit): (r: Result<()>)
    ensures r.Ok? ==> c.shardId in net.committees && !Conflicts(t, c.shardId, c.atomicId)
  {
    if c.shardId !in net.committees then Err(CommitteeNotFound(c.shardId))
    else if exists v :: v in c.votes && v.validator !in net.committees[c.shardId] then Err(UnauthorizedSender)
    else if CountApproved(c.votes) < Threshold(|net.committees[c.shardId]|) then
      Err(ConsensusNotReached(Threshold(|net.committees[c.shardId]|), CountApproved(c.votes)))
    else if Conflicts(t, c.shardId, c.atomicId) then Err(LockConflict(c.shardId))
    else Ok(())
  }

  /** What the commit handler does once the checks have passed.  `signature` is the outcome of signing the
      acknowledgement: when signing fails the lock is already in the table. */
  function CommitApplied(me: Address, t: Tables, c: LockCommit, signature: Result<seq<byte>>):
      (r: (Tables, Result<LockAck>))
    ensures r.1.Ok? ==> Holds(r.0, c.shardId, c.atomicId) && r.1.value.validator == me
  {
    (Locked(t, c.atomicId, c.shardId),
     if signature.Err? then Err(signature.error)
     else Ok(LockAck(c.atomicId, c.shardId, me, true, signature.value)))
  }

  /** The whole commit handler, undisturbed. */
  function Commit(net: Network, me: Address, t: Tables, c: LockCommit, signature: Result<seq<byte>>):
      (r: (Tables, Result<LockAck>))
    ensures r.1.Ok? ==> Holds(r.0, c.shardId, c.atomicId) && r.1.value.validator == me
    ensures forall s: ShardId, o: OpId :: Holds(t, s, o) ==> Holds(r.0, s, o)
  {
    var refusal := CommitRefusal(net, t, c);
    if refusal.Err? then (t, Err(refusal.error)) else CommitApplied(me, t, c, signature)
  }

  /** A commit that over two thirds of the shard's committee approve, with no vote from outside it. */
  predicate Carried(net: Network, c: LockCommit) {
    && c.shardId in net.committees
    && (forall i :: 0 <= i < |c.votes| ==> c.votes[i].validator in net.committees[c.shardId])
    && 3 * |Approvals(c.votes)| > 2 * |net.committees[c.shardId]|
  }

  /** A commit is refused exactly when it is not carried or another operation holds the shard; the error says which
      test failed first. */
  lemma CommitRefusedIff(net: Network, t: Tables, c: LockCommit)
    ensures CommitRefusal(net, t, c).Ok? <==>
              Carried(net, c) && !(c.shardId in t.localLocks && t.localLocks[c.shardId] != c.atomicId)
    ensures CommitRefusal(net, t, c) == Err(CommitteeNotFound(c.shardId)) <==> c.shardId !in net.committees
    ensures CommitRefusal(net, t, c) == Err(LockConflict(c.shardId)) <==>
              Carried(net, c) && c.shardId in t.localLocks && t.localLocks[c.shardId] != c.atomicId
    ensures CommitRefusal(net, t, c) == Err(UnauthorizedSender) <==>
              && c.shardId in net.committees
              && exists i :: 0 <= i < |c.votes| && c.votes[i].validator !in net.committees[c.shardId]
  {
    CountIsApprovals(c.votes);
    assert c.shardId in net.committees ==>
        ((exists v :: v in c.votes && v.validator !in net.committees[c.shardId]) <==>
         (exists i :: 0 <= i < |c.votes| && c.votes[i].validator !in net.committees[c.shardId]));
  }

  /** With too few approvals the error names their number and the least number that would do. */
  lemma TooFewApprovals(net: Network, t: Tables, c: LockCommit)
    requires c.shardId in net.committees
    requires forall i :: 0 <= i < |c.votes| ==> c.votes[i].validator in net.committees[c.shardId]
    requires 3 * |Approvals(c.votes)| <= 2 * |net.committees[c.shardId]|
    ensures var r := CommitRefusal(net, t, c);
            && r.Err? && r.error.ConsensusNotReached? && r.error.received == |Approvals(c.votes)|
            && 3 * r.error.needed > 2 * |net.committees[c.shardId]| >= 3 * (r.error.needed - 1)
  {
    CountIsApprovals(c.votes);
  }

  /** The answer and the tables of the commit handler.  It acknowledges exactly the carried commits for shards that no
      other operation holds, when signing succeeds; those take the lock, signed or not; all others
      change nothing. */
  lemma CommitAnswers(net: Network, me: Address, t: Tables, c: LockCommit, signature: Result<seq<byte>>)
    ensures var (t', r) := Commit(net, me, t, c, signature);
            var free := !(c.shardId in t.localLocks && t.localLocks[c.shardId] != c.atomicId);
            && (r.Ok? <==> Carried(net, c) && free && signature.Ok?)
            && (r.Ok? ==> r.value == LockAck(c.atomicId, c.shardId, me, true, signature.value))
            && t' == if Carried(net, c) && free then t.(localLocks := t.localLocks[c.shardId := c.atomicId]) else t
  {
    CommitRefusedIff(net, t, c);
  }

  /** The vote a prepare request gets. */
  function PrepareVote(net: Network, me: Address, t: Tables, p: LockPrepare, sign: bool -> Result<seq<byte>>):
      (r: Result<LockVote>)
    ensures r.Ok? ==> (r.value.approved <==> !Conflicts(t, p.shardId, p.atomicId)) && r.value.validator == me
  {
    if p.shardId !in net.committees then Err(CommitteeNotFound(p.shardId))
    else if p.requester !in net.committees[p.shardId] then Err(UnauthorizedSender)
    else if me !in net.committees[p.shardId] then Err(NotCommitteeMember)
    else
      var approved := !Conflicts(t, p.shardId, p.atomicId);
      var signature := sign(approved);
      if signature.Err? then Err(signature.error)
      else Ok(LockVote(p.atomicId, p.shardId, me, approved, signature.value))
  }

  /** Members vote on members' requests, and only signing can fail; the vote names the request and its conflict. */
  lemma PrepareAnswers(net: Network, me: Address, t: Tables, p: LockPrepare, sign: bool -> Result<seq<byte>>)
    ensures var r := PrepareVote(net, me, t, p, sign);
            var free := !(p.shardId in t.localLocks && t.localLocks[p.shardId] != p.atomicId);
            var among := p.shardId in net.committees && {me, p.requester} <= (set a | a in net.committees[p.shardId]);
            && (r.Ok? <==> among && sign(free).Ok?)
            && (r.Ok? ==> r.value == LockVote(p.atomicId, p.shardId, me, free, sign(free).value))
            && (among && r.Err? ==> r.error == sign(free).error)
            && (!among ==> r.error == if p.shardId !in net.committees then CommitteeNotFound(p.shardId)
                                      else if p.requester !in net.committees[p.shardId] then UnauthorizedSender
                                      else NotCommitteeMember)
  {
    if p.shardId in net.committees {
      assert forall a :: a in (set a | a in net.committees[p.shardId]) <==> a in net.committees[p.shardId];
    }
  }

  function SignerRefusal(net: Network, shard: ShardId, validator: Address, signed: Signed): Result<()> {
    if shard !in net.committees then Err(CommitteeNotFound(shard))
    else if validator !in net.committees[shard] then Err(NotCommitteeMember)
    else match signed
      case Valid => Ok(())
      case Invalid => Err(UnauthorizedSender)
      case Unverifiable => Err(SigningFailed)
  }

  function Vote(net: Network, t: Tables, v: LockVote): Tables {
    if SignerRefusal(net, v.shardId, v.validator, net.voteSig(v)).Ok? then Voted(t, v) else t
  }

  function Ack(net: Network, t: Tables, a: LockAck): Tables {
    if SignerRefusal(net, a.shardId, a.validator, net.ackSig(a)).Ok? then Acked(t, a) else t
  }

  /** What is wrong with a signer: no committee, not in it, a bad signature, or one that cannot be checked. */
  lemma SignerRefusedIff(net: Network, shard: ShardId, validator: Address, signed: Signed)
    ensures var (r, member) := (SignerRefusal(net, shard, validator, signed),
                                shard in net.committees && validator in net.committees[shard]);
            && (r.Ok? <==> member && signed == Valid)
            && (r == Err(CommitteeNotFound(shard)) <==> shard !in net.committees)
            && (r == Err(NotCommitteeMember) <==> shard in net.committees && !member)
            && (r == Err(UnauthorizedSender) <==> member && signed == Invalid)
            && (r == Err(SigningFailed) <==> member && signed == Unverifiable)
  {
  }

  /** A vote is recorded exactly when it is a member's and its signature verifies, and no other list changes. */
  lemma VoteRecordedIff(net: Network, t: Tables, v: LockVote)
    ensures var good := && v.shardId in net.committees && v.validator in net.committees[v.shardId]
                        && net.voteSig(v).Valid?;
            && (SignerRefusal(net, v.shardId, v.validator, net.voteSig(v)).Ok? <==> good)
            && Vote(net, t, v).(pendingVotes := t.pendingVotes) == t
            && forall o: OpId, s: ShardId ::
                 Entries(Vote(net, t, v).pendingVotes, o, s)
                 == Entries(t.pendingVotes, o, s) + if good && (o, s) == (v.atomicId, v.shardId) then [v] else []
  {
    assert forall o: OpId, s: ShardId :: Entries(t.pendingVotes, o, s) + [] == Entries(t.pendingVotes, o, s);
  }

  /** The same for an acknowledgement. */
  lemma AckRecordedIff(net: Network, t: Tables, a: LockAck)
    ensures var good := && a.shardId in net.committees && a.validator in net.committees[a.shardId]
                        && net.ackSig(a).Valid?;
            && (SignerRefusal(net, a.shardId, a.validator, net.ackSig(a)).Ok? <==> good)
            && Ack(net, t, a).(pendingAcks := t.pendingAcks) == t
            && forall o: OpId, s: ShardId ::
                 Entries(Ack(net, t, a).pendingAcks, o, s)
                 == Entries(t.pendingAcks, o, s) + if good && (o, s) == (a.atomicId, a.shardId) then [a] else []
  {
    assert forall o: OpId, s: ShardId :: Entries(t.pendingAcks, o, s) + [] == Entries(t.pendingAcks, o, s);
  }

  /** Releasing for one operation never takes away another operation's lock, and never leaves
      the releasing operation holding the shard. */
  lemma ReleaseFrame(t: Tables, op: OpId, shard: ShardId)
    ensures !Holds(Released(t, op, shard), shard, op)
    ensures forall s: ShardId, o: OpId :: (s, o) != (shard, op) ==>
              (Holds(Released(t, op, shard), s, o) <==> Holds(t, s, o))
    ensures Released(t, op, shard).locks == t.locks
    ensures forall o: OpId, s: ShardId ::
              && Entries(Released(t, op, shard).pendingVotes, o, s)
                 == (if (o, s) == (op, shard) then [] else Entries(t.pendingVotes, o, s))
              && Entries(Released(t, op, shard).pendingAcks, o, s)
                 == (if (o, s) == (op, shard) then [] else Entries(t.pendingAcks, o, s))
  {
  }

  class DistributedLockManager {
    var localLocks: map<ShardId, OpId>
    var pendingVotes: map<(OpId, ShardId), seq<LockVote>>
    var pendingAcks: map<(OpId, ShardId), seq<LockAck>>
    var locks: map<OpId, seq<ShardLock>>

    function State(): Tables
      reads this
    {
      Tables(localLocks, pendingVotes, pendingAcks, locks)
    }

    constructor ()
      ensures State() == EMPTY_TABLES
    {
      localLocks, pendingVotes, pendingAcks, locks := map[], map[], map[], map[];
    }

    method HasConflictingLock(shard: ShardId, op: OpId) returns (r: bool)
      ensures r <==> Conflicts(State(), shard, op)
    {
      if shard in localLocks {
        return localLocks[shard] != op;
      }
      return false;
    }

    method RecordVote(v: LockVote)
      modifies this
      ensures State() == Voted(old(State()), v)
    {
      var key := (v.atomicId, v.shardId);
      if key !in pendingVotes {
        pendingVotes := pendingVotes[key := []];
      }
      pendingVotes := pendingVotes[key := pendingVotes[key] + [v]];
    }

    method RecordAck(a: LockAck)
      modifies this
      ensures State() == Acked(old(State()), a)
    {
      var key := (a.atomicId, a.shardId);
      if key !in pendingAcks {
        pendingAcks := pendingAcks[key := []];
      }
      pendingAcks := pendingAcks[key := pendingAcks[key] + [a]];
    }

    method ApplyLock(op: OpId, shard: ShardId) returns (r: Result<()>)
      modifies this
      ensures r == if Conflicts(old(State()), shard, op) then Err(LockConflict(shard)) else Ok(())
      ensures State() == if r.Ok? then Locked(old(State()), op, shard) else old(State())
    {
      var conflict := HasConflictingLock(shard, op);
      if conflict {
        return Err(LockConflict(shard));
      }
      localLocks := localLocks[shard := op];
      return Ok(());
    }

    method ReleaseLock(op: OpId, shard: ShardId)
      modifies this
      ensures State() == Released(old(State()), op, shard)
    {
      if shard in localLocks && localLocks[shard] == op {
        localLocks := localLocks - {shard};
      }
      pendingVotes := pendingVotes - {(op, shard)};
      pendingAcks := pendingAcks - {(op, shard)};
    }
  }

  class CrossShardAtomicProtocol {
    const me: Address
    const net: Network
    const lockManager: DistributedLockManager

    constructor (me: Address, net: Network)
      ensures this.me == me && this.net == net
      ensures fresh(lockManager) && lockManager.State() == EMPTY_TABLES
    {
      this.me, this.net := me, net;
      lockManager := new DistributedLockManager();
    }

    /** Votes yes exactly when no other operation holds the shard; locks nothing. */
    method HandleLockPrepare(p: LockPrepare, sign: bool -> Result<seq<byte>>) returns (r: Result<LockVote>)
      ensures r == PrepareVote(net, me, lockManager.State(), p, sign)
      ensures r.Ok? ==> (r.value.approved <==> !Conflicts(lockManager.State(), p.shardId, p.atomicId))
      ensures r.Ok? ==> r.value.validator == me && p.shardId in net.committees
                        && p.requester in net.committees[p.shardId] && me in net.committees[p.shardId]
      ensures r.Err? && p.shardId in net.committees && {p.requester, me} <= (set a | a in net.committees[p.shardId])
              ==> sign(!Conflicts(lockManager.State(), p.shardId, p.atomicId)) == Err(r.error)
    {
      if p.shardId !in net.committees { return Err(CommitteeNotFound(p.shardId)); }
      if p.requester !in net.committees[p.shardId] { return Err(UnauthorizedSender); }
      if me !in net.committees[p.shardId] { return Err(NotCommitteeMember); }
      var conflict := lockManager.HasConflictingLock(p.shardId, p.atomicId);
      var signature := sign(!conflict);
      if signature.Err? { return Err(signature.error); }
      return Ok(LockVote(p.atomicId, p.shardId, me, !conflict, signature.value));
    }

    method HandleLockVote(v: LockVote) returns (r: Result<()>)
      modifies lockManager
      ensures lockManager.State() == Vote(net, old(lockManager.State()), v)
      ensures r == SignerRefusal(net, v.shardId, v.validator, net.voteSig(v))
    {
      r := SignerRefusal(net, v.shardId, v.validator, net.voteSig(v));
      if r.Ok? { lockManager.RecordVote(v); }
    }

    method HandleLockCommit(c: LockCommit, signature: Result<seq<byte>>) returns (r: Result<LockAck>)
      modifies lockManager
      ensures (lockManager.State(), r) == Commit(net, me, old(lockManager.State()), c, signature)
    {
      if c.shardId !in net.committees { return Err(CommitteeNotFound(c.shardId)); }
      var members := net.committees[c.shardId];
      var approved := 0;
      for i := 0 to |c.votes|
        invariant forall j :: 0 <= j < i ==> c.votes[j].validator in members
        invariant approved == CountApproved(c.votes[..i])
      {
        if c.votes[i].validator !in members { return Err(UnauthorizedSender); }
        if c.votes[i].approved { approved := approved + 1; }
        assert c.votes[..i + 1][..i] == c.votes[..i];
      }
      assert c.votes[..|c.votes|] == c.votes;
      if approved < Threshold(|members|) {
        return Err(ConsensusNotReached(Threshold(|members|), approved));
      }
      var applied := lockManager.ApplyLock(c.atomicId, c.shardId);
      if applied.Err? { return Err(applied.error); }
      if signature.Err? { return Err(signature.error); }
      return Ok(LockAck(c.atomicId, c.shardId, me, true, signature.value));
    }

    method HandleLockAck(a: LockAck) returns (r: Result<()>)
      modifies lockManager
      ensures lockManager.State() == Ack(net, old(lockManager.State()), a)
      ensures r == SignerRefusal(net, a.shardId, a.validator, net.ackSig(a))
    {
      r := SignerRefusal(net, a.shardId, a.validator, net.ackSig(a));
      if r.Ok? { lockManager.RecordAck(a); }
    }

    /** Both branches of the source's ownership test call `release_lock`, whose own guard decides. */
    method HandleLockAbort(a: LockAbort)
      modifies lockManager
      ensures lockManager.State() == Released(old(lockManager.State()), a.atomicId, a.shardId)
    {
      lockManager.ReleaseLock(a.atomicId, a.shardId);
    }
  }
}
