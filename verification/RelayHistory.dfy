/** The `QuantosL0Verifier` contract (base-bridge/polkadot/lib.rs) read off its calls: at every point of every run,
    who the admin is, what the window is, which validator sets are stored, which deposits are marked
    and what the log holds, in terms of the calls made before. */
module RelayHistory {
  import opened Bytes
  import opened RelayVerifier

  predicate IsAdminMessage(m: Message) {
    m.RegisterValidatorSet? || m.RevokeValidatorSet? || m.SetChallengeWindow? || m.TransferAdmin? || m.ForceMarkRelayed?
  }

  /** An admin message from anyone else is refused and changes nothing. */
  lemma OthersChangeNothing(s: Storage, call: Call)
    requires IsAdminMessage(call.msg) && call.env.caller != s.admin
    ensures Apply(s, call) == (s, Err(NotAdmin))
  {
  }

  /** The caller is the admin of that moment. */
  ghost predicate ByAdmin(d: Deployment, calls: seq<Call>, i: nat) {
    i < |calls| && calls[i].env.caller == Before(d, calls, i).admin
  }

  // ------------------------------------------------------------------ the admin

  ghost predicate Transfers(d: Deployment, calls: seq<Call>, i: nat) {
    ByAdmin(d, calls, i) && calls[i].msg.TransferAdmin?
  }

  ghost predicate LastTransfer(d: Deployment, calls: seq<Call>, i: nat, n: nat) {
    i < n <= |calls| && Transfers(d, calls, i) && forall k :: i < k < n ==> !Transfers(d, calls, k)
  }

  lemma LastTransferNext(d: Deployment, calls: seq<Call>, i: nat, n: nat)
    requires n < |calls|
    ensures LastTransfer(d, calls, i, n + 1) <==>
              if Transfers(d, calls, n) then i == n else LastTransfer(d, calls, i, n)
  {
  }

  /** The deployer's choice, or the target of the last transfer an admin made. */
  ghost predicate AdminFrom(d: Deployment, calls: seq<Call>, n: nat, a: Account) {
    || (a == d.admin && forall k :: 0 <= k < n ==> !Transfers(d, calls, k))
    || exists i: nat :: LastTransfer(d, calls, i, n) && calls[i].msg.newAdmin == a
  }

  lemma StepAdmin(s: Storage, call: Call)
    ensures Apply(s, call).0.admin == if call.env.caller == s.admin && call.msg.TransferAdmin? then call.msg.newAdmin
                                      else s.admin
  {
  }

  lemma AdminFromNext(d: Deployment, calls: seq<Call>, n: nat, a: Account)
    requires n < |calls|
    ensures AdminFrom(d, calls, n + 1, a) <==>
              if Transfers(d, calls, n) then calls[n].msg.newAdmin == a else AdminFrom(d, calls, n, a)
  {
    forall i: nat
      ensures LastTransfer(d, calls, i, n + 1) <==>
                if Transfers(d, calls, n) then i == n else LastTransfer(d, calls, i, n)
    {
      LastTransferNext(d, calls, i, n);
    }
    assert Transfers(d, calls, n) ==> LastTransfer(d, calls, n, n + 1);
  }

  lemma {:induction false} AdminIff(d: Deployment, calls: seq<Call>, n: nat, a: Account)
    requires n <= |calls|
    ensures Before(d, calls, n).admin == a <==> AdminFrom(d, calls, n, a)
  {
    if n > 0 {
      AdminIff(d, calls, n - 1, a);
      AdminFromNext(d, calls, n - 1, a);
      BeforeNext(d, calls, n - 1);
      StepAdmin(Before(d, calls, n - 1), calls[n - 1]);
    }
  }

  // ------------------------------------------------------------------ the window

  ghost predicate SetsWindow(d: Deployment, calls: seq<Call>, i: nat) {
    ByAdmin(d, calls, i) && calls[i].msg.SetChallengeWindow?
  }

  ghost predicate LastWindow(d: Deployment, calls: seq<Call>, i: nat, n: nat) {
    i < n <= |calls| && SetsWindow(d, calls, i) && forall k :: i < k < n ==> !SetsWindow(d, calls, k)
  }

  lemma LastWindowNext(d: Deployment, calls: seq<Call>, i: nat, n: nat)
    requires n < |calls|
    ensures LastWindow(d, calls, i, n + 1) <==> if SetsWindow(d, calls, n) then i == n else LastWindow(d, calls, i, n)
  {
  }

  /** The deployer's choice, five minutes for none, or what an admin set last, zero included. */
  ghost predicate WindowFrom(d: Deployment, calls: seq<Call>, n: nat, w: nat) {
    || (&& w == (if d.challengeWindow == 0 then 300 else d.challengeWindow)
        && forall k :: 0 <= k < n ==> !SetsWindow(d, calls, k))
    || exists i: nat :: LastWindow(d, calls, i, n) && calls[i].msg.window == w
  }

  lemma StepWindow(s: Storage, call: Call)
    ensures Apply(s, call).0.challengeWindow ==
            if call.env.caller == s.admin && call.msg.SetChallengeWindow? then call.msg.window else s.challengeWindow
  {
  }

  lemma WindowFromNext(d: Deployment, calls: seq<Call>, n: nat, w: nat)
    requires n < |calls|
    ensures WindowFrom(d, calls, n + 1, w) <==>
              if SetsWindow(d, calls, n) then calls[n].msg.window == w else WindowFrom(d, calls, n, w)
  {
    forall i: nat
      ensures LastWindow(d, calls, i, n + 1) <==>
                if SetsWindow(d, calls, n) then i == n else LastWindow(d, calls, i, n)
    {
      LastWindowNext(d, calls, i, n);
    }
    assert SetsWindow(d, calls, n) ==> LastWindow(d, calls, n, n + 1);
  }

  lemma {:induction false} WindowIff(d: Deployment, calls: seq<Call>, n: nat, w: nat)
    requires n <= |calls|
    ensures Before(d, calls, n).challengeWindow == w <==> WindowFrom(d, calls, n, w)
  {
    if n > 0 {
      WindowIff(d, calls, n - 1, w);
      WindowFromNext(d, calls, n - 1, w);
      BeforeNext(d, calls, n - 1);
      StepWindow(Before(d, calls, n - 1), calls[n - 1]);
    }
  }

  // ------------------------------------------------------------------ the validator sets

  ghost predicate Registers(d: Deployment, calls: seq<Call>, i: nat, root: Hash32) {
    ByAdmin(d, calls, i) && calls[i].msg.RegisterValidatorSet? && calls[i].msg.root == root
  }

  ghost predicate Revokes(d: Deployment, calls: seq<Call>, i: nat, root: Hash32) {
    ByAdmin(d, calls, i) && calls[i].msg.RevokeValidatorSet? && calls[i].msg.root == root
  }

  ghost predicate LastRegistered(d: Deployment, calls: seq<Call>, i: nat, n: nat, root: Hash32) {
    i < n <= |calls| && Registers(d, calls, i, root) && forall k :: i < k < n ==> !Registers(d, calls, k, root)
  }

  ghost predicate RevokedSince(d: Deployment, calls: seq<Call>, i: nat, n: nat, root: Hash32) {
    exists k :: i < k < n && Revokes(d, calls, k, root)
  }

  /** What the last registration of the root said, active unless an admin has revoked it since. */
  ghost predicate SetFrom(d: Deployment, calls: seq<Call>, i: nat, n: nat, root: Hash32, v: ValidatorSet) {
    && LastRegistered(d, calls, i, n, root)
    && v == ValidatorSet(root, calls[i].msg.totalStake, calls[i].msg.threshold, !RevokedSince(d, calls, i, n, root),
                         calls[i].env.now)
  }

  ghost predicate SetFromCalls(d: Deployment, calls: seq<Call>, n: nat, root: Hash32, v: ValidatorSet) {
    exists i: nat :: SetFrom(d, calls, i, n, root, v)
  }

  lemma RevokedNext(d: Deployment, calls: seq<Call>, i: nat, n: nat, root: Hash32)
    requires i < n
    ensures RevokedSince(d, calls, i, n + 1, root) <==> RevokedSince(d, calls, i, n, root) || Revokes(d, calls, n, root)
  {
  }

  lemma SetAfterOther(d: Deployment, calls: seq<Call>, n: nat, root: Hash32, v: ValidatorSet)
    requires n < |calls| && !Registers(d, calls, n, root) && !Revokes(d, calls, n, root)
    ensures SetFromCalls(d, calls, n + 1, root, v) <==> SetFromCalls(d, calls, n, root, v)
  {
    var n' := n + 1;
    if i: nat :| SetFrom(d, calls, i, n', root, v) {
      RevokedNext(d, calls, i, n, root);
      assert SetFrom(d, calls, i, n, root, v);
    }
    if i: nat :| SetFrom(d, calls, i, n, root, v) {
      RevokedNext(d, calls, i, n, root);
      assert SetFrom(d, calls, i, n + 1, root, v);
    }
  }

  lemma SetAfterRevoke(d: Deployment, calls: seq<Call>, n: nat, root: Hash32, v: ValidatorSet)
    requires n < |calls| && Revokes(d, calls, n, root)
    ensures SetFromCalls(d, calls, n + 1, root, v) <==>
              && !v.active
              && (SetFromCalls(d, calls, n, root, v.(active := true))
                  || SetFromCalls(d, calls, n, root, v.(active := false)))
  {
    var n' := n + 1;
    if i: nat :| SetFrom(d, calls, i, n', root, v) {
      RevokedNext(d, calls, i, n, root);
      assert SetFrom(d, calls, i, n, root, v.(active := !RevokedSince(d, calls, i, n, root)));
    }
    if i: nat :| SetFrom(d, calls, i, n, root, v.(active := true))
                 || SetFrom(d, calls, i, n, root, v.(active := false))
    {
      RevokedNext(d, calls, i, n, root);
      assert SetFrom(d, calls, i, n + 1, root, v.(active := false));
    }
  }

  lemma SetAfterRegister(d: Deployment, calls: seq<Call>, n: nat, root: Hash32, v: ValidatorSet)
    requires n < |calls| && Registers(d, calls, n, root)
    ensures SetFromCalls(d, calls, n + 1, root, v) <==>
              v == ValidatorSet(root, calls[n].msg.totalStake, calls[n].msg.threshold, true, calls[n].env.now)
  {
    var n' := n + 1;
    assert LastRegistered(d, calls, n, n + 1, root) && !RevokedSince(d, calls, n, n + 1, root);
    if i: nat :| SetFrom(d, calls, i, n', root, v) {
      assert i == n;
    }
    if v == ValidatorSet(root, calls[n].msg.totalStake, calls[n].msg.threshold, true, calls[n].env.now) {
      assert SetFrom(d, calls, n, n + 1, root, v);
    }
  }

  ghost predicate Stored(d: Deployment, calls: seq<Call>, n: nat, root: Hash32, v: ValidatorSet)
    requires n <= |calls|
  {
    root in Before(d, calls, n).validatorSets && Before(d, calls, n).validatorSets[root] == v
  }

  /** What call `n` makes of a set: `now`, `asActive` and `asInactive` say whether it is so before the call, as it is
      and with either mark. */
  ghost predicate SetAfter(d: Deployment, calls: seq<Call>, n: nat, root: Hash32, v: ValidatorSet, now: bool,
                           asActive: bool, asInactive: bool)
    requires n < |calls|
  {
    if Registers(d, calls, n, root) then
      v == ValidatorSet(root, calls[n].msg.totalStake, calls[n].msg.threshold, true, calls[n].env.now)
    else if Revokes(d, calls, n, root) then !v.active && (asActive || asInactive)
    else now
  }

  lemma StoredNext(d: Deployment, calls: seq<Call>, n: nat, root: Hash32, v: ValidatorSet)
    requires n < |calls|
    ensures Stored(d, calls, n + 1, root, v) <==>
              SetAfter(d, calls, n, root, v, Stored(d, calls, n, root, v),
                       Stored(d, calls, n, root, v.(active := true)), Stored(d, calls, n, root, v.(active := false)))
  {
    BeforeNext(d, calls, n);
  }

  lemma SetFromCallsNext(d: Deployment, calls: seq<Call>, n: nat, root: Hash32, v: ValidatorSet)
    requires n < |calls|
    ensures SetFromCalls(d, calls, n + 1, root, v) <==>
              SetAfter(d, calls, n, root, v, SetFromCalls(d, calls, n, root, v),
                       SetFromCalls(d, calls, n, root, v.(active := true)),
                       SetFromCalls(d, calls, n, root, v.(active := false)))
  {
    if Registers(d, calls, n, root) {
      SetAfterRegister(d, calls, n, root, v);
    } else if Revokes(d, calls, n, root) {
      SetAfterRevoke(d, calls, n, root, v);
    } else {
      SetAfterOther(d, calls, n, root, v);
    }
  }

  /** A set is stored exactly if an admin registered it, with what the last registration said, and is active exactly
      if no admin has revoked it since. */
  lemma {:induction false} StoredSetIff(d: Deployment, calls: seq<Call>, n: nat, root: Hash32, v: ValidatorSet)
    requires n <= |calls|
    ensures Stored(d, calls, n, root, v) <==> SetFromCalls(d, calls, n, root, v)
  {
    if n > 0 {
      StoredNext(d, calls, n - 1, root, v);
      SetFromCallsNext(d, calls, n - 1, root, v);
      StoredSetIff(d, calls, n - 1, root, v);
      StoredSetIff(d, calls, n - 1, root, v.(active := true));
      StoredSetIff(d, calls, n - 1, root, v.(active := false));
    }
  }

  // ------------------------------------------------------------------ what succeeds

  /** An admin message succeeds exactly for the admin; a revocation needs a registered set besides. */
  lemma AdminCallSucceedsIff(d: Deployment, calls: seq<Call>, n: nat)
    requires n < |calls| && IsAdminMessage(calls[n].msg)
    ensures Succeeds(d, calls, n) <==>
              && ByAdmin(d, calls, n)
              && (calls[n].msg.RevokeValidatorSet? ==>
                    exists i: nat :: LastRegistered(d, calls, i, n, calls[n].msg.root))
  {
    if calls[n].msg.RevokeValidatorSet? {
      var root, sets := calls[n].msg.root, Before(d, calls, n).validatorSets;
      if root in sets {
        StoredSetIff(d, calls, n, root, sets[root]);
        var i: nat :| SetFrom(d, calls, i, n, root, sets[root]);
      }
      if i: nat :| LastRegistered(d, calls, i, n, root) {
        var v := ValidatorSet(root, calls[i].msg.totalStake, calls[i].msg.threshold,
                              !RevokedSince(d, calls, i, n, root), calls[i].env.now);
        assert SetFrom(d, calls, i, n, root, v);
        StoredSetIff(d, calls, n, root, v);
      }
    }
  }

  /** Call `i` is the admin's last registration of the root before `n`, not revoked since, and the stake meets the
      threshold it set. */
  ghost predicate Qualifies(d: Deployment, calls: seq<Call>, i: nat, n: nat, root: Hash32, stake: nat) {
    LastRegistered(d, calls, i, n, root) && !RevokedSince(d, calls, i, n, root) && stake >= calls[i].msg.threshold
  }

  lemma QualifiesIff(d: Deployment, calls: seq<Call>, n: nat, root: Hash32, stake: nat)
    requires n <= |calls|
    ensures var sets := Before(d, calls, n).validatorSets;
            (root in sets && sets[root].active && stake >= sets[root].threshold) <==>
              exists i: nat :: Qualifies(d, calls, i, n, root, stake)
  {
    var sets := Before(d, calls, n).validatorSets;
    if root in sets && sets[root].active && stake >= sets[root].threshold {
      StoredSetIff(d, calls, n, root, sets[root]);
      var i: nat :| SetFrom(d, calls, i, n, root, sets[root]);
      assert Qualifies(d, calls, i, n, root, stake);
    }
    if i: nat :| Qualifies(d, calls, i, n, root, stake) {
      var v := ValidatorSet(root, calls[i].msg.totalStake, calls[i].msg.threshold, true, calls[i].env.now);
      assert SetFrom(d, calls, i, n, root, v);
      StoredSetIff(d, calls, n, root, v);
    }
  }

  /** A proof is accepted exactly when an admin has registered its set, none has revoked it since, the stake claimed
      meets the threshold of that registration, and no earlier call accepted the proof. */
  lemma AcceptsIff(d: Deployment, calls: seq<Call>, n: nat)
    requires n < |calls| && calls[n].msg.VerifyProof?
    ensures var m := calls[n].msg;
            Succeeds(d, calls, n) <==>
              && (exists i: nat :: Qualifies(d, calls, i, n, m.validatorSetRoot, m.signedStake))
              && (forall k :: 0 <= k < n ==> !Accepts(d, calls, k, m.proofHash))
  {
    var m := calls[n].msg;
    QualifiesIff(d, calls, n, m.validatorSetRoot, m.signedStake);
    if m.proofHash in Before(d, calls, n).proofs { StoredProofsWereAccepted(d, calls, n, m.proofHash); }
    forall k | 0 <= k < n && Accepts(d, calls, k, m.proofHash) ensures m.proofHash in Before(d, calls, n).proofs {
      AcceptedProofsAreStored(d, calls, k, n, m.proofHash);
    }
  }

  /** What is answered to a proof that is not accepted: the set is not registered or revoked, or else the proof was
      accepted before, or else the stake is too little. */
  lemma ProofRefusedFor(d: Deployment, calls: seq<Call>, n: nat)
    requires n < |calls| && calls[n].msg.VerifyProof?
    ensures var (m, r) := (calls[n].msg, Apply(Before(d, calls, n), calls[n]).1);
            var registered := exists i: nat :: Usable(d, calls, i, n, m.validatorSetRoot);
            var before := exists k :: 0 <= k < n && Accepts(d, calls, k, m.proofHash);
            && (r == Err(UnknownSet) <==> !registered)
            && (r == Err(ProofAlreadyVerified) <==> registered && before)
            && (r.Ok? || r == Err(InsufficientStake) <==> registered && !before)
  {
    var m := calls[n].msg;
    UsableIff(d, calls, n, m.validatorSetRoot);
    if m.proofHash in Before(d, calls, n).proofs { StoredProofsWereAccepted(d, calls, n, m.proofHash); }
    if k :| 0 <= k < n && Accepts(d, calls, k, m.proofHash) { AcceptedProofsAreStored(d, calls, k, n, m.proofHash); }
  }

  ghost predicate Usable(d: Deployment, calls: seq<Call>, i: nat, n: nat, root: Hash32) {
    LastRegistered(d, calls, i, n, root) && !RevokedSince(d, calls, i, n, root)
  }

  lemma UsableIff(d: Deployment, calls: seq<Call>, n: nat, root: Hash32)
    requires n <= |calls|
    ensures var sets := Before(d, calls, n).validatorSets;
            (root in sets && sets[root].active) <==> exists i: nat :: Usable(d, calls, i, n, root)
  {
    var sets := Before(d, calls, n).validatorSets;
    if root in sets && sets[root].active {
      QualifiesIff(d, calls, n, root, sets[root].threshold);
      var i: nat :| Qualifies(d, calls, i, n, root, sets[root].threshold);
      assert Usable(d, calls, i, n, root);
    }
    if i: nat :| Usable(d, calls, i, n, root) {
      assert Qualifies(d, calls, i, n, root, calls[i].msg.threshold);
      QualifiesIff(d, calls, n, root, calls[i].msg.threshold);
    }
  }

  /** What is answered to a relay that is not authorised: no call has accepted its proof, or else the deposit is marked,
      or else the window is open, or its end does not fit in 64 bits and the build checks. */
  lemma RelayRefusedFor(d: Deployment, calls: seq<Call>, n: nat)
    requires n < |calls| && calls[n].msg.AuthorizeRelay?
    ensures var (m, r) := (calls[n].msg, Apply(Before(d, calls, n), calls[n]).1);
            var accepted := exists i :: 0 <= i < n && Accepts(d, calls, i, m.proof);
            var unmarked := Unmarked(d, calls, n, m.deposit);
            && (r == Err(ProofNotVerified) <==> !accepted)
            && (r == Err(DepositAlreadyRelayed) <==> accepted && !unmarked)
            && (r.Ok? || r == Err(ChallengeWindowActive) || r == Trapped <==> accepted && unmarked)
            && (r == Trapped <==> && accepted && unmarked && calls[n].env.overflowChecks
                                  && forall i :: 0 <= i < n && Accepts(d, calls, i, m.proof) ==>
                                       Due(d, calls, i, n) > U64_MAX)
  {
    var s, m := Before(d, calls, n), calls[n].msg;
    if m.proof in s.proofs { StoredProofsWereAccepted(d, calls, n, m.proof); }
    forall i | 0 <= i < n && Accepts(d, calls, i, m.proof)
      ensures m.proof in s.proofs && s.proofs[m.proof] == Record(calls[i])
    {
      AcceptedProofsAreStored(d, calls, i, n, m.proof);
    }
    if m.deposit in s.deposits { MarkedDepositsWereRelayed(d, calls, n, m.deposit); }
    forall k | 0 <= k < n && (Authorizes(d, calls, k, m.deposit) || ForceMarks(d, calls, k, m.deposit))
      ensures m.deposit in s.deposits
    {
      MarksStay(d, calls, k, n, m.deposit);
    }
    assert m.deposit !in s.deposits <==> Unmarked(d, calls, n, m.deposit);
  }

  // ------------------------------------------------------------------ the marks and the log

  ghost predicate Marks(d: Deployment, calls: seq<Call>, i: nat, deposit: Hash32) {
    Authorizes(d, calls, i, deposit) || ForceMarks(d, calls, i, deposit)
  }

  ghost predicate LastMark(d: Deployment, calls: seq<Call>, i: nat, n: nat, deposit: Hash32) {
    i < n <= |calls| && Marks(d, calls, i, deposit) && forall k :: i < k < n ==> !Marks(d, calls, k, deposit)
  }

  lemma LastMarkNext(d: Deployment, calls: seq<Call>, i: nat, n: nat, deposit: Hash32)
    requires n < |calls|
    ensures LastMark(d, calls, i, n + 1, deposit) <==>
              if Marks(d, calls, n, deposit) then i == n else LastMark(d, calls, i, n, deposit)
  {
  }

  ghost predicate Recorded(d: Deployment, calls: seq<Call>, n: nat, deposit: Hash32, r: DepositState)
    requires n <= |calls|
  {
    deposit in Before(d, calls, n).deposits && Before(d, calls, n).deposits[deposit] == r
  }

  lemma RecordedNext(d: Deployment, calls: seq<Call>, n: nat, deposit: Hash32, r: DepositState)
    requires 0 < n <= |calls|
    ensures Recorded(d, calls, n, deposit, r) <==>
              if Marks(d, calls, n - 1, deposit) then r == DepositState(true, deposit, calls[n - 1].msg.amount)
              else Recorded(d, calls, n - 1, deposit, r)
  {
    BeforeNext(d, calls, n - 1);
    StepMarks(Before(d, calls, n - 1), calls[n - 1], deposit);
  }

  predicate MarksIn(s: Storage, call: Call, deposit: Hash32) {
    && Apply(s, call).1.Ok?
    && ((call.msg.AuthorizeRelay? && call.msg.deposit == deposit)
        || (call.msg.ForceMarkRelayed? && call.msg.deposit == deposit))
  }

  lemma StepMarks(s: Storage, call: Call, deposit: Hash32)
    ensures var after := Apply(s, call).0.deposits;
            if MarksIn(s, call, deposit) then
              deposit in after && after[deposit] == DepositState(true, deposit, call.msg.amount)
            else
              && (deposit in after <==> deposit in s.deposits)
              && (deposit in after ==> after[deposit] == s.deposits[deposit])
  {
  }

  /** A deposit's record is what the last call that relayed or marked it said. */
  lemma {:induction false} RecordedIff(d: Deployment, calls: seq<Call>, n: nat, deposit: Hash32, r: DepositState)
    requires n <= |calls|
    ensures Recorded(d, calls, n, deposit, r) <==>
              exists i: nat :: LastMark(d, calls, i, n, deposit)
                               && r == DepositState(true, deposit, calls[i].msg.amount)
  {
    if n > 0 {
      RecordedNext(d, calls, n, deposit, r);
      RecordedIff(d, calls, n - 1, deposit, r);
      forall i: nat
        ensures LastMark(d, calls, i, n, deposit) <==>
                  if Marks(d, calls, n - 1, deposit) then i == n - 1 else LastMark(d, calls, i, n - 1, deposit)
      {
        LastMarkNext(d, calls, i, n - 1, deposit);
      }
      assert Marks(d, calls, n - 1, deposit) ==> LastMark(d, calls, n - 1, n, deposit);
    }
  }

  /** What a message that succeeds writes to the log. */
  function EventsOf(m: Message): seq<Event> {
    match m
    case RegisterValidatorSet(root, total, threshold) => [ValidatorSetRegistered(root, total, threshold)]
    case RevokeValidatorSet(root) => [ValidatorSetRevoked(root)]
    case VerifyProof(proof, root, epoch, slot, _) => [ProofVerified(proof, root, epoch, slot)]
    case AuthorizeRelay(proof, deposit, amount) => [RelayAuthorized(proof, deposit, amount)]
    case _ => []
  }

  ghost function Log(d: Deployment, calls: seq<Call>, n: nat): seq<Event> {
    if n == 0 then []
    else Log(d, calls, n - 1) + if Succeeds(d, calls, n - 1) then EventsOf(calls[n - 1].msg) else []
  }

  lemma StepLogs(s: Storage, call: Call)
    ensures Apply(s, call).0.events == s.events + if Apply(s, call).1.Ok? then EventsOf(call.msg) else []
  {
    assert s.events + [] == s.events;
  }

  /** The log is the events of the calls that succeeded, in order. */
  lemma {:induction false} LogIsCalls(d: Deployment, calls: seq<Call>, n: nat)
    requires n <= |calls|
    ensures Before(d, calls, n).events == Log(d, calls, n)
  {
    if n > 0 {
      LogIsCalls(d, calls, n - 1);
      BeforeNext(d, calls, n - 1);
      StepLogs(Before(d, calls, n - 1), calls[n - 1]);
    }
  }
}
