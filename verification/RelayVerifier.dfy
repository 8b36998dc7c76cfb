/** The `QuantosL0Verifier` contract (base-bridge/polkadot/lib.rs): registered validator sets, accepted
    proofs and relayed deposits.  `Apply` is what one message does; the class has the contract's storage
    and its messages; the lemmas are about every sequence of messages from deployment on. */
module RelayVerifier {
  import opened Bytes

  type Account = nat

  datatype ValidatorSet = ValidatorSet(root: Hash32, totalStake: nat, threshold: nat, active: bool, registeredAt: nat)

  datatype ProofState = ProofState(verified: bool, validatorSetRoot: Hash32, epoch: nat, slot: nat, acceptedAt: nat)

  datatype DepositState = DepositState(relayed: bool, quantosDepositId: Hash32, amount: nat)

  datatype Event =
    | ValidatorSetRegistered(root: Hash32, totalStake: nat, threshold: nat)
    | ValidatorSetRevoked(root: Hash32)
    | ProofVerified(proofHash: Hash32, validatorSetRoot: Hash32, epoch: nat, slot: nat)
    | RelayAuthorized(proof: Hash32, deposit: Hash32, amount: nat)

  datatype L0Error =
    | UnknownSet | InsufficientStake | ProofAlreadyVerified | ProofNotVerified
    | DepositAlreadyRelayed | NotAdmin | ChallengeWindowActive

  /** `Trapped`: the 64-bit addition overflowed in a build with overflow checks; the message is undone. */
  datatype Result = Ok | Err(error: L0Error) | Trapped

  datatype Storage = Storage(admin: Account, challengeWindow: nat, validatorSets: map<Hash32, ValidatorSet>,
                             proofs: map<Hash32, ProofState>, deposits: map<Hash32, DepositState>,
                             events: seq<Event>)

  /** The caller, the block time, and whether the build checks for overflow. */
  datatype Env = Env(caller: Account, now: nat, overflowChecks: bool)

  datatype Message =
    | RegisterValidatorSet(root: Hash32, totalStake: nat, threshold: nat)
    | RevokeValidatorSet(root: Hash32)
    | SetChallengeWindow(window: nat)
    | TransferAdmin(newAdmin: Account)
    | VerifyProof(proofHash: Hash32, validatorSetRoot: Hash32, epoch: nat, slot: nat, signedStake: nat)
    | AuthorizeRelay(proof: Hash32, deposit: Hash32, amount: nat)
    | ForceMarkRelayed(deposit: Hash32, amount: nat)

  datatype Call = Call(env: Env, msg: Message)

  function Deployed(admin: Account, challengeWindow: nat): Storage {
    Storage(admin, if challengeWindow == 0 then 300 else challengeWindow, map[], map[], map[], [])
  }

  /** The end of the challenge window as 64-bit code computes it; `None` if the addition traps. */
  function WindowEnd(acceptedAt: nat, window: nat, overflowChecks: bool): Option<nat> {
    if acceptedAt + window <= U64_MAX then Some(acceptedAt + window)
    else if overflowChecks then None
    else Some((acceptedAt + window) % (U64_MAX + 1))
  }

  /** The new storage and the answer. */
  function Apply(s: Storage, call: Call): (Storage, Result) {
    var env := call.env;
    match call.msg
    case RegisterValidatorSet(root, totalStake, threshold) =>
      if env.caller != s.admin then (s, Err(NotAdmin))
      else
        (s.(validatorSets := s.validatorSets[root := ValidatorSet(root, totalStake, threshold, true, env.now)],
            events := s.events + [ValidatorSetRegistered(root, totalStake, threshold)]), Ok)
    case RevokeValidatorSet(root) =>
      if env.caller != s.admin then (s, Err(NotAdmin))
      else if root !in s.validatorSets then (s, Err(UnknownSet))
      else
        (s.(validatorSets := s.validatorSets[root := s.validatorSets[root].(active := false)],
            events := s.events + [ValidatorSetRevoked(root)]), Ok)
    case SetChallengeWindow(window) =>
      if env.caller != s.admin then (s, Err(NotAdmin)) else (s.(challengeWindow := window), Ok)
    case TransferAdmin(newAdmin) =>
      if env.caller != s.admin then (s, Err(NotAdmin)) else (s.(admin := newAdmin), Ok)
    case VerifyProof(proof, root, epoch, slot, signedStake) =>
      if root !in s.validatorSets || !s.validatorSets[root].active then (s, Err(UnknownSet))
      else if proof in s.proofs then (s, Err(ProofAlreadyVerified))
      else if signedStake < s.validatorSets[root].threshold then (s, Err(InsufficientStake))
      else
        (s.(proofs := s.proofs[proof := ProofState(true, root, epoch, slot, env.now)],
            events := s.events + [ProofVerified(proof, root, epoch, slot)]), Ok)
    case AuthorizeRelay(proof, deposit, amount) =>
      if proof !in s.proofs || !s.proofs[proof].verified then (s, Err(ProofNotVerified))
      else if deposit in s.deposits then (s, Err(DepositAlreadyRelayed))
      else
        var end := WindowEnd(s.proofs[proof].acceptedAt, s.challengeWindow, env.overflowChecks);
        if end.None? then (s, Trapped)
        else if env.now < end.value then (s, Err(ChallengeWindowActive))
        else
          (s.(deposits := s.deposits[deposit := DepositState(true, deposit, amount)],
              events := s.events + [RelayAuthorized(proof, deposit, amount)]), Ok)
    case ForceMarkRelayed(deposit, amount) =>
      if env.caller != s.admin then (s, Err(NotAdmin))
      else (s.(deposits := s.deposits[deposit := DepositState(true, deposit, amount)]), Ok)
  }

  class QuantosL0Verifier {
    var admin: Account
    var challengeWindow: nat
    var validatorSets: map<Hash32, ValidatorSet>
    var proofs: map<Hash32, ProofState>
    var deposits: map<Hash32, DepositState>
    var events: seq<Event>

    function Contents(): Storage
      reads this
    {
      Storage(admin, challengeWindow, validatorSets, proofs, deposits, events)
    }

    constructor (admin: Account, challengeWindow: nat)
      ensures Contents() == Deployed(admin, challengeWindow)
    {
      this.admin := admin;
      this.challengeWindow := if challengeWindow == 0 then 300 else challengeWindow;
      validatorSets, proofs, deposits, events := map[], map[], map[], [];
    }

    constructor Default(caller: Account)
      ensures Contents() == Deployed(caller, 0)
    {
      admin, challengeWindow := caller, 300;
      validatorSets, proofs, deposits, events := map[], map[], map[], [];
    }

    method AssertAdmin(env: Env) returns (r: Result)
      ensures r == if env.caller == admin then Ok else Err(NotAdmin)
    {
      if env.caller != admin { return Err(NotAdmin); }
      return Ok;
    }

    method RegisterValidatorSet(env: Env, root: Hash32, totalStake: nat, threshold: nat) returns (r: Result)
      modifies this
      ensures (Contents(), r) ==
              Apply(old(Contents()), Call(env, Message.RegisterValidatorSet(root, totalStake, threshold)))
    {
      r := AssertAdmin(env);
      if r != Ok { return; }
      validatorSets := validatorSets[root := ValidatorSet(root, totalStake, threshold, true, env.now)];
      events := events + [ValidatorSetRegistered(root, totalStake, threshold)];
    }

    method RevokeValidatorSet(env: Env, root: Hash32) returns (r: Result)
      modifies this
      ensures (Contents(), r) == Apply(old(Contents()), Call(env, Message.RevokeValidatorSet(root)))
    {
      r := AssertAdmin(env);
      if r != Ok { return; }
      if root !in validatorSets { return Err(UnknownSet); }
      var s := validatorSets[root].(active := false);
      validatorSets := validatorSets[root := s];
      events := events + [ValidatorSetRevoked(root)];
    }

    method SetChallengeWindow(env: Env, window: nat) returns (r: Result)
      modifies this
      ensures (Contents(), r) == Apply(old(Contents()), Call(env, Message.SetChallengeWindow(window)))
    {
      r := AssertAdmin(env);
      if r != Ok { return; }
      challengeWindow := window;
    }

    method TransferAdmin(env: Env, newAdmin: Account) returns (r: Result)
      modifies this
      ensures (Contents(), r) == Apply(old(Contents()), Call(env, Message.TransferAdmin(newAdmin)))
    {
      r := AssertAdmin(env);
      if r != Ok { return; }
      admin := newAdmin;
    }

    method VerifyProof(env: Env, proof: Hash32, root: Hash32, epoch: nat, slot: nat, signedStake: nat)
        returns (r: Result)
      modifies this
      ensures (Contents(), r) ==
              Apply(old(Contents()), Call(env, Message.VerifyProof(proof, root, epoch, slot, signedStake)))
    {
      if root !in validatorSets { return Err(UnknownSet); }
      var s := validatorSets[root];
      if !s.active { return Err(UnknownSet); }
      if proof in proofs { return Err(ProofAlreadyVerified); }
      if signedStake < s.threshold { return Err(InsufficientStake); }
      proofs := proofs[proof := ProofState(true, root, epoch, slot, env.now)];
      events := events + [ProofVerified(proof, root, epoch, slot)];
      return Ok;
    }

    method AuthorizeRelay(env: Env, proof: Hash32, deposit: Hash32, amount: nat) returns (r: Result)
      modifies this
      ensures (Contents(), r) == Apply(old(Contents()), Call(env, Message.AuthorizeRelay(proof, deposit, amount)))
    {
      if proof !in proofs { return Err(ProofNotVerified); }
      var p := proofs[proof];
      if !p.verified { return Err(ProofNotVerified); }
      if deposit in deposits { return Err(DepositAlreadyRelayed); }
      var end := WindowEnd(p.acceptedAt, challengeWindow, env.overflowChecks);
      if end.None? { return Trapped; }
      if env.now < end.value { return Err(ChallengeWindowActive); }
      deposits := deposits[deposit := DepositState(true, deposit, amount)];
      events := events + [RelayAuthorized(proof, deposit, amount)];
      return Ok;
    }

    method ForceMarkRelayed(env: Env, deposit: Hash32, amount: nat) returns (r: Result)
      modifies this
      ensures (Contents(), r) == Apply(old(Contents()), Call(env, Message.ForceMarkRelayed(deposit, amount)))
    {
      r := AssertAdmin(env);
      if r != Ok { return; }
      deposits := deposits[deposit := DepositState(true, deposit, amount)];
    }
  }

  // ------------------------------------------------------------------ runs

  datatype Deployment = Deployment(admin: Account, challengeWindow: nat)

  function Run(d: Deployment, calls: seq<Call>): Storage {
    if calls == [] then Deployed(d.admin, d.challengeWindow)
    else Apply(Run(d, calls[..|calls| - 1]), calls[|calls| - 1]).0
  }

  /** The storage before call `i`. */
  function Before(d: Deployment, calls: seq<Call>, i: nat): Storage
    requires i <= |calls|
  {
    Run(d, calls[..i])
  }

  ghost predicate Succeeds(d: Deployment, calls: seq<Call>, i: nat) {
    i < |calls| && Apply(Before(d, calls, i), calls[i]).1.Ok?
  }

  lemma BeforeNext(d: Deployment, calls: seq<Call>, i: nat)
    requires i < |calls|
    ensures Before(d, calls, i + 1) == Apply(Before(d, calls, i), calls[i]).0
  {
    assert calls[..i + 1][..i] == calls[..i];
  }

  /** Proof records never change, marked deposits stay marked, and events are never taken back. */
  ghost predicate Extends(s: Storage, s': Storage) {
    && (forall p :: p in s.proofs ==> p in s'.proofs && s'.proofs[p] == s.proofs[p])
    && s.deposits.Keys <= s'.deposits.Keys
    && s.events <= s'.events
  }

  lemma StepExtends(s: Storage, call: Call)
    ensures Extends(s, Apply(s, call).0)
  {
  }

  lemma {:induction false} RecordsNeverChange(d: Deployment, calls: seq<Call>, i: nat, j: nat)
    requires i <= j <= |calls|
    ensures Extends(Before(d, calls, i), Before(d, calls, j))
    decreases j - i
  {
    if i < j {
      RecordsNeverChange(d, calls, i, j - 1);
      BeforeNext(d, calls, j - 1);
      StepExtends(Before(d, calls, j - 1), calls[j - 1]);
    }
  }

  /** Call `i` accepted the proof: its set was registered and active, and the stake met the stored threshold. */
  ghost predicate Accepts(d: Deployment, calls: seq<Call>, i: nat, proof: Hash32) {
    && i < |calls| && calls[i].msg.VerifyProof? && Succeeds(d, calls, i)
    && var (s, m) := (Before(d, calls, i), calls[i].msg);
       && m.proofHash == proof
       && m.validatorSetRoot in s.validatorSets && s.validatorSets[m.validatorSetRoot].active
       && m.signedStake >= s.validatorSets[m.validatorSetRoot].threshold
  }

  function Record(call: Call): ProofState
    requires call.msg.VerifyProof?
  {
    ProofState(true, call.msg.validatorSetRoot, call.msg.epoch, call.msg.slot, call.env.now)
  }

  /** Every stored proof was accepted by some call, and holds what that call said. */
  lemma {:induction false} StoredProofsWereAccepted(d: Deployment, calls: seq<Call>, n: nat, proof: Hash32)
    requires n <= |calls|
    requires proof in Before(d, calls, n).proofs
    ensures exists i :: 0 <= i < n && Accepts(d, calls, i, proof)
                        && Before(d, calls, n).proofs[proof] == Record(calls[i])
  {
    if n > 0 {
      BeforeNext(d, calls, n - 1);
      var s := Before(d, calls, n - 1);
      if proof in s.proofs {
        StoredProofsWereAccepted(d, calls, n - 1, proof);
        StepExtends(s, calls[n - 1]);
      } else {
        assert Accepts(d, calls, n - 1, proof);
      }
    }
  }

  /** An accepted proof is stored from then on. */
  lemma AcceptedProofsAreStored(d: Deployment, calls: seq<Call>, i: nat, n: nat, proof: Hash32)
    requires i < n <= |calls| && Accepts(d, calls, i, proof)
    ensures proof in Before(d, calls, n).proofs && Before(d, calls, n).proofs[proof] == Record(calls[i])
  {
    BeforeNext(d, calls, i);
    RecordsNeverChange(d, calls, i + 1, n);
    assert proof in Before(d, calls, i + 1).proofs;
  }

  ghost predicate Authorizes(d: Deployment, calls: seq<Call>, j: nat, deposit: Hash32) {
    j < |calls| && calls[j].msg.AuthorizeRelay? && calls[j].msg.deposit == deposit && Succeeds(d, calls, j)
  }

  ghost predicate ForceMarks(d: Deployment, calls: seq<Call>, j: nat, deposit: Hash32) {
    j < |calls| && calls[j].msg.ForceMarkRelayed? && calls[j].msg.deposit == deposit && Succeeds(d, calls, j)
  }

  /** Nothing authorises a deposit that was authorised, or marked by the admin, before. */
  lemma AuthorizedOnce(d: Deployment, calls: seq<Call>, i: nat, j: nat, deposit: Hash32)
    requires i < j && (Authorizes(d, calls, i, deposit) || ForceMarks(d, calls, i, deposit))
    ensures !Authorizes(d, calls, j, deposit)
  {
    if j < |calls| { MarksStay(d, calls, i, j, deposit); }
  }

  /** A deposit is marked only by a call that authorised it or an admin's. */
  lemma {:induction false} MarkedDepositsWereRelayed(d: Deployment, calls: seq<Call>, n: nat, deposit: Hash32)
    requires n <= |calls|
    requires deposit in Before(d, calls, n).deposits
    ensures exists i :: 0 <= i < n && (Authorizes(d, calls, i, deposit) || ForceMarks(d, calls, i, deposit))
  {
    if n > 0 {
      BeforeNext(d, calls, n - 1);
      if deposit in Before(d, calls, n - 1).deposits {
        MarkedDepositsWereRelayed(d, calls, n - 1, deposit);
      } else {
        assert Authorizes(d, calls, n - 1, deposit) || ForceMarks(d, calls, n - 1, deposit);
      }
    }
  }

  lemma MarksStay(d: Deployment, calls: seq<Call>, i: nat, n: nat, deposit: Hash32)
    requires i < n <= |calls| && (Authorizes(d, calls, i, deposit) || ForceMarks(d, calls, i, deposit))
    ensures deposit in Before(d, calls, n).deposits
  {
    BeforeNext(d, calls, i);
    RecordsNeverChange(d, calls, i + 1, n);
    assert deposit in Before(d, calls, i + 1).deposits.Keys;
  }

  /** Call `i` accepted the proof that call `j` relays under, and the window in force at `j` had passed. */
  ghost predicate Backs(d: Deployment, calls: seq<Call>, i: nat, j: nat)
    requires i < j < |calls| && calls[j].msg.AuthorizeRelay?
  {
    && Accepts(d, calls, i, calls[j].msg.proof)
    && var end := WindowEnd(calls[i].env.now, Before(d, calls, j).challengeWindow, calls[j].env.overflowChecks);
       end.Some? && calls[j].env.now >= end.value
  }

  ghost predicate Unmarked(d: Deployment, calls: seq<Call>, j: nat, deposit: Hash32) {
    forall k :: 0 <= k < j ==> !Authorizes(d, calls, k, deposit) && !ForceMarks(d, calls, k, deposit)
  }

  /** A relay is authorised exactly when an earlier call accepted its proof under an active set whose
      threshold was met, the window now in force has passed since then, and no earlier call authorised
      the deposit or marked it for the admin. */
  lemma AuthorizesIff(d: Deployment, calls: seq<Call>, j: nat)
    requires j < |calls| && calls[j].msg.AuthorizeRelay?
    ensures Succeeds(d, calls, j) <==>
              (exists i :: 0 <= i < j && Backs(d, calls, i, j)) && Unmarked(d, calls, j, calls[j].msg.deposit)
  {
    var s, m := Before(d, calls, j), calls[j].msg;
    if m.deposit in s.deposits { MarkedDepositsWereRelayed(d, calls, j, m.deposit); }
    forall k | 0 <= k < j && (Authorizes(d, calls, k, m.deposit) || ForceMarks(d, calls, k, m.deposit))
      ensures m.deposit in s.deposits
    {
      MarksStay(d, calls, k, j, m.deposit);
    }
    assert m.deposit !in s.deposits <==> Unmarked(d, calls, j, m.deposit);
    if Succeeds(d, calls, j) {
      StoredProofsWereAccepted(d, calls, j, m.proof);
      var i :| 0 <= i < j && Accepts(d, calls, i, m.proof) && s.proofs[m.proof] == Record(calls[i]);
      assert Backs(d, calls, i, j);
    }
    if i :| 0 <= i < j && Backs(d, calls, i, j) {
      AcceptedProofsAreStored(d, calls, i, j, m.proof);
    }
  }

  /** Acceptance plus the window in force, as a number of any size. */
  function Due(d: Deployment, calls: seq<Call>, i: nat, j: nat): nat
    requires i < j < |calls|
  {
    calls[i].env.now + Before(d, calls, j).challengeWindow
  }

  /** In every run, every authorised relay has a call that accepted its proof, and it comes before acceptance
      plus the window in force exactly when that sum does not fit in 64 bits; with overflow checks never. */
  lemma AuthorizedOnTimeUnlessWrapped(d: Deployment, calls: seq<Call>, j: nat)
    requires j < |calls| && calls[j].msg.AuthorizeRelay? && Succeeds(d, calls, j) && calls[j].env.now <= U64_MAX
    ensures exists i :: 0 <= i < j && Backs(d, calls, i, j)
    ensures forall i :: 0 <= i < j && Backs(d, calls, i, j) ==>
              && (calls[j].env.now < Due(d, calls, i, j) <==> Due(d, calls, i, j) > U64_MAX)
              && (calls[j].env.overflowChecks ==> calls[j].env.now >= Due(d, calls, i, j))
  {
    AuthorizesIff(d, calls, j);
  }

  /** Registers a set, opens the widest window, accepts a proof and relays under it. */
  function EarlyCalls(admin: Account, root: Hash32, proof: Hash32, deposit: Hash32, t: nat): seq<Call> {
    var env := Env(admin, t, false);
    [Call(env, Message.RegisterValidatorSet(root, 0, 0)), Call(env, Message.SetChallengeWindow(U64_MAX)),
     Call(env, Message.VerifyProof(proof, root, 0, 0, 0)), Call(env, Message.AuthorizeRelay(proof, deposit, 0))]
  }

  /** It happens: in an unchecked build, at any time but zero, a relay is authorised in the very block that
      accepted its proof. */
  lemma EarlyRelay(d: Deployment, root: Hash32, proof: Hash32, deposit: Hash32, t: nat)
    requires 1 <= t <= U64_MAX
    ensures var calls := EarlyCalls(d.admin, root, proof, deposit, t);
            Succeeds(d, calls, 3) && Backs(d, calls, 2, 3) && calls[3].env.now < Due(d, calls, 2, 3)
  {
    var calls := EarlyCalls(d.admin, root, proof, deposit, t);
    BeforeNext(d, calls, 0);
    BeforeNext(d, calls, 1);
    BeforeNext(d, calls, 2);
    assert WindowEnd(t, U64_MAX, false) == Some(t - 1);
    assert Succeeds(d, calls, 2);
  }

  // ------------------------------------------------------------------ the event log

  /** Relays in the log: each deposit once, stored as relayed, and its proof verified earlier in the log. */
  ghost predicate LogInv(s: Storage) {
    && (forall p :: p in s.proofs ==> HasVerified(s.events, p))
    && (forall k :: 0 <= k < |s.events| && s.events[k].RelayAuthorized? ==>
          s.events[k].deposit in s.deposits && HasVerified(s.events[..k], s.events[k].proof))
    && (forall k, l :: 0 <= k < l < |s.events| && s.events[k].RelayAuthorized? && s.events[l].RelayAuthorized? ==>
          s.events[k].deposit != s.events[l].deposit)
  }

  predicate HasVerified(events: seq<Event>, proof: Hash32) {
    exists k :: 0 <= k < |events| && events[k].ProofVerified? && events[k].proofHash == proof
  }

  lemma HasVerifiedGrows(events: seq<Event>, e: Event, proof: Hash32)
    ensures HasVerified(events + [e], proof) <==>
              HasVerified(events, proof) || (e.ProofVerified? && e.proofHash == proof)
  {
    var all := events + [e];
    if HasVerified(events, proof) {
      var k :| 0 <= k < |events| && events[k].ProofVerified? && events[k].proofHash == proof;
      assert all[k] == events[k];
    }
    assert all[|events|] == e;
  }

  /** Adding an event keeps the log's relays in order if the event itself is. */
  lemma LogGrows(s: Storage, s': Storage, e: Event)
    requires LogInv(s) && s'.events == s.events + [e] && s.deposits.Keys <= s'.deposits.Keys
    requires forall p :: p in s'.proofs ==> p in s.proofs || (e.ProofVerified? && e.proofHash == p)
    requires e.RelayAuthorized? ==> e.deposit !in s.deposits && e.deposit in s'.deposits && e.proof in s.proofs
    ensures LogInv(s')
  {
    forall p | p in s'.proofs ensures HasVerified(s'.events, p) {
      HasVerifiedGrows(s.events, e, p);
    }
    forall k | 0 <= k < |s'.events| && s'.events[k].RelayAuthorized?
      ensures s'.events[k].deposit in s'.deposits && HasVerified(s'.events[..k], s'.events[k].proof)
    {
      assert s'.events[..k] == s.events[..k];
      assert s.events[..|s.events|] == s.events;
      assert k < |s.events| ==> s'.events[k] == s.events[k] && s.events[k].deposit in s.deposits.Keys;
    }
  }

  /** A step either leaves proofs and log alone, or adds one event that fits. */
  lemma StepAddsOneEvent(s: Storage, call: Call)
    ensures var s' := Apply(s, call).0;
            || (s'.events == s.events && s'.proofs == s.proofs)
            || (&& |s'.events| == |s.events| + 1
                && var e := s'.events[|s.events|];
                   && s'.events == s.events + [e]
                   && s'.proofs.Keys <= s.proofs.Keys + (if e.ProofVerified? then {e.proofHash} else {})
                   && (e.RelayAuthorized? ==>
                         e.deposit !in s.deposits && e.deposit in s'.deposits && e.proof in s.proofs))
  {
    assert forall e: Event :: (s.events + [e])[|s.events|] == e;
  }

  lemma StepKeepsLog(s: Storage, call: Call)
    requires LogInv(s)
    ensures LogInv(Apply(s, call).0)
  {
    var s' := Apply(s, call).0;
    StepExtends(s, call);
    StepAddsOneEvent(s, call);
    if s'.events != s.events {
      assert forall p :: p in s'.proofs ==> p in s'.proofs.Keys;
      LogGrows(s, s', s'.events[|s.events|]);
    } else {
      LogStays(s, s');
    }
  }

  lemma LogStays(s: Storage, s': Storage)
    requires LogInv(s) && s'.events == s.events && s'.proofs == s.proofs && s.deposits.Keys <= s'.deposits.Keys
    ensures LogInv(s')
  {
    forall k | 0 <= k < |s'.events| && s'.events[k].RelayAuthorized? ensures s'.events[k].deposit in s'.deposits {
      assert s.events[k].deposit in s.deposits.Keys;
    }
  }

  lemma {:induction false} EveryRunKeepsLog(d: Deployment, calls: seq<Call>)
    ensures LogInv(Run(d, calls))
  {
    if calls != [] {
      EveryRunKeepsLog(d, calls[..|calls| - 1]);
      StepKeepsLog(Run(d, calls[..|calls| - 1]), calls[|calls| - 1]);
    }
  }
}
