/** What a final report says about the header it came with (quantos-l0-sdk/src/types.rs, verifier.rs): which
    other headers the same validators and signatures are final under. */
module HeaderBinding {
  import opened Bytes
  import opened FinalityProof

  /** The same validators and signatures under another header. */
  function Under(p: Proof, h: Header): Proof {
    p.(header := h)
  }

  predicate Final(sha3: Sha3, mldsa: MlDsa, p: Proof) {
    Tally(sha3, mldsa, p).IsFinal()
  }

  /** The signature verifies on no other message. */
  ghost predicate OnlyOn(mldsa: MlDsa, vs: seq<Validator>, s: Signature, message: seq<byte>) {
    forall m: seq<byte> :: Verifies(mldsa, vs, m, s) ==> m == message
  }

  /** Some signature of the proof is good for its own message only. */
  ghost predicate SignsOnce(sha3: Sha3, mldsa: MlDsa, p: Proof) {
    exists i :: 0 <= i < |p.signatures| && OnlyOn(mldsa, p.validators, p.signatures[i], SignedMessage(sha3, p))
  }

  /** A header with the same message and a threshold the stake meets is final too, whatever else it says. */
  lemma SameMessageIsFinal(sha3: Sha3, mldsa: MlDsa, p: Proof, h: Header)
    requires Final(sha3, mldsa, p) && SameMessage(sha3, p, Under(p, h))
    ensures Final(sha3, mldsa, Under(p, h)) <==> h.stakeThreshold <= SignedStake(p.validators, p.signatures)
  {
    SignedMessagesAgreeIff(sha3, p, Under(p, h));
    ReportIsFinalIff(sha3, mldsa, p);
    ReportIsFinalIff(sha3, mldsa, Under(p, h));
  }

  /** A final native proof that signs a checkpoint is final under every native header with that checkpoint hash
      and no higher threshold, whatever its state root, epoch or parent. */
  lemma CheckpointFinality(sha3: Sha3, mldsa: MlDsa, p: Proof, h: Header)
    requires Final(sha3, mldsa, p) && SignsCheckpoint(p)
    requires h.externalChain.None? && h.checkpointHash == p.header.checkpointHash
    requires h.stakeThreshold <= p.header.stakeThreshold
    ensures Final(sha3, mldsa, Under(p, h))
  {
    SameMessageIsFinal(sha3, mldsa, p, h);
    ReportIsFinalIff(sha3, mldsa, p);
  }

  lemma FinalHasMessage(sha3: Sha3, mldsa: MlDsa, p: Proof, q: Proof)
    requires SignsOnce(sha3, mldsa, p) && Final(sha3, mldsa, q)
    requires q.validators == p.validators && q.signatures == p.signatures
    ensures SignedMessage(sha3, p) == SignedMessage(sha3, q)
  {
    var i :| 0 <= i < |p.signatures| && OnlyOn(mldsa, p.validators, p.signatures[i], SignedMessage(sha3, p));
    ReportIsFinalIff(sha3, mldsa, q);
    assert Verifies(mldsa, p.validators, SignedMessage(sha3, q), p.signatures[i]);
  }

  /** Exactly these headers: with one signature good for its own message only, a header is final if and only if it
      gives the same message and its threshold is met. */
  lemma FinalUnderIff(sha3: Sha3, mldsa: MlDsa, p: Proof, h: Header)
    requires Final(sha3, mldsa, p) && SignsOnce(sha3, mldsa, p)
    ensures Final(sha3, mldsa, Under(p, h)) <==>
              SameMessage(sha3, p, Under(p, h)) && h.stakeThreshold <= SignedStake(p.validators, p.signatures)
  {
    var q := Under(p, h);
    if Final(sha3, mldsa, q) {
      FinalHasMessage(sha3, mldsa, p, q);
      SignedMessagesAgreeIff(sha3, p, q);
    }
    if SameMessage(sha3, p, q) { SameMessageIsFinal(sha3, mldsa, p, h); }
  }

  // ------------------------------------------------------------------ when the header is bound

  /** No other header makes the hasher collide with the proof's. */
  ghost predicate NoSecondPreimage(sha3: Sha3, p: Proof) {
    forall h: Header :: HeaderFits(h) ==> !Collision(sha3, SigningPreimage(p), SigningPreimage(Under(p, h)))
  }

  /** Every header the evidence is final under agrees with the proof's on all fields the digest covers. */
  ghost predicate HeaderBound(sha3: Sha3, mldsa: MlDsa, p: Proof) {
    forall h: Header :: HeaderFits(h) && Final(sha3, mldsa, Under(p, h)) ==> Covered(h) == Covered(p.header)
  }

  /** The digest covers the header for a fixed validator list, chain names of unequal length included. */
  lemma DigestCoversHeader(p: Proof, h: Header)
    requires ProofFits(p) && HeaderFits(h) && SigningPreimage(p) == SigningPreimage(Under(p, h))
    ensures Covered(h) == Covered(p.header)
  {
    HeaderLength(p.header);
    HeaderLength(h);
    assert |SigningPreimage(p)| == |HeaderBytes(p.header)| + |ValidatorBytes(p.validators)|;
    assert |SigningPreimage(Under(p, h))| == |HeaderBytes(h)| + |ValidatorBytes(p.validators)|;
    SigningLayoutBinds(p, Under(p, h));
  }

  /** Evidence that signs the digest is final under no header with other covered fields. */
  lemma DigestFinality(sha3: Sha3, mldsa: MlDsa, p: Proof, h: Header)
    requires ProofFits(p) && Final(sha3, mldsa, p) && SignsOnce(sha3, mldsa, p) && !SignsCheckpoint(p)
    requires HeaderFits(h) && Final(sha3, mldsa, Under(p, h))
    requires !Collision(sha3, SigningPreimage(p), SigningPreimage(Under(p, h)))
    ensures Covered(h) == Covered(p.header)
  {
    FinalUnderIff(sha3, mldsa, p, h);
    DigestCoversHeader(p, h);
  }

  function OtherHash(x: Hash32): (r: Hash32)
    ensures r != x
  {
    x[0 := if x[0] == 0 then 1 else 0]
  }

  lemma CheckpointUnbound(sha3: Sha3, mldsa: MlDsa, p: Proof)
    requires ProofFits(p) && Final(sha3, mldsa, p) && SignsCheckpoint(p)
    ensures !HeaderBound(sha3, mldsa, p)
  {
    var h := p.header.(stateRoot := OtherHash(p.header.stateRoot));
    CheckpointFinality(sha3, mldsa, p, h);
    assert Covered(h).stateRoot != Covered(p.header).stateRoot;
  }

  /** A final report binds the header exactly when the proof does not sign a checkpoint. */
  lemma FinalBindsHeaderIff(sha3: Sha3, mldsa: MlDsa, p: Proof)
    requires ProofFits(p) && Final(sha3, mldsa, p) && SignsOnce(sha3, mldsa, p) && NoSecondPreimage(sha3, p)
    ensures HeaderBound(sha3, mldsa, p) <==> !SignsCheckpoint(p)
  {
    if SignsCheckpoint(p) {
      CheckpointUnbound(sha3, mldsa, p);
    } else {
      forall h: Header | HeaderFits(h) && Final(sha3, mldsa, Under(p, h)) ensures Covered(h) == Covered(p.header) {
        DigestFinality(sha3, mldsa, p, h);
      }
    }
  }
}
