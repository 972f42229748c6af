/** The verifier: what makes a finality certificate valid under a trusted committee commitment. */
module Verify {
  import opened Wrappers
  import opened Bytes
  import opened IdSets
  import opened Sortition
  import opened Attestations
  import opened Commitments
  import opened Certificates

  datatype RejectReason =
    | CommitmentMismatch | WrongSubject | NotOnCommittee | BadSignature | NotEntitled | DuplicateAttester | NotAQuorum
    | MixedViews | BadCommitment | HeightMismatch | OutOfBudget

  datatype Verdict = Verified | Rejected(reason: RejectReason)

  /** What the verifier is told apart from the certificate. */
  datatype Context = Context(crypto: Crypto, chain: ChainBinding, commitment: CommitteeCommitment, seed: Bytes32,
                             tau: u64)

  predicate CommitmentUsable(c: CommitteeCommitment) {
    c.totalWeight >= CommitteeWeight(c.members) && 0 < c.budget <= COMMITTEE_BUDGET
  }

  predicate EntitledIn(ctx: Context, m: MemberKey, att: Attestation) {
    VerifyDraw(ctx.crypto.hashes, ctx.commitment.mode, m.root, att.from, ctx.seed, att.subject.slot,
               m.weight, ctx.commitment.totalWeight, ctx.commitment.budget, att.membership)
  }

  /** Two thirds of n, rounded down, plus one. */
  function FinalityThreshold(n: u64): nat {
    n * 2 / 3 + 1
  }

  function EffectiveTau(ctx: Context): nat {
    if ctx.commitment.mode == Full then 1
    else
      var floor := FinalityThreshold(|ctx.commitment.members|);
      if ctx.tau > floor then ctx.tau else floor
  }

  predicate QuorumOf(ctx: Context, signers: seq<u64>) {
    |signers| >= EffectiveTau(ctx) && WeightOk(ctx.commitment, signers)
  }

  /** Faults of the envelope and the commitment, in the order they are looked for. */
  function HeaderFault(ctx: Context, env: Envelope, count: nat): Option<RejectReason> {
    if env.committee != Digest(ctx.crypto.hashes, ctx.commitment) then Some(CommitmentMismatch)
    else if env.slot != ctx.commitment.slot then Some(CommitmentMismatch)
    else if !CommitmentUsable(ctx.commitment) then Some(BadCommitment)
    else if env.height != env.block.height then Some(HeightMismatch)
    else if !env.block.IsAdmissible() then Some(OutOfBudget)
    else if count > |ctx.commitment.members| then Some(NotAQuorum)
    else None
  }

  /** Faults an attestation has whether or not its signer was already counted. */
  function AttestationFault(ctx: Context, env: Envelope, view: u64, att: Attestation): Option<RejectReason> {
    if att.subject.view != view then Some(MixedViews)
    else if att.subject.height != env.height || att.subject.slot != env.slot
      || att.subject.block != env.block then Some(WrongSubject)
    else if att.subject.committee != Digest(ctx.crypto.hashes, ctx.commitment) then Some(CommitmentMismatch)
    else
      match MemberOf(ctx.commitment, att.from)
      case None => Some(NotOnCommittee)
      case Some(m) => if SignatureVerifies(ctx.crypto, ctx.chain, att, m.attestPk) then None else Some(BadSignature)
  }

  predicate Entitled(ctx: Context, att: Attestation) {
    match MemberOf(ctx.commitment, att.from)
    case None => false
    case Some(m) => EntitledIn(ctx, m, att)
  }

  datatype Scan = Counted(signers: seq<u64>) | Faulted(reason: RejectReason)

  /** The scan of the remaining attestations, given the signers counted so far. */
  function ScanFrom(ctx: Context, env: Envelope, view: u64, atts: seq<Attestation>, seen: seq<u64>): Scan
    decreases atts
  {
    if atts == [] then Counted(seen)
    else
      var att := atts[0];
      match AttestationFault(ctx, env, view, att)
      case Some(reason) => Faulted(reason)
      case None =>
        if att.from in seen then ScanFrom(ctx, env, view, atts[1..], seen)
        else if Entitled(ctx, att) then ScanFrom(ctx, env, view, atts[1..], seen + [att.from])
        else Faulted(NotEntitled)
  }

  /** The view that all attestations of a body must be in. */
  function FirstView(atts: seq<Attestation>): u64 {
    if atts == [] then 0 else atts[0].subject.view
  }

  /** The verdict on a certificate body. */
  function Judge(ctx: Context, env: Envelope, atts: seq<Attestation>): Verdict {
    match HeaderFault(ctx, env, |atts|)
    case Some(reason) => Rejected(reason)
    case None =>
      match ScanFrom(ctx, env, FirstView(atts), atts, [])
      case Faulted(reason) => Rejected(reason)
      case Counted(signers) => if QuorumOf(ctx, signers) then Verified else Rejected(NotAQuorum)
  }

  method VerifyBody(ctx: Context, env: Envelope, atts: seq<Attestation>) returns (verdict: Verdict)
    ensures verdict == Judge(ctx, env, atts)
  {
    var c := ctx.commitment;
    var digest := Digest(ctx.crypto.hashes, c);
    if env.committee != digest || env.slot != c.slot {
      return Rejected(CommitmentMismatch);
    }
    if c.totalWeight < CommitteeWeight(c.members) || c.budget == 0 || c.budget > COMMITTEE_BUDGET {
      return Rejected(BadCommitment);
    }
    if env.height != env.block.height {
      return Rejected(HeightMismatch);
    }
    if !env.block.IsAdmissible() {
      return Rejected(OutOfBudget);
    }
    if |atts| > |c.members| {
      return Rejected(NotAQuorum);
    }
    var view := FirstView(atts);
    var seen: seq<u64> := [];
    for i := 0 to |atts|
      invariant ScanFrom(ctx, env, view, atts[i..], seen) == ScanFrom(ctx, env, view, atts, [])
    {
      var att := atts[i];
      assert atts[i..][0] == att && atts[i..][1..] == atts[i + 1..];
      if att.subject.view != view {
        return Rejected(MixedViews);
      }
      if att.subject.height != env.height || att.subject.slot != env.slot || att.subject.block != env.block {
        return Rejected(WrongSubject);
      }
      if att.subject.committee != digest {
        return Rejected(CommitmentMismatch);
      }
      var member := MemberOf(c, att.from);
      if member.None? {
        return Rejected(NotOnCommittee);
      }
      if !SignatureVerifies(ctx.crypto, ctx.chain, att, member.value.attestPk) {
        return Rejected(BadSignature);
      }
      if att.from !in seen {
        if !EntitledIn(ctx, member.value, att) {
          return Rejected(NotEntitled);
        }
        seen := seen + [att.from];
      }
    }
    verdict := if QuorumOf(ctx, seen) then Verified else Rejected(NotAQuorum);
  }

  // ---- what Verified means ----

  /** Every attestation is a faultless one for `view`, and the first of each signer is entitled. */
  ghost predicate AllSound(ctx: Context, env: Envelope, view: u64, atts: seq<Attestation>, seen: set<u64>) {
    && (forall i :: 0 <= i < |atts| ==> AttestationFault(ctx, env, view, atts[i]).None?)
    && (forall i :: 0 <= i < |atts| && atts[i].from !in seen && atts[i].from !in SignerSet(atts[..i]) ==>
        Entitled(ctx, atts[i]))
  }

  lemma SoundTail(ctx: Context, env: Envelope, view: u64, atts: seq<Attestation>, seen: set<u64>)
    requires atts != []
    ensures AllSound(ctx, env, view, atts, seen) <==>
      && AttestationFault(ctx, env, view, atts[0]).None?
      && (atts[0].from in seen || Entitled(ctx, atts[0]))
      && AllSound(ctx, env, view, atts[1..], seen + {atts[0].from})
  {
    hide AttestationFault, Entitled;
    var rest := atts[1..];
    assert atts[..0] == [];
    assert forall i :: 0 <= i < |rest| ==> rest[i] == atts[i + 1];
    forall i | 0 <= i < |rest|
      ensures SignerSet(atts[..i + 1]) == {atts[0].from} + SignerSet(rest[..i])
    {
      assert atts[..i + 1] == [atts[0]] + rest[..i];
    }
    if AllSound(ctx, env, view, atts, seen) {
      forall i | 0 <= i < |rest| && rest[i].from !in seen + {atts[0].from} && rest[i].from !in SignerSet(rest[..i])
        ensures Entitled(ctx, rest[i])
      {
        assert atts[i + 1].from !in SignerSet(atts[..i + 1]);
      }
    }
    if AttestationFault(ctx, env, view, atts[0]).None? && (atts[0].from in seen || Entitled(ctx, atts[0]))
       && AllSound(ctx, env, view, rest, seen + {atts[0].from}) {
      forall i | 0 <= i < |atts| && atts[i].from !in seen && atts[i].from !in SignerSet(atts[..i])
        ensures Entitled(ctx, atts[i])
      {
        if i > 0 {
          assert rest[i - 1].from !in SignerSet(rest[..i - 1]);
        }
      }
      forall i | 0 <= i < |atts| ensures AttestationFault(ctx, env, view, atts[i]).None? {
        if i > 0 { assert AttestationFault(ctx, env, view, rest[i - 1]).None?; }
      }
    }
  }

  /** The scan counts exactly when every attestation is sound, and then it counts each signer once. */
  lemma {:induction false} ScanCounts(ctx: Context, env: Envelope, view: u64, atts: seq<Attestation>, seen: seq<u64>)
    requires Distinct(seen)
    ensures ScanFrom(ctx, env, view, atts, seen).Counted? <==> AllSound(ctx, env, view, atts, IdSet(seen))
    ensures ScanFrom(ctx, env, view, atts, seen).Counted? ==>
      var signers := ScanFrom(ctx, env, view, atts, seen).signers;
      Distinct(signers) && IdSet(signers) == IdSet(seen) + SignerSet(atts)
    decreases atts
  {
    hide AttestationFault, Entitled;
    if atts != [] {
      var att := atts[0];
      SoundTail(ctx, env, view, atts, IdSet(seen));
      assert SignerSet(atts) == {att.from} + SignerSet(atts[1..]) by { assert atts == [att] + atts[1..]; }
      if att.from in seen {
        assert IdSet(seen) + {att.from} == IdSet(seen);
        ScanCounts(ctx, env, view, atts[1..], seen);
      } else {
        assert IdSet(seen + [att.from]) == IdSet(seen) + {att.from};
        ScanCounts(ctx, env, view, atts[1..], seen + [att.from]);
      }
    }
  }

  /** The signers' stake passes two thirds of the quorum stake, and there are enough of them. */
  predicate Supermajority(ctx: Context, signers: set<u64>) {
    && |signers| >= EffectiveTau(ctx)
    && 3 * StakeIn(ctx.commitment.members, signers) > 2 * ExactQuorumStake(ctx.commitment)
    && 2 * ExactQuorumStake(ctx.commitment) < U128_MAX
  }

  lemma QuorumIsSupermajority(ctx: Context, signers: seq<u64>)
    requires Distinct(signers)
    ensures QuorumOf(ctx, signers) <==> Supermajority(ctx, IdSet(signers))
  {
    DistinctCount(signers);
    WeightOkExactly(ctx.commitment, signers);
  }

  /**
   * A body is Verified exactly when its header is faultless, every attestation signs the one subject in one view as a
   * committee member, every signer is entitled, and the distinct signers hold a supermajority of the true stake.
   */
  lemma SoundIsVerified(ctx: Context, env: Envelope, atts: seq<Attestation>)
    ensures Judge(ctx, env, atts).Verified? <==>
      && HeaderFault(ctx, env, |atts|).None?
      && AllSound(ctx, env, FirstView(atts), atts, {})
      && Supermajority(ctx, SignerSet(atts))
  {
    var view := FirstView(atts);
    assert IdSet([]) == {};
    ScanCounts(ctx, env, view, atts, []);
    if ScanFrom(ctx, env, view, atts, []).Counted? {
      var signers := ScanFrom(ctx, env, view, atts, []).signers;
      assert IdSet(signers) == SignerSet(atts);
      QuorumIsSupermajority(ctx, signers);
    }
  }

  /** In sampled modes the signers are also more than two thirds of the seats, however low the caller's threshold. */
  lemma VerifiedSeats(ctx: Context, env: Envelope, atts: seq<Attestation>)
    requires Judge(ctx, env, atts).Verified? && ctx.commitment.mode != Full
    ensures 3 * |SignerSet(atts)| > 2 * |ctx.commitment.members| && |SignerSet(atts)| >= ctx.tau
  {
    SoundIsVerified(ctx, env, atts);
  }

  predicate CertificateVerifies(ctx: Context, cert: Certificate) {
    Judge(ctx, cert.envelope, cert.attestations).Verified?
  }

  /** What a verified certificate says of each of its attestations. */
  lemma VerifiedAttestation(ctx: Context, cert: Certificate, att: Attestation)
    requires CertificateVerifies(ctx, cert) && att in cert.attestations
    ensures att.subject == Subject(cert.envelope.height, ctx.commitment.slot, cert.attestations[0].subject.view,
                                   Digest(ctx.crypto.hashes, ctx.commitment), cert.envelope.block)
    ensures MemberOf(ctx.commitment, att.from).Some?
    ensures SignatureVerifies(ctx.crypto, ctx.chain, att, MemberOf(ctx.commitment, att.from).value.attestPk)
  {
    SoundIsVerified(ctx, cert.envelope, cert.attestations);
    var i :| 0 <= i < |cert.attestations| && cert.attestations[i] == att;
    assert AttestationFault(ctx, cert.envelope, cert.attestations[0].subject.view, cert.attestations[i]).None?;
  }

  /** Signers of two verified certificates under one commitment share more than a third of its quorum stake. */
  lemma QuorumsIntersect(ctx1: Context, cert1: Certificate, ctx2: Context, cert2: Certificate)
    requires ctx1.commitment == ctx2.commitment
    requires CertificateVerifies(ctx1, cert1) && CertificateVerifies(ctx2, cert2)
    ensures var c := ctx1.commitment;
      3 * StakeIn(c.members, SignerSet(cert1.attestations) * SignerSet(cert2.attestations)) > ExactQuorumStake(c)
  {
    var c := ctx1.commitment;
    var a, b := SignerSet(cert1.attestations), SignerSet(cert2.attestations);
    SoundIsVerified(ctx1, cert1.envelope, cert1.attestations);
    SoundIsVerified(ctx2, cert2.envelope, cert2.attestations);
    StakeUnion(c.members, a, b);
    StakeMonotone(c.members, a + b, a + b + AllIds(c.members));
    StakeInAll(c.members, a + b + AllIds(c.members));
  }
}
