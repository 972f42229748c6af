/**
 * Equivocation: proofs against one signer, blame for two conflicting certificates, and the bounded scan for offenders.
 */
module Equivocation {
  import opened Wrappers
  import opened Bytes
  import opened IdSets
  import opened Blocks
  import opened Attestations
  import opened Commitments
  import opened Certificates
  import opened Verify
  import opened Agreement

  // ---- proofs against one signer ----

  datatype EquivocationProof = EquivocationProof(offender: u64, height: u64, view: u64, first: Attestation,
                                                 second: Attestation)

  /** One signer, two different blocks, one height and view. */
  predicate Conflict(a: Attestation, b: Attestation) {
    && a.from == b.from && a.subject.height == b.subject.height && a.subject.view == b.subject.view
    && a.subject.block != b.subject.block && VotesOnABlock(a.subject.block) && VotesOnABlock(b.subject.block)
  }

  function NewProof(a: Attestation, b: Attestation): Option<EquivocationProof> {
    if !Conflict(a, b) then None
    else if LexLeq(a.subject.block.ToBytes(), b.subject.block.ToBytes()) then
      Some(EquivocationProof(a.from, a.subject.height, a.subject.view, a, b))
    else
      Some(EquivocationProof(b.from, b.subject.height, b.subject.view, b, a))
  }

  predicate ProofVerifies(crypto: Crypto, chain: ChainBinding, p: EquivocationProof, key: PublicKey) {
    && p.first.from == p.offender && p.second.from == p.offender
    && p.first.subject.height == p.height && p.second.subject.height == p.height
    && p.first.subject.view == p.view && p.second.subject.view == p.view
    && p.first.subject.block != p.second.subject.block
    && VotesOnABlock(p.first.subject.block) && VotesOnABlock(p.second.subject.block)
    && SignatureVerifies(crypto, chain, p.first, key) && SignatureVerifies(crypto, chain, p.second, key)
  }

  /** A pair of votes makes one proof, whichever was seen first. */
  lemma ProofIgnoresOrder(a: Attestation, b: Attestation)
    ensures NewProof(a, b) == NewProof(b, a)
  {
    var x, y := a.subject.block, b.subject.block;
    if Conflict(a, b) {
      LexTotal(x.ToBytes(), y.ToBytes());
      if LexLeq(x.ToBytes(), y.ToBytes()) && LexLeq(y.ToBytes(), x.ToBytes()) {
        LexAntisymmetric(x.ToBytes(), y.ToBytes());
        ToBytesInjective(x, y);
      }
    }
  }

  /** A proof is made of two votes of one signer, at one height and view, for two blocks, the lower encoding first. */
  lemma ProofMadeExactly(a: Attestation, b: Attestation)
    ensures NewProof(a, b).Some? <==>
      && a.from == b.from && a.subject.height == b.subject.height && a.subject.view == b.subject.view
      && a.subject.block != b.subject.block
      && a.subject.block.cost != U64_MAX && b.subject.block.cost != U64_MAX
    ensures NewProof(a, b).Some? ==>
      var p := NewProof(a, b).value;
      && p.offender == a.from && p.height == a.subject.height && p.view == a.subject.view
      && {p.first, p.second} == {a, b}
      && exists k :: LowerAt(p.first.subject.block.ToBytes(), p.second.subject.block.ToBytes(), k)
  {
    var x, y := a.subject.block.ToBytes(), b.subject.block.ToBytes();
    if Conflict(a, b) {
      if x == y { ToBytesInjective(a.subject.block, b.subject.block); }
      LexTotal(x, y);
      LexExactly(x, y);
      LexExactly(y, x);
    }
  }

  /** A proof verifies exactly when its votes would make a proof of what it names, and the key signed both. */
  lemma ProofVerifiesExactly(crypto: Crypto, chain: ChainBinding, p: EquivocationProof, key: PublicKey)
    ensures ProofVerifies(crypto, chain, p, key) <==>
      && NewProof(p.first, p.second).Some?
      && NewProof(p.first, p.second).value.offender == p.offender
      && NewProof(p.first, p.second).value.height == p.height && NewProof(p.first, p.second).value.view == p.view
      && crypto.verify(key, AttestationMessage(chain, p.first.subject), p.first.sig, AttestContext())
      && crypto.verify(key, AttestationMessage(chain, p.second.subject), p.second.sig, AttestContext())
  {
  }

  /** A proof made from a pair holds against exactly the key that signed both votes. */
  lemma ProofHoldsExactly(crypto: Crypto, chain: ChainBinding, a: Attestation, b: Attestation, key: PublicKey)
    requires NewProof(a, b).Some?
    ensures ProofVerifies(crypto, chain, NewProof(a, b).value, key)
            <==> SignatureVerifies(crypto, chain, a, key) && SignatureVerifies(crypto, chain, b, key)
  {
    ProofIgnoresOrder(a, b);
  }

  /** In no run does a proof hold against an honest attester whose signatures nobody else can make. */
  lemma HonestNeverProven(net: Network, calls: seq<Call>, chain: ChainBinding, p: EquivocationProof, key: PublicKey)
    requires LegalRun(net, calls) && p.offender in net.honest
    requires forall m, sig :: net.crypto.verify(key, m, sig, AttestContext()) ==> SignedBy(calls, p.offender, m)
    ensures !ProofVerifies(net.crypto, chain, p, key)
  {
    if ProofVerifies(net.crypto, chain, p, key) {
      var i := VoteCall(net, calls, chain, p.first);
      var j := VoteCall(net, calls, chain, p.second);
      OneBlockPerView(net, calls, i, j);
    }
  }

  lemma VoteCall(net: Network, calls: seq<Call>, chain: ChainBinding, att: Attestation) returns (i: nat)
    requires LegalRun(net, calls) && VotesOnABlock(att.subject.block)
    requires SignedBy(calls, att.from, AttestationMessage(chain, att.subject))
    ensures i < |calls| && calls[i].Locked? && calls[i].id == att.from && calls[i].subject == att.subject
  {
    i :| 0 <= i < |calls| && calls[i].id == att.from
         && AttestationMessage(calls[i].chain, calls[i].subject) == AttestationMessage(chain, att.subject);
    MessageInjective(calls[i].chain, calls[i].subject, chain, att.subject);
    assert Legal(net, calls[..i], calls[i]);
  }

  // ---- blame for two conflicting certificates ----

  /** The one view in which every attestation signs the envelope's subject. */
  function CertificateView(cert: Certificate): Option<u64> {
    if cert.attestations == [] then None
    else
      var view := cert.attestations[0].subject.view;
      if forall a :: a in cert.attestations ==>
           a.subject.view == view && a.subject.height == cert.envelope.height && a.subject.block == cert.envelope.block
      then Some(view) else None
  }

  /** `ConflictingCertificates::new` accepts the pair. */
  predicate Conflicting(first: Certificate, second: Certificate) {
    && first.envelope.height == second.envelope.height
    && first.envelope.block != second.envelope.block
    && VotesOnABlock(first.envelope.block) && VotesOnABlock(second.envelope.block)
    && CertificateView(first).Some? && CertificateView(first) == CertificateView(second)
  }

  /** Every attestation of the certificate signs its height and block, in this view. */
  ghost predicate AllInView(cert: Certificate, view: u64) {
    forall a :: a in cert.attestations ==>
      a.subject.view == view && a.subject.height == cert.envelope.height && a.subject.block == cert.envelope.block
  }

  /** The pairs accepted: two different blocks voted on at one height, each by somebody and by everybody in one view. */
  lemma ConflictingExactly(first: Certificate, second: Certificate)
    ensures Conflicting(first, second) <==>
      && first.envelope.height == second.envelope.height && first.envelope.block != second.envelope.block
      && first.envelope.block.cost != U64_MAX && second.envelope.block.cost != U64_MAX
      && first.attestations != [] && second.attestations != []
      && exists view: u64 :: AllInView(first, view) && AllInView(second, view)
  {
    ViewExactly(first);
    ViewExactly(second);
    if Conflicting(first, second) {
      var view := CertificateView(first).value;
      assert AllInView(first, view) && AllInView(second, view);
    }
  }

  lemma ViewExactly(cert: Certificate)
    ensures forall view: u64 ::
      CertificateView(cert) == Some(view) <==> cert.attestations != [] && AllInView(cert, view)
  {
    if cert.attestations != [] {
      assert cert.attestations[0] in cert.attestations;
      forall view: u64 ensures CertificateView(cert) == Some(view) <==> AllInView(cert, view) {
      }
    }
  }

  function Keep(ids: seq<u64>, others: seq<u64>): (r: seq<u64>)
    ensures forall x :: x in r <==> x in ids && x in others
  {
    if ids == [] then []
    else
      assert ids == [ids[0]] + ids[1..];
      (if ids[0] in others then [ids[0]] else []) + Keep(ids[1..], others)
  }

  lemma {:induction false} KeepAscends(ids: seq<u64>, others: seq<u64>)
    requires AscendingIds(ids)
    ensures AscendingIds(Keep(ids, others))
  {
    if ids != [] {
      KeepAscends(ids[1..], others);
      var rest := Keep(ids[1..], others);
      forall i | 0 <= i < |rest| ensures ids[0] < rest[i] {
        assert rest[i] in rest;
        var j :| 0 <= j < |ids[1..]| && ids[1..][j] == rest[i];
        assert ids[0] < ids[j + 1];
      }
    }
  }

  lemma AttestersCommon(a: seq<Attestation>, b: seq<Attestation>)
    ensures AscendingIds(Keep(Attesters(a), Attesters(b)))
    ensures IdSet(Keep(Attesters(a), Attesters(b))) == SignerSet(a) * SignerSet(b)
  {
    AttestersAscend(a);
    KeepAscends(Attesters(a), Attesters(b));
    forall x ensures x in Keep(Attesters(a), Attesters(b)) <==> x in SignerSet(a) * SignerSet(b) {
      assert x in IdSet(Attesters(a)) <==> x in SignerSet(a);
      assert x in IdSet(Attesters(b)) <==> x in SignerSet(b);
    }
  }

  function Offenders(ctx1: Context, first: Certificate, ctx2: Context, second: Certificate): seq<u64> {
    if !CertificateVerifies(ctx1, first) || !CertificateVerifies(ctx2, second) then []
    else Keep(Attesters(first.attestations), Attesters(second.attestations))
  }

  /** Blamed, in ascending order, are exactly the common signers of two certificates that both verify. */
  lemma OffendersExactly(ctx1: Context, first: Certificate, ctx2: Context, second: Certificate)
    ensures var ids := Offenders(ctx1, first, ctx2, second);
      && AscendingIds(ids)
      && forall id :: id in ids <==>
           && CertificateVerifies(ctx1, first) && CertificateVerifies(ctx2, second)
           && id in SignerSet(first.attestations) && id in SignerSet(second.attestations)
  {
    hide CertificateVerifies;
    AttestersCommon(first.attestations, second.attestations);
    var common := Keep(Attesters(first.attestations), Attesters(second.attestations));
    assert forall id :: id in common <==> id in IdSet(common);
  }

  ghost predicate ProvablyEquivocated(ctx: Context, first: Certificate, second: Certificate, id: u64) {
    exists a, b :: a in first.attestations && b in second.attestations && a.from == b.from == id
      && NewProof(a, b).Some? && MemberOf(ctx.commitment, id).Some?
      && ProofVerifies(ctx.crypto, ctx.chain, NewProof(a, b).value, MemberOf(ctx.commitment, id).value.attestPk)
  }

  lemma OffenderIsProven(ctx1: Context, first: Certificate, ctx2: Context, second: Certificate, a: Attestation,
                         b: Attestation)
    requires ctx1.crypto == ctx2.crypto && ctx1.chain == ctx2.chain && ctx1.commitment == ctx2.commitment
    requires CertificateVerifies(ctx1, first) && CertificateVerifies(ctx2, second) && Conflicting(first, second)
    requires a in first.attestations && b in second.attestations && a.from == b.from
    ensures ProvablyEquivocated(ctx1, first, second, a.from)
  {
    VerifiedAttestation(ctx1, first, a);
    VerifiedAttestation(ctx2, second, b);
    ProofHoldsExactly(ctx1.crypto, ctx1.chain, a, b, MemberOf(ctx1.commitment, a.from).value.attestPk);
  }

  /**
   * Accountable safety: two conflicting certificates that verify under one commitment name, as offenders, exactly the
   * signers they share; those hold more than a third of the quorum stake, and each is proven to have equivocated.
   */
  lemma ConflictIsAccountable(ctx1: Context, first: Certificate, ctx2: Context, second: Certificate)
    requires ctx1.crypto == ctx2.crypto && ctx1.chain == ctx2.chain && ctx1.commitment == ctx2.commitment
    requires CertificateVerifies(ctx1, first) && CertificateVerifies(ctx2, second) && Conflicting(first, second)
    ensures AscendingIds(Offenders(ctx1, first, ctx2, second))
    ensures IdSet(Offenders(ctx1, first, ctx2, second))
      == SignerSet(first.attestations) * SignerSet(second.attestations)
    ensures 3 * StakeIn(ctx1.commitment.members, IdSet(Offenders(ctx1, first, ctx2, second)))
      > ExactQuorumStake(ctx1.commitment)
    ensures forall id :: id in Offenders(ctx1, first, ctx2, second) ==> ProvablyEquivocated(ctx1, first, second, id)
  {
    var offenders := Offenders(ctx1, first, ctx2, second);
    AttestersCommon(first.attestations, second.attestations);
    QuorumsIntersect(ctx1, first, ctx2, second);
    forall id | id in offenders ensures ProvablyEquivocated(ctx1, first, second, id) {
      assert id in IdSet(offenders);
      var a :| a in first.attestations && a.from == id;
      var b :| b in second.attestations && b.from == id;
      OffenderIsProven(ctx1, first, ctx2, second, a, b);
    }
  }

  /** The blamed are never honest: in any run the offenders of two unforged certificates are all byzantine. */
  lemma OffendersAreByzantine(net: Network, calls: seq<Call>, ctx1: Context, first: Certificate, ctx2: Context,
                              second: Certificate, id: u64)
    requires LegalRun(net, calls) && Final(net, calls, ctx1, first) && Final(net, calls, ctx2, second)
    requires Conflicting(first, second) && id in Offenders(ctx1, first, ctx2, second)
    ensures id !in net.honest
  {
    AttestersCommon(first.attestations, second.attestations);
    assert id in IdSet(Offenders(ctx1, first, ctx2, second));
    if id in net.honest {
      var i := SigningCall(net, calls, ctx1, first, id);
      var j := SigningCall(net, calls, ctx2, second, id);
      OneBlockPerView(net, calls, i, j);
    }
  }
}
