/** Vote locks: what an honest attester remembers, and the rule by which it may leave its block. */
module VoteLocks {
  import opened Wrappers
  import opened Bytes
  import opened Blocks
  import opened Sortition
  import opened Attestations
  import opened Commitments
  import opened Certificates
  import opened Verify

  datatype Held = Held(height: u64, view: u64, block: Block)

  type Lock = Option<Held>

  /** Whether a lock lets its owner sign `block` at (height, view), given the view a justification proves. */
  predicate LockPermits(lock: Lock, height: u64, view: u64, block: Block, justifiedAt: Option<u64>) {
    match lock
    case None => true
    case Some(held) =>
      if held.height < height then true
      else if held.height > height || view < held.view then false
      else held.block == block || (justifiedAt.Some? && held.view < justifiedAt.value <= view)
  }

  function LockRecorded(lock: Lock, height: u64, view: u64, block: Block): Lock {
    match lock
    case None => Some(Held(height, view, block))
    case Some(held) =>
      if height > held.height || (height == held.height && view >= held.view) then Some(Held(height, view, block))
        else lock
  }

  /** A permitted signature is always recorded, so the lock names the last block signed under it. */
  lemma PermittedIsRecorded(lock: Lock, height: u64, view: u64, block: Block, justifiedAt: Option<u64>)
    requires LockPermits(lock, height, view, block, justifiedAt)
    ensures LockRecorded(lock, height, view, block) == Some(Held(height, view, block))
  {
  }

  class VoteLock {
    var held: Lock

    constructor ()
      ensures held == None
    {
      held := None;
    }

    predicate Permits(height: u64, view: u64, block: Block, justifiedAt: Option<u64>)
      reads this
    {
      LockPermits(held, height, view, block, justifiedAt)
    }

    method Record(height: u64, view: u64, block: Block)
      modifies this
      ensures held == LockRecorded(old(held), height, view, block)
      ensures held == if old(held).Some? && (height < old(held).value.height
                                             || (height == old(held).value.height && view < old(held).value.view))
        then old(held) else Some(Held(height, view, block))
    {
      var replace := held.None? || height > held.value.height
        || (height == held.value.height && view >= held.value.view);
      if replace {
        held := Some(Held(height, view, block));
      }
    }
  }

  datatype Justification = Justification(certificate: Certificate, commitment: CommitteeCommitment, seed: Bytes32,
                                         tau: u64)

  /** The view in which a justification proves a quorum for `block` at `height`, if it does. */
  function JustificationView(crypto: Crypto, chain: ChainBinding, height: u64, block: Block,
                             j: Justification): Option<u64> {
    var cert := j.certificate;
    if cert.envelope.height != height || cert.envelope.block != block || cert.attestations == [] then None
    else if CertificateVerifies(Context(crypto, chain, j.commitment, j.seed, j.tau), cert)
      then Some(cert.attestations[0].subject.view)
    else None
  }

  function JustifiedAt(crypto: Crypto, chain: ChainBinding, height: u64, block: Block,
                       justification: Option<Justification>): Option<u64> {
    match justification
    case None => None
    case Some(j) => JustificationView(crypto, chain, height, block, j)
  }

  /** An attester: its id, its signing function over (message, context), and the credential it shows for a slot. */
  datatype Attester = Attester(id: u64, sign: (seq<u8>, seq<u8>) -> seq<u8>, credentialAt: u64 -> Option<Credential>)

  function Attest(a: Attester, chain: ChainBinding, s: Subject): Option<Attestation> {
    match a.credentialAt(s.slot)
    case None => None
    case Some(membership) => Some(Attestation(a.id, s, membership,
                                              a.sign(AttestationMessage(chain, s), AttestContext())))
  }

  /** The justification's certificate verifies for the block at its height, in a view past `after` and up to `upTo`. */
  ghost predicate ShowsQuorum(crypto: Crypto, chain: ChainBinding, j: Justification, height: u64, block: Block,
                              after: u64, upTo: u64) {
    var cert := j.certificate;
    && CertificateVerifies(Context(crypto, chain, j.commitment, j.seed, j.tau), cert)
    && cert.envelope.height == height && cert.envelope.block == block
    && exists att :: att in cert.attestations && after < att.subject.view <= upTo
  }

  /** The lock permits exactly what `ShowsQuorum` justifies, or what needs no justification. */
  lemma PermitsExactly(crypto: Crypto, chain: ChainBinding, lock: Lock, height: u64, view: u64, block: Block,
                       justification: Option<Justification>)
    ensures LockPermits(lock, height, view, block, JustifiedAt(crypto, chain, height, block, justification)) <==>
      || lock.None?
      || height > lock.value.height
      || (height == lock.value.height && view >= lock.value.view && block == lock.value.block)
      || (height == lock.value.height && justification.Some?
          && ShowsQuorum(crypto, chain, justification.value, height, block, lock.value.view, view))
  {
    if justification.Some? && lock.Some? {
      JustificationIs(crypto, chain, height, block, justification.value, lock.value.view, view);
    }
  }

  /** All attestations of a verified certificate are in one view, so any of them tells it. */
  lemma JustificationIs(crypto: Crypto, chain: ChainBinding, height: u64, block: Block, j: Justification, after: u64,
                        upTo: u64)
    ensures ShowsQuorum(crypto, chain, j, height, block, after, upTo) <==>
      var view := JustificationView(crypto, chain, height, block, j);
      view.Some? && after < view.value <= upTo
  {
    var cert, ctx := j.certificate, Context(crypto, chain, j.commitment, j.seed, j.tau);
    if CertificateVerifies(ctx, cert) && cert.attestations != [] {
      assert cert.attestations[0] in cert.attestations;
      forall att | att in cert.attestations ensures att.subject.view == cert.attestations[0].subject.view {
        VerifiedAttestation(ctx, cert, att);
      }
    }
  }

  /**
   * Signs exactly when it has a credential for the slot and has signed nothing that stands in the way: nothing yet, or
   * only at a lower height, or at this height the same block in a view not later, or another one in a view before that
   * of a certificate shown for this block. What it signs it holds, and a refusal leaves the lock alone.
   */
  method AttestLocked(a: Attester, crypto: Crypto, lock: VoteLock, chain: ChainBinding, s: Subject,
                      justification: Option<Justification>)
    returns (att: Option<Attestation>)
    modifies lock
    ensures att.Some? <==>
      && a.credentialAt(s.slot).Some?
      && (|| old(lock.held).None?
          || s.height > old(lock.held).value.height
          || (s.height == old(lock.held).value.height && s.view >= old(lock.held).value.view
              && s.block == old(lock.held).value.block)
          || (s.height == old(lock.held).value.height && justification.Some?
              && ShowsQuorum(crypto, chain, justification.value, s.height, s.block, old(lock.held).value.view, s.view)))
    ensures att.Some? ==>
      att == Some(Attestation(a.id, s, a.credentialAt(s.slot).value,
                              a.sign(AttestationMessage(chain, s), AttestContext())))
    ensures att.Some? ==> lock.held == Some(Held(s.height, s.view, s.block))
    ensures att.None? ==> lock.held == old(lock.held)
  {
    PermitsExactly(crypto, chain, lock.held, s.height, s.view, s.block, justification);
    var justifiedAt := JustifiedAt(crypto, chain, s.height, s.block, justification);
    if !lock.Permits(s.height, s.view, s.block, justifiedAt) {
      return None;
    }
    att := Attest(a, chain, s);
    if att.Some? {
      lock.Record(s.height, s.view, s.block);
    }
  }
}
