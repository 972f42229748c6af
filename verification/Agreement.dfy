/**
 * Agreement across views. A run is the sequence of signatures honest attesters make; byzantine attesters sign anything,
 * so they need no steps. An honest attester signs through its vote lock, or signs an auxiliary subject without it.
 */
module Agreement {
  import opened Wrappers
  import opened Bytes
  import opened Attestations
  import opened Commitments
  import opened Certificates
  import opened Verify
  import opened VoteLocks

  /** The honest ids, and the one commitment that honest attesters trust at each height. */
  datatype Network = Network(crypto: Crypto, honest: set<u64>, trusted: u64 -> CommitteeCommitment)

  datatype Call =
    | Locked(id: u64, chain: ChainBinding, subject: Subject, justification: Option<Justification>)
    | Plain(id: u64, chain: ChainBinding, subject: Subject)

  function LockAfter(calls: seq<Call>, id: u64): Lock {
    if calls == [] then None
    else
      var before, call := LockAfter(calls[..|calls| - 1], id), calls[|calls| - 1];
      if call.Locked? && call.id == id
        then LockRecorded(before, call.subject.height, call.subject.view, call.subject.block)
      else before
  }

  ghost predicate SignedBy(calls: seq<Call>, id: u64, message: seq<u8>) {
    exists i :: 0 <= i < |calls| && calls[i].id == id && AttestationMessage(calls[i].chain, calls[i].subject) == message
  }

  /** Unforgeability: a signature under an honest member's key was made by that member, in one of these calls. */
  ghost predicate Backed(net: Network, calls: seq<Call>, chain: ChainBinding, c: CommitteeCommitment,
                         cert: Certificate) {
    forall att :: att in cert.attestations && att.from in net.honest ==>
      MemberOf(c, att.from).Some? && SignatureVerifies(net.crypto, chain, att, MemberOf(c, att.from).value.attestPk) ==>
        SignedBy(calls, att.from, AttestationMessage(chain, att.subject))
  }

  function JustifiedCall(net: Network, call: Call): Option<u64>
    requires call.Locked?
  {
    JustifiedAt(net.crypto, call.chain, call.subject.height, call.subject.block, call.justification)
  }

  /** The certificate a call shows, if any, is judged under the trusted commitment and forges no honest signature. */
  ghost predicate Unforged(net: Network, before: seq<Call>, call: Call)
    requires call.Locked?
  {
    match call.justification
    case None => true
    case Some(j) => j.commitment == net.trusted(call.subject.height)
                    && Backed(net, before, call.chain, j.commitment, j.certificate)
  }

  /**
   * The call is one an honest attester makes after `before`: its lock permits it, on a trusted and unforged
   * certificate.
   */
  ghost predicate Legal(net: Network, before: seq<Call>, call: Call) {
    && call.id in net.honest
    && (call.Plain? ==> !VotesOnABlock(call.subject.block))
    && (call.Locked? ==>
          && LockPermits(LockAfter(before, call.id), call.subject.height, call.subject.view, call.subject.block,
                         JustifiedCall(net, call))
          && Unforged(net, before, call))
  }

  ghost predicate LegalRun(net: Network, calls: seq<Call>) {
    forall i :: 0 <= i < |calls| ==> Legal(net, calls[..i], calls[i])
  }

  /** Byzantine members hold at most a third of each trusted quorum stake. */
  ghost predicate FaultBound(net: Network, height: u64) {
    var c := net.trusted(height);
    3 * StakeIn(c.members, AllIds(c.members) - net.honest) <= ExactQuorumStake(c)
  }

  // ---- the lock over a run ----

  lemma LockAtCall(net: Network, calls: seq<Call>, i: nat)
    requires LegalRun(net, calls) && i < |calls| && calls[i].Locked?
    ensures var s := calls[i].subject; LockAfter(calls[..i + 1], calls[i].id) == Some(Held(s.height, s.view, s.block))
  {
    var s := calls[i].subject;
    assert Legal(net, calls[..i], calls[i]);
    assert calls[..i + 1][..i] == calls[..i];
    PermittedIsRecorded(LockAfter(calls[..i], calls[i].id), s.height, s.view, s.block, JustifiedCall(net, calls[i]));
  }

  /** The lock has not fallen behind a signed block, and at its height and view is on that block. */
  predicate Covers(lock: Lock, s: Subject) {
    && lock.Some?
    && lock.value.height >= s.height
    && (lock.value.height == s.height ==> lock.value.view >= s.view)
    && (lock.value.height == s.height && lock.value.view == s.view ==> lock.value.block == s.block)
  }

  lemma CoverKept(lock: Lock, s: Subject, next: Subject, justifiedAt: Option<u64>)
    requires Covers(lock, s) && LockPermits(lock, next.height, next.view, next.block, justifiedAt)
    ensures Covers(LockRecorded(lock, next.height, next.view, next.block), s)
  {
  }

  lemma LockStep(calls: seq<Call>, n: nat, id: u64)
    requires 0 < n <= |calls|
    ensures var before, call := LockAfter(calls[..n - 1], id), calls[n - 1];
      LockAfter(calls[..n], id)
      == if call.Locked? && call.id == id
        then LockRecorded(before, call.subject.height, call.subject.view, call.subject.block) else before
  {
    assert calls[..n][..n - 1] == calls[..n - 1];
  }

  /** Once a block is signed, the signer's lock covers it for good. */
  lemma {:induction false} LockCovers(net: Network, calls: seq<Call>, i: nat, n: nat)
    requires LegalRun(net, calls) && i < n <= |calls| && calls[i].Locked?
    ensures Covers(LockAfter(calls[..n], calls[i].id), calls[i].subject)
    decreases n
  {
    if n == i + 1 {
      LockAtCall(net, calls, i);
    } else {
      var id, call := calls[i].id, calls[n - 1];
      LockCovers(net, calls, i, n - 1);
      LockStep(calls, n, id);
      if call.Locked? && call.id == id {
        assert Legal(net, calls[..n - 1], call);
        CoverKept(LockAfter(calls[..n - 1], id), calls[i].subject, call.subject, JustifiedCall(net, call));
      }
    }
  }

  /** The lock a call meets comes from the signer's last locked call. */
  lemma {:induction false} LockSource(net: Network, calls: seq<Call>, n: nat, id: u64) returns (p: nat)
    requires LegalRun(net, calls) && n <= |calls| && LockAfter(calls[..n], id).Some?
    ensures p < n && calls[p].Locked? && calls[p].id == id
    ensures var s := calls[p].subject; LockAfter(calls[..n], id) == Some(Held(s.height, s.view, s.block))
    ensures forall q :: p < q < n ==> !(calls[q].Locked? && calls[q].id == id)
    decreases n
  {
    assert calls[..n][..n - 1] == calls[..n - 1];
    if calls[n - 1].Locked? && calls[n - 1].id == id {
      p := n - 1;
      LockAtCall(net, calls, p);
    } else {
      p := LockSource(net, calls, n - 1, id);
    }
  }

  ghost predicate SameSigner(calls: seq<Call>, i: nat, j: nat) {
    && i < |calls| && j < |calls| && calls[i].Locked? && calls[j].Locked?
    && calls[i].id == calls[j].id && calls[i].subject.height == calls[j].subject.height
  }

  /** At one height an honest signer's views never go back, and one view holds one block. */
  lemma ViewsAdvance(net: Network, calls: seq<Call>, i: nat, j: nat)
    requires LegalRun(net, calls) && SameSigner(calls, i, j) && i < j
    ensures calls[i].subject.view <= calls[j].subject.view
    ensures calls[i].subject.view == calls[j].subject.view ==> calls[i].subject.block == calls[j].subject.block
  {
    LockCovers(net, calls, i, j);
    assert Legal(net, calls[..j], calls[j]);
  }

  lemma OneBlockPerView(net: Network, calls: seq<Call>, i: nat, j: nat)
    requires LegalRun(net, calls) && SameSigner(calls, i, j) && calls[i].subject.view == calls[j].subject.view
    ensures calls[i].subject.block == calls[j].subject.block
  {
    if i < j { ViewsAdvance(net, calls, i, j); }
    if j < i { ViewsAdvance(net, calls, j, i); }
  }

  /** A signer that left its block for another did so on a certificate for the new block in a later view. */
  lemma {:induction false} SwitchIsJustified(net: Network, calls: seq<Call>, i: nat, j: nat) returns (k: nat)
    requires LegalRun(net, calls) && SameSigner(calls, i, j) && i < j
    requires calls[i].subject.block != calls[j].subject.block
    ensures i < k <= j && SameSigner(calls, i, k) && calls[k].subject.block == calls[j].subject.block
    ensures JustifiedCall(net, calls[k]).Some? && calls[i].subject.view < JustifiedCall(net, calls[k]).value
    decreases j
  {
    LockCovers(net, calls, i, j);
    var id := calls[j].id;
    if LockAfter(calls[..j], id).value.block == calls[j].subject.block {
      var p := LockedBefore(net, calls, i, j);
      k := SwitchIsJustified(net, calls, i, p);
    } else {
      k := j;
      SwitchNow(net, calls, i, j);
    }
  }

  /** A call that keeps the locked block has the lock from a call between, for the same block. */
  lemma LockedBefore(net: Network, calls: seq<Call>, i: nat, j: nat) returns (p: nat)
    requires LegalRun(net, calls) && SameSigner(calls, i, j) && i < j
    requires calls[i].subject.block != calls[j].subject.block
    requires var lock := LockAfter(calls[..j], calls[j].id);
      Covers(lock, calls[i].subject) && lock.value.block == calls[j].subject.block
    ensures i < p < j && SameSigner(calls, i, p) && calls[p].subject.block == calls[j].subject.block
  {
    assert Legal(net, calls[..j], calls[j]);
    p := LockSource(net, calls, j, calls[j].id);
  }

  /** The call that leaves the locked block is justified in a view past the lock's. */
  lemma SwitchNow(net: Network, calls: seq<Call>, i: nat, j: nat)
    requires LegalRun(net, calls) && SameSigner(calls, i, j) && i < j
    requires var lock := LockAfter(calls[..j], calls[j].id);
      Covers(lock, calls[i].subject) && lock.value.block != calls[j].subject.block
    requires calls[i].subject.block != calls[j].subject.block
    ensures JustifiedCall(net, calls[j]).Some? && calls[i].subject.view < JustifiedCall(net, calls[j]).value
  {
    assert Legal(net, calls[..j], calls[j]);
  }

  // ---- what an honest attester may sign next ----

  ghost predicate LastLocked(calls: seq<Call>, id: u64, p: nat) {
    && p < |calls| && calls[p].Locked? && calls[p].id == id
    && forall q :: p < q < |calls| ==> !(calls[q].Locked? && calls[q].id == id)
  }

  ghost predicate NeverLocked(calls: seq<Call>, id: u64) {
    forall q :: 0 <= q < |calls| ==> !(calls[q].Locked? && calls[q].id == id)
  }

  lemma LegalNext(net: Network, calls: seq<Call>, call: Call)
    requires LegalRun(net, calls)
    ensures LegalRun(net, calls + [call]) <==> Legal(net, calls, call)
  {
    var next := calls + [call];
    assert next[..|calls|] == calls && next[|calls|] == call;
    forall i | 0 <= i < |calls| ensures Legal(net, next[..i], next[i]) {
      assert next[..i] == calls[..i];
    }
  }

  lemma {:induction false} NoLockYet(calls: seq<Call>, id: u64)
    requires NeverLocked(calls, id)
    ensures LockAfter(calls, id) == None
  {
    if calls != [] {
      NoLockYet(calls[..|calls| - 1], id);
    }
  }

  /** An honest attester's first signature under its lock is free. */
  lemma SignsFirst(net: Network, calls: seq<Call>, call: Call)
    requires LegalRun(net, calls) && call.Locked? && call.id in net.honest && Unforged(net, calls, call)
    requires NeverLocked(calls, call.id)
    ensures LegalRun(net, calls + [call])
  {
    NoLockYet(calls, call.id);
    LegalNext(net, calls, call);
  }

  /**
   * After its last signature under the lock an honest attester signs, in any run, exactly what is at a later height,
   * or at that height the same block in a view not earlier, or another with a certificate for it from a later view, up
   * to the one it signs in.
   */
  lemma SignsNext(net: Network, calls: seq<Call>, p: nat, call: Call)
    requires LegalRun(net, calls) && call.Locked? && call.id in net.honest && Unforged(net, calls, call)
    requires LastLocked(calls, call.id, p)
    ensures var s, t, j := calls[p].subject, call.subject, call.justification;
      LegalRun(net, calls + [call]) <==>
        || t.height > s.height
        || (t.height == s.height && t.view >= s.view && t.block == s.block)
        || (t.height == s.height && j.Some?
            && ShowsQuorum(net.crypto, call.chain, j.value, t.height, t.block, s.view, t.view))
  {
    LegalNext(net, calls, call);
    HeldSince(net, calls, p, call.id);
    PermitsExactly(net.crypto, call.chain, LockAfter(calls, call.id), call.subject.height, call.subject.view,
                   call.subject.block, call.justification);
  }

  lemma HeldSince(net: Network, calls: seq<Call>, p: nat, id: u64)
    requires LegalRun(net, calls) && LastLocked(calls, id, p)
    ensures var s := calls[p].subject; LockAfter(calls, id) == Some(Held(s.height, s.view, s.block))
  {
    LockCovers(net, calls, p, |calls|);
    assert calls[..|calls|] == calls;
    var q := LockSource(net, calls, |calls|, id);
    assert q == p;
  }

  // ---- quorums ----

  /**
   * A certificate that verifies at its height under the network's trusted commitment, on no forged honest signature.
   */
  ghost predicate Final(net: Network, calls: seq<Call>, ctx: Context, cert: Certificate) {
    && ctx.crypto == net.crypto
    && ctx.commitment == net.trusted(cert.envelope.height)
    && CertificateVerifies(ctx, cert)
    && Backed(net, calls, ctx.chain, ctx.commitment, cert)
  }

  function ViewOf(cert: Certificate): u64 {
    FirstView(cert.attestations)
  }

  lemma HonestInBoth(net: Network, ctx1: Context, cert1: Certificate, ctx2: Context, cert2: Certificate)
    returns (x: u64)
    requires ctx1.commitment == ctx2.commitment == net.trusted(cert1.envelope.height)
    requires CertificateVerifies(ctx1, cert1) && CertificateVerifies(ctx2, cert2)
    requires FaultBound(net, cert1.envelope.height)
    ensures x in net.honest && x in SignerSet(cert1.attestations) && x in SignerSet(cert2.attestations)
  {
    var ms := ctx1.commitment.members;
    var both, byz := SignerSet(cert1.attestations) * SignerSet(cert2.attestations), AllIds(ms) - net.honest;
    QuorumsIntersect(ctx1, cert1, ctx2, cert2);
    if forall y :: y in both ==> y !in net.honest {
      assert forall m :: m in ms ==> m.id in AllIds(ms);
      StakeMonotone(ms, both, byz);
    }
    x :| x in both && x in net.honest;
  }

  /** The locked call in which an honest signer of a final block certificate signed it. */
  lemma SigningCall(net: Network, calls: seq<Call>, ctx: Context, cert: Certificate, x: u64) returns (i: nat)
    requires LegalRun(net, calls) && Final(net, calls, ctx, cert) && VotesOnABlock(cert.envelope.block)
    requires x in net.honest && x in SignerSet(cert.attestations)
    ensures i < |calls| && calls[i].Locked? && calls[i].id == x
    ensures var s := calls[i].subject;
      s.height == cert.envelope.height && s.view == ViewOf(cert) && s.block == cert.envelope.block
  {
    var att :| att in cert.attestations && att.from == x;
    VerifiedAttestation(ctx, cert, att);
    var message := AttestationMessage(ctx.chain, att.subject);
    assert SignedBy(calls, x, message);
    i :| 0 <= i < |calls| && calls[i].id == x && AttestationMessage(calls[i].chain, calls[i].subject) == message;
    MessageInjective(calls[i].chain, calls[i].subject, ctx.chain, att.subject);
    assert Legal(net, calls[..i], calls[i]);
  }

  /** The certificate behind a justified call is itself final, on the calls made before it. */
  lemma JustificationIsFinal(net: Network, calls: seq<Call>, k: nat) returns (ctx: Context, cert: Certificate)
    requires LegalRun(net, calls) && k < |calls| && calls[k].Locked? && JustifiedCall(net, calls[k]).Some?
    ensures Final(net, calls[..k], ctx, cert)
    ensures cert.envelope.height == calls[k].subject.height && cert.envelope.block == calls[k].subject.block
    ensures ViewOf(cert) == JustifiedCall(net, calls[k]).value
  {
    assert Legal(net, calls[..k], calls[k]);
    var j := calls[k].justification.value;
    ctx, cert := Context(net.crypto, calls[k].chain, j.commitment, j.seed, j.tau), j.certificate;
  }

  lemma LegalPrefix(net: Network, calls: seq<Call>, n: nat)
    requires LegalRun(net, calls) && n <= |calls|
    ensures LegalRun(net, calls[..n])
  {
    forall i | 0 <= i < n ensures Legal(net, calls[..n][..i], calls[..n][i]) {
      assert calls[..n][..i] == calls[..i];
    }
  }

  /** The same for a certificate that was final already after the first n calls. */
  lemma EarlySigningCall(net: Network, calls: seq<Call>, n: nat, ctx: Context, cert: Certificate, x: u64)
    returns (j: nat)
    requires LegalRun(net, calls) && n <= |calls| && Final(net, calls[..n], ctx, cert)
      && VotesOnABlock(cert.envelope.block)
    requires x in net.honest && x in SignerSet(cert.attestations)
    ensures j < n && calls[j].Locked? && calls[j].id == x
    ensures var s := calls[j].subject;
      s.height == cert.envelope.height && s.view == ViewOf(cert) && s.block == cert.envelope.block
  {
    LegalPrefix(net, calls, n);
    j := SigningCall(net, calls[..n], ctx, cert, x);
  }

  /** The votes of an honest signer of two certificates in different views, in the order it cast them. */
  lemma VotesInOrder(net: Network, calls: seq<Call>, ctx1: Context, cert1: Certificate, n: nat, ctx2: Context,
                     cert2: Certificate)
    returns (i: nat, j: nat)
    requires LegalRun(net, calls) && n <= |calls|
    requires Final(net, calls, ctx1, cert1) && Final(net, calls[..n], ctx2, cert2)
    requires cert1.envelope.height == cert2.envelope.height && FaultBound(net, cert1.envelope.height)
    requires VotesOnABlock(cert1.envelope.block) && VotesOnABlock(cert2.envelope.block)
    requires ViewOf(cert1) < ViewOf(cert2)
    ensures i < j < n && SameSigner(calls, i, j)
    ensures calls[i].subject.height == cert1.envelope.height && calls[i].subject.view == ViewOf(cert1)
    ensures calls[i].subject.block == cert1.envelope.block && calls[j].subject.block == cert2.envelope.block
  {
    var x := HonestInBoth(net, ctx1, cert1, ctx2, cert2);
    i := SigningCall(net, calls, ctx1, cert1, x);
    j := EarlySigningCall(net, calls, n, ctx2, cert2, x);
    if j < i { ViewsAdvance(net, calls, j, i); }
  }

  /**
   * No certificate of a later view, formed at any point of the run, names another block. By induction on that point: a
   * common honest signer switched blocks, which took an earlier certificate for the other block, again in a later view.
   */
  lemma {:induction false} NoLaterConflict(net: Network, calls: seq<Call>, ctx1: Context, cert1: Certificate, n: nat,
                                           ctx2: Context, cert2: Certificate)
    requires LegalRun(net, calls) && n <= |calls|
    requires Final(net, calls, ctx1, cert1) && Final(net, calls[..n], ctx2, cert2)
    requires cert1.envelope.height == cert2.envelope.height && FaultBound(net, cert1.envelope.height)
    requires VotesOnABlock(cert1.envelope.block) && VotesOnABlock(cert2.envelope.block)
    requires ViewOf(cert1) < ViewOf(cert2)
    ensures cert1.envelope.block == cert2.envelope.block
    decreases n
  {
    if cert1.envelope.block != cert2.envelope.block {
      var i, j := VotesInOrder(net, calls, ctx1, cert1, n, ctx2, cert2);
      var k := SwitchIsJustified(net, calls, i, j);
      var ctx3, cert3 := JustificationIsFinal(net, calls, k);
      NoLaterConflict(net, calls, ctx1, cert1, k, ctx3, cert3);
    }
  }

  /**
   * Agreement: at one height, any two certificates for blocks that verify under the trusted commitment, in whatever
   * views and on whatever chains, beacons and thresholds they are judged, name the same block.
   */
  lemma CertificatesAgree(net: Network, calls: seq<Call>, ctx1: Context, cert1: Certificate, ctx2: Context,
                          cert2: Certificate)
    requires LegalRun(net, calls)
    requires Final(net, calls, ctx1, cert1) && Final(net, calls, ctx2, cert2)
    requires cert1.envelope.height == cert2.envelope.height && FaultBound(net, cert1.envelope.height)
    requires VotesOnABlock(cert1.envelope.block) && VotesOnABlock(cert2.envelope.block)
    ensures cert1.envelope.block == cert2.envelope.block
  {
    assert calls[..|calls|] == calls;
    if ViewOf(cert1) < ViewOf(cert2) {
      NoLaterConflict(net, calls, ctx1, cert1, |calls|, ctx2, cert2);
    } else if ViewOf(cert2) < ViewOf(cert1) {
      NoLaterConflict(net, calls, ctx2, cert2, |calls|, ctx1, cert1);
    } else {
      var x := HonestInBoth(net, ctx1, cert1, ctx2, cert2);
      var i := SigningCall(net, calls, ctx1, cert1, x);
      var j := SigningCall(net, calls, ctx2, cert2, x);
      OneBlockPerView(net, calls, i, j);
    }
  }
}
