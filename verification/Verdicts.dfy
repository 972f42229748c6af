/** The verifier's verdicts, condition by condition: which bodies are Verified, and why each other one is not. */
module Verdicts {
  import opened Wrappers
  import opened Bytes
  import opened IdSets
  import opened Sortition
  import opened Attestations
  import opened Commitments
  import opened Certificates
  import opened Verify

  /** The checks on a body: six on its header, six on each attestation, and the quorum. */
  datatype Check = Header(k: nat) | OnAttestation(i: nat, k: nat) | OnQuorum

  predicate IsCheck(check: Check, count: nat) {
    match check
    case Header(k) => k < 6
    case OnAttestation(i, k) => i < count && k < 6
    case OnQuorum => true
  }

  predicate Earlier(a: Check, b: Check) {
    match a
    case Header(k) => b.Header? ==> k < b.k
    case OnAttestation(i, k) => !b.Header? && (b.OnAttestation? ==> i < b.i || (i == b.i && k < b.k))
    case OnQuorum => false
  }

  function ReasonOf(check: Check): RejectReason {
    match check
    case Header(k) =>
      if k <= 1 then CommitmentMismatch else if k == 2 then BadCommitment else if k == 3 then HeightMismatch
      else if k == 4 then OutOfBudget else NotAQuorum
    case OnAttestation(_, k) =>
      if k == 0 then MixedViews else if k == 1 then WrongSubject else if k == 2 then CommitmentMismatch
      else if k == 3 then NotOnCommittee else if k == 4 then BadSignature else NotEntitled
    case OnQuorum => NotAQuorum
  }

  lemma OneIsEarlier(a: Check, b: Check)
    requires a != b
    ensures Earlier(a, b) || Earlier(b, a)
  {
  }

  ghost predicate HeaderPasses(ctx: Context, env: Envelope, count: nat, k: nat) {
    var c := ctx.commitment;
    match k
    case 0 => env.committee == Digest(ctx.crypto.hashes, c)
    case 1 => env.slot == c.slot
    case 2 => (Sum(Weights(c.members)) <= c.totalWeight || c.totalWeight == U64_MAX) && 1 <= c.budget <= 500
    case 3 => env.height == env.block.height
    case 4 => env.block.cost <= 1 || env.block.cost == U64_MAX
    case _ => count <= |c.members|
  }

  /** The member's key verifies the signature over the chain and the subject. */
  ghost predicate SignedBy(ctx: Context, m: MemberKey, att: Attestation) {
    m.id == att.from
    && ctx.crypto.verify(m.attestPk, AttestationMessage(ctx.chain, att.subject), att.sig, Ascii("QORUS-ATTEST-CERT"))
  }

  ghost predicate DrawnBy(ctx: Context, m: MemberKey, att: Attestation) {
    var c := ctx.commitment;
    m.id == att.from
    && VerifyDraw(ctx.crypto.hashes, c.mode, m.root, m.id, ctx.seed, c.slot, m.weight, c.totalWeight, c.budget,
                  att.membership)
  }

  ghost predicate AttestationPasses(ctx: Context, env: Envelope, atts: seq<Attestation>, i: nat, k: nat)
    requires i < |atts|
  {
    var c, att := ctx.commitment, atts[i];
    match k
    case 0 => att.subject.view == atts[0].subject.view
    case 1 => att.subject.height == env.height && att.subject.slot == env.slot && att.subject.block == env.block
    case 2 => att.subject.committee == Digest(ctx.crypto.hashes, c)
    case 3 => exists m :: m in c.members && m.id == att.from
    case 4 => exists m :: m in c.members && SignedBy(ctx, m, att)
    case _ => (exists j :: 0 <= j < i && atts[j].from == att.from) || exists m :: m in c.members && DrawnBy(ctx, m, att)
  }

  /** Stake past two thirds of all the quorum stake; in sampled modes past two thirds of the seats, and at least tau. */
  ghost predicate QuorumPasses(ctx: Context, signers: set<u64>) {
    var c := ctx.commitment;
    && signers != {}
    && (c.mode != Full ==> 3 * |signers| > 2 * |c.members| && |signers| >= ctx.tau)
    && 3 * StakeIn(c.members, signers) > 2 * (Sum(Stakes(c.members)) + c.absentStake)
    && 2 * (Sum(Stakes(c.members)) + c.absentStake) < U128_MAX
  }

  ghost predicate Passes(ctx: Context, env: Envelope, atts: seq<Attestation>, check: Check)
    requires IsCheck(check, |atts|)
  {
    match check
    case Header(k) => HeaderPasses(ctx, env, |atts|, k)
    case OnAttestation(i, k) => AttestationPasses(ctx, env, atts, i, k)
    case OnQuorum => QuorumPasses(ctx, SignerSet(atts))
  }

  ghost predicate FirstFailed(ctx: Context, env: Envelope, atts: seq<Attestation>, check: Check) {
    && IsCheck(check, |atts|) && !Passes(ctx, env, atts, check)
    && forall c :: IsCheck(c, |atts|) && Earlier(c, check) ==> Passes(ctx, env, atts, c)
  }

  // ---- the header ----

  function Weights(ms: seq<MemberKey>): (s: seq<u64>)
    ensures |s| == |ms|
  {
    seq(|ms|, i requires 0 <= i < |ms| => ms[i].weight)
  }

  lemma {:induction false} WeightSaturates(ms: seq<MemberKey>)
    ensures CommitteeWeight(ms) == if Sum(Weights(ms)) > U64_MAX then U64_MAX else Sum(Weights(ms))
  {
    if ms != [] {
      WeightSaturates(ms[..|ms| - 1]);
      assert Weights(ms)[..|ms| - 1] == Weights(ms[..|ms| - 1]);
    }
  }

  ghost predicate HeaderSound(ctx: Context, env: Envelope, count: nat) {
    forall k :: 0 <= k < 6 ==> HeaderPasses(ctx, env, count, k)
  }

  /** The header's fault is that of the first of its checks to fail. */
  lemma HeaderFaultIs(ctx: Context, env: Envelope, count: nat) returns (k: nat)
    ensures k <= 6 && (forall j :: 0 <= j < k ==> HeaderPasses(ctx, env, count, j))
    ensures k < 6 ==>
      !HeaderPasses(ctx, env, count, k) && HeaderFault(ctx, env, count) == Some(ReasonOf(Header(k)))
    ensures k == 6 ==> HeaderFault(ctx, env, count).None?
  {
    WeightSaturates(ctx.commitment.members);
    k := 0;
    while k < 6 && HeaderPasses(ctx, env, count, k)
      invariant k <= 6 && forall j :: 0 <= j < k ==> HeaderPasses(ctx, env, count, j)
    {
      k := k + 1;
    }
    assert k > 0 ==> HeaderPasses(ctx, env, count, 0);
    assert k > 1 ==> HeaderPasses(ctx, env, count, 1);
    assert k > 2 ==> HeaderPasses(ctx, env, count, 2);
    assert k > 3 ==> HeaderPasses(ctx, env, count, 3);
    assert k > 4 ==> HeaderPasses(ctx, env, count, 4);
    assert k > 5 ==> HeaderPasses(ctx, env, count, 5);
  }

  // ---- the attestations ----

  lemma {:induction false} FindAscending(ms: seq<MemberKey>, m: MemberKey)
    requires Ascending(ms) && m in ms
    ensures Find(ms, m.id) == Some(m)
  {
    AscendingTail(ms);
    if ms[0] != m {
      FindAscending(ms[1..], m);
    }
  }

  lemma MemberIs(ctx: Context, att: Attestation)
    ensures MemberOf(ctx.commitment, att.from).None? ==> forall m :: m in ctx.commitment.members ==> m.id != att.from
    ensures MemberOf(ctx.commitment, att.from).Some? ==> forall m :: m in ctx.commitment.members ==>
      (m.id == att.from <==> m == MemberOf(ctx.commitment, att.from).value)
  {
    forall m | m in ctx.commitment.members && m.id == att.from ensures MemberOf(ctx.commitment, att.from) == Some(m) {
      FindAscending(ctx.commitment.members, m);
    }
  }

  lemma EntitledIs(ctx: Context, att: Attestation)
    requires att.subject.slot == ctx.commitment.slot
    ensures Entitled(ctx, att) <==> exists m :: m in ctx.commitment.members && DrawnBy(ctx, m, att)
  {
    MemberIs(ctx, att);
    if Entitled(ctx, att) {
      assert DrawnBy(ctx, MemberOf(ctx.commitment, att.from).value, att);
    }
  }

  ghost predicate AttestationSound(ctx: Context, env: Envelope, atts: seq<Attestation>, i: nat)
    requires i < |atts|
  {
    forall k :: 0 <= k < 6 ==> AttestationPasses(ctx, env, atts, i, k)
  }

  /** The first check that an attestation fails tells what the scan finds there. */
  lemma AttestationFaultIs(ctx: Context, env: Envelope, atts: seq<Attestation>, i: nat) returns (k: nat)
    requires i < |atts| && HeaderSound(ctx, env, |atts|)
    ensures k <= 6 && (forall j :: 0 <= j < k ==> AttestationPasses(ctx, env, atts, i, j))
    ensures k < 6 ==> !AttestationPasses(ctx, env, atts, i, k)
    ensures k < 5 ==>
      AttestationFault(ctx, env, atts[0].subject.view, atts[i]) == Some(ReasonOf(OnAttestation(i, k)))
    ensures k >= 5 ==> AttestationFault(ctx, env, atts[0].subject.view, atts[i]).None?
    ensures k >= 5 ==> (k == 6 <==> atts[i].from in SignerSet(atts[..i]) || Entitled(ctx, atts[i]))
  {
    k := 0;
    while k < 6 && AttestationPasses(ctx, env, atts, i, k)
      invariant k <= 6 && forall j :: 0 <= j < k ==> AttestationPasses(ctx, env, atts, i, j)
    {
      k := k + 1;
    }
    assert HeaderPasses(ctx, env, |atts|, 1);
    MemberIs(ctx, atts[i]);
    assert k > 0 ==> AttestationPasses(ctx, env, atts, i, 0);
    assert k > 1 ==> AttestationPasses(ctx, env, atts, i, 1);
    assert k > 2 ==> AttestationPasses(ctx, env, atts, i, 2);
    assert k > 3 ==> AttestationPasses(ctx, env, atts, i, 3);
    assert k > 4 ==> AttestationPasses(ctx, env, atts, i, 4);
    if k >= 5 {
      SignedEarlier(atts, i);
      EntitledIs(ctx, atts[i]);
      assert k == 6 <==> AttestationPasses(ctx, env, atts, i, 5);
    }
  }

  lemma SignedEarlier(atts: seq<Attestation>, i: nat)
    requires i < |atts|
    ensures atts[i].from in SignerSet(atts[..i]) <==> exists j :: 0 <= j < i && atts[j].from == atts[i].from
  {
    if j :| 0 <= j < i && atts[j].from == atts[i].from {
      assert atts[j] in atts[..i];
    }
  }

  lemma ScanStep(ctx: Context, env: Envelope, atts: seq<Attestation>, i: nat, seen: seq<u64>, k: nat)
    requires i < |atts| && HeaderSound(ctx, env, |atts|) && IdSet(seen) == SignerSet(atts[..i]) && k <= 6
    requires k < 5 ==> AttestationFault(ctx, env, FirstView(atts), atts[i]) == Some(ReasonOf(OnAttestation(i, k)))
    requires k >= 5 ==> AttestationFault(ctx, env, FirstView(atts), atts[i]).None?
    requires k >= 5 ==> (k == 6 <==> atts[i].from in SignerSet(atts[..i]) || Entitled(ctx, atts[i]))
    ensures var next := if atts[i].from in seen then seen else seen + [atts[i].from];
      && IdSet(next) == SignerSet(atts[..i + 1])
      && ScanFrom(ctx, env, FirstView(atts), atts[i..], seen)
        == if k == 6 then ScanFrom(ctx, env, FirstView(atts), atts[i + 1..], next)
           else Faulted(ReasonOf(OnAttestation(i, k)))
  {
    hide AttestationFault, Entitled;
    assert atts[i..][0] == atts[i] && atts[i..][1..] == atts[i + 1..];
    assert atts[..i + 1] == atts[..i] + [atts[i]];
    assert IdSet(seen + [atts[i].from]) == IdSet(seen) + {atts[i].from};
    assert SignerSet(atts[..i + 1]) == SignerSet(atts[..i]) + {atts[i].from};
  }

  /** The scan from attestation `i` on stops at the first check that fails there, if one does. */
  lemma {:induction false} ScanStopsAt(ctx: Context, env: Envelope, atts: seq<Attestation>, i: nat, seen: seq<u64>)
    returns (n: nat, k: nat)
    requires i <= |atts| && HeaderSound(ctx, env, |atts|) && IdSet(seen) == SignerSet(atts[..i])
    ensures i <= n <= |atts| && (forall j :: i <= j < n ==> AttestationSound(ctx, env, atts, j))
    ensures n == |atts| <==> ScanFrom(ctx, env, FirstView(atts), atts[i..], seen).Counted?
    ensures n < |atts| ==>
      && k < 6 && (forall j :: 0 <= j < k ==> AttestationPasses(ctx, env, atts, n, j))
      && !AttestationPasses(ctx, env, atts, n, k)
      && ScanFrom(ctx, env, FirstView(atts), atts[i..], seen) == Faulted(ReasonOf(OnAttestation(n, k)))
    decreases |atts| - i
  {
    hide AttestationFault, Entitled, AttestationPasses;
    n, k := i, 0;
    if i < |atts| {
      k := AttestationFaultIs(ctx, env, atts, i);
      ScanStep(ctx, env, atts, i, seen, k);
      if k == 6 {
        n, k := ScanStopsAt(ctx, env, atts, i + 1, if atts[i].from in seen then seen else seen + [atts[i].from]);
      }
    }
  }

  // ---- the verdicts ----

  lemma QuorumIs(ctx: Context, signers: set<u64>)
    ensures QuorumPasses(ctx, signers) <==> Supermajority(ctx, signers)
  {
    if signers == {} {
      StakeOfNobody(ctx.commitment.members);
    } else {
      var x :| x in signers;
      assert |signers - {x}| == |signers| - 1;
    }
  }

  /** The first failed check of a body, with the verdict it makes; none exactly when it is Verified. */
  lemma JudgedBy(ctx: Context, env: Envelope, atts: seq<Attestation>) returns (check: Option<Check>)
    ensures check.Some? ==>
      FirstFailed(ctx, env, atts, check.value) && Judge(ctx, env, atts) == Rejected(ReasonOf(check.value))
    ensures check.None? ==>
      Judge(ctx, env, atts) == Verified && forall c :: IsCheck(c, |atts|) ==> Passes(ctx, env, atts, c)
  {
    hide HeaderFault, ScanFrom, HeaderPasses, AttestationPasses, AllSound, QuorumOf, QuorumPasses, Supermajority;
    var h := HeaderFaultIs(ctx, env, |atts|);
    if h < 6 {
      return Some(Header(h));
    }
    assert HeaderSound(ctx, env, |atts|);
    assert atts[..0] == [] && atts[0..] == atts && IdSet([]) == {};
    var n, k := ScanStopsAt(ctx, env, atts, 0, []);
    if n < |atts| {
      EarlierPass(ctx, env, atts, n, k);
      return Some(OnAttestation(n, k));
    }
    EarlierPass(ctx, env, atts, n, 0);
    ScanCounts(ctx, env, FirstView(atts), atts, []);
    var signers := ScanFrom(ctx, env, FirstView(atts), atts, []).signers;
    assert IdSet(signers) == SignerSet(atts);
    QuorumIsSupermajority(ctx, signers);
    QuorumIs(ctx, SignerSet(atts));
    check := if QuorumPasses(ctx, SignerSet(atts)) then None else Some(OnQuorum);
  }

  lemma EarlierPass(ctx: Context, env: Envelope, atts: seq<Attestation>, n: nat, k: nat)
    requires HeaderSound(ctx, env, |atts|) && n <= |atts|
    requires forall j :: 0 <= j < n ==> AttestationSound(ctx, env, atts, j)
    requires n < |atts| ==> forall j :: 0 <= j < k ==> AttestationPasses(ctx, env, atts, n, j)
    ensures n < |atts| ==>
      forall c :: IsCheck(c, |atts|) && Earlier(c, OnAttestation(n, k)) ==> Passes(ctx, env, atts, c)
    ensures n == |atts| ==> forall c :: IsCheck(c, |atts|) && !c.OnQuorum? ==> Passes(ctx, env, atts, c)
  {
    forall c | IsCheck(c, |atts|) && !c.OnQuorum? && (n < |atts| ==> Earlier(c, OnAttestation(n, k)))
      ensures Passes(ctx, env, atts, c)
    {
      match c {
        case Header(j) => assert HeaderPasses(ctx, env, |atts|, j);
        case OnAttestation(i, j) =>
          assert i < n ==> AttestationSound(ctx, env, atts, i);
          assert AttestationPasses(ctx, env, atts, i, j);
      }
    }
  }

  /** A body is rejected for a reason exactly when that is the reason of the first check that fails. */
  lemma RejectedExactly(ctx: Context, env: Envelope, atts: seq<Attestation>, reason: RejectReason)
    ensures Judge(ctx, env, atts) == Rejected(reason) <==>
      exists check :: FirstFailed(ctx, env, atts, check) && ReasonOf(check) == reason
  {
    var first := JudgedBy(ctx, env, atts);
    forall check | FirstFailed(ctx, env, atts, check) ensures first == Some(check) {
      if first.Some? && first.value != check {
        OneIsEarlier(check, first.value);
      }
    }
  }

  lemma HeaderWritten(ctx: Context, env: Envelope, count: nat)
    ensures HeaderSound(ctx, env, count) <==>
      var c := ctx.commitment;
      && env.committee == Digest(ctx.crypto.hashes, c) && env.slot == c.slot
      && (Sum(Weights(c.members)) <= c.totalWeight || c.totalWeight == U64_MAX) && 1 <= c.budget <= 500
      && env.height == env.block.height && (env.block.cost <= 1 || env.block.cost == U64_MAX)
      && count <= |c.members|
  {
    if HeaderSound(ctx, env, count) {
      assert HeaderPasses(ctx, env, count, 0) && HeaderPasses(ctx, env, count, 1) && HeaderPasses(ctx, env, count, 2);
      assert HeaderPasses(ctx, env, count, 3) && HeaderPasses(ctx, env, count, 4) && HeaderPasses(ctx, env, count, 5);
    }
  }

  lemma AttestationWritten(ctx: Context, env: Envelope, atts: seq<Attestation>, i: nat)
    requires i < |atts| && env.slot == ctx.commitment.slot
    ensures AttestationSound(ctx, env, atts, i) <==>
      var c, att := ctx.commitment, atts[i];
      && att.subject
        == Subject(env.height, c.slot, atts[0].subject.view, Digest(ctx.crypto.hashes, c), env.block)
      && (exists m :: m in c.members && SignedBy(ctx, m, att))
      && (att.from !in SignerSet(atts[..i]) ==> exists m :: m in c.members && DrawnBy(ctx, m, att))
  {
    SignedEarlier(atts, i);
    if AttestationSound(ctx, env, atts, i) {
      assert AttestationPasses(ctx, env, atts, i, 0) && AttestationPasses(ctx, env, atts, i, 1);
      assert AttestationPasses(ctx, env, atts, i, 2) && AttestationPasses(ctx, env, atts, i, 4);
      assert AttestationPasses(ctx, env, atts, i, 5);
    }
  }

  /**
   * A body is Verified exactly when its envelope names the committee, slot and height, the commitment covers its
   * members' weight, the block is admissible, each attestation signs the one subject in one view as a member, each
   * signer is drawn, and the signers hold a supermajority of the true stake.
   */
  lemma VerifiedExactly(ctx: Context, env: Envelope, atts: seq<Attestation>)
    ensures Judge(ctx, env, atts).Verified? <==>
      var c, digest, signers := ctx.commitment, Digest(ctx.crypto.hashes, ctx.commitment), SignerSet(atts);
      && env.committee == digest && env.slot == c.slot
      && (Sum(Weights(c.members)) <= c.totalWeight || c.totalWeight == U64_MAX) && 1 <= c.budget <= 500
      && env.height == env.block.height && (env.block.cost <= 1 || env.block.cost == U64_MAX)
      && |atts| <= |c.members|
      && (forall i :: 0 <= i < |atts| ==>
            && atts[i].subject == Subject(env.height, c.slot, atts[0].subject.view, digest, env.block)
            && (exists m :: m in c.members && SignedBy(ctx, m, atts[i]))
            && (atts[i].from !in SignerSet(atts[..i]) ==> exists m :: m in c.members && DrawnBy(ctx, m, atts[i])))
      && signers != {} && (c.mode != Full ==> 3 * |signers| > 2 * |c.members| && |signers| >= ctx.tau)
      && 3 * StakeIn(c.members, signers) > 2 * (Sum(Stakes(c.members)) + c.absentStake)
      && 2 * (Sum(Stakes(c.members)) + c.absentStake) < U128_MAX
    ensures forall shown ::
      CertificateVerifies(ctx, Certificate(env, atts, shown)) <==> Judge(ctx, env, atts).Verified?
  {
    hide Judge, Digest, Sum, HeaderSound, AttestationSound, SignedBy, DrawnBy, FirstFailed, Passes;
    var first := JudgedBy(ctx, env, atts);
    HeaderWritten(ctx, env, |atts|);
    AllPass(ctx, env, atts, first);
    if env.slot == ctx.commitment.slot {
      forall i | 0 <= i < |atts| { AttestationWritten(ctx, env, atts, i); }
    }
  }

  /** No check fails exactly when the header, every attestation and the quorum pass. */
  lemma AllPass(ctx: Context, env: Envelope, atts: seq<Attestation>, first: Option<Check>)
    requires first.Some? ==> FirstFailed(ctx, env, atts, first.value)
    requires first.None? ==> forall c :: IsCheck(c, |atts|) ==> Passes(ctx, env, atts, c)
    ensures first.None? <==>
      && HeaderSound(ctx, env, |atts|) && (forall i :: 0 <= i < |atts| ==> AttestationSound(ctx, env, atts, i))
      && QuorumPasses(ctx, SignerSet(atts))
  {
    if first.None? {
      assert Passes(ctx, env, atts, OnQuorum);
      forall k | 0 <= k < 6 ensures HeaderPasses(ctx, env, |atts|, k) {
        assert Passes(ctx, env, atts, Header(k));
      }
      forall i, k | 0 <= i < |atts| && 0 <= k < 6 ensures AttestationPasses(ctx, env, atts, i, k) {
        assert Passes(ctx, env, atts, OnAttestation(i, k));
      }
    } else {
      match first.value {
        case Header(k) => assert !HeaderPasses(ctx, env, |atts|, k);
        case OnAttestation(i, k) =>
          assert !AttestationPasses(ctx, env, atts, i, k);
          assert !AttestationSound(ctx, env, atts, i);
        case OnQuorum =>
      }
    }
  }
}
