/** The certificate builder: views from the highest down, within one budget of signature checks. */
module Aggregate {
  import opened Wrappers
  import opened Bytes
  import opened IdSets
  import opened Sorting
  import opened Blocks
  import opened Sortition
  import opened Attestations
  import opened Commitments
  import opened Certificates
  import opened Verify
  import opened Verdicts
  import opened Admission

  /** The height, slot and block a certificate is being built for. */
  datatype Target = Target(height: u64, slot: u64, block: Block)

  /** The attestation signs the target for this committee, in a member's name. */
  predicate Matches(ctx: Context, t: Target, a: Attestation) {
    && a.subject.height == t.height && a.subject.slot == t.slot && a.subject.block == t.block
    && a.subject.committee == Digest(ctx.crypto.hashes, ctx.commitment)
    && MemberOf(ctx.commitment, a.from).Some?
  }

  /** The signature holds under its member's key, and the member is entitled to its seat. */
  predicate Genuine(ctx: Context, a: Attestation) {
    match MemberOf(ctx.commitment, a.from)
    case None => false
    case Some(m) => SignatureVerifies(ctx.crypto, ctx.chain, a, m.attestPk) && EntitledIn(ctx, m, a)
  }

  function Wanted(ctx: Context, t: Target): Attestation -> bool {
    a => Matches(ctx, t, a)
  }

  function GenuineIn(ctx: Context): Attestation -> bool {
    a => Genuine(ctx, a)
  }

  /** The members with a genuine attestation among their first four candidates. */
  function HeardSet(ctx: Context, t: Target, atts: seq<Attestation>): set<u64> {
    set a | a in atts && Heard(Wanted(ctx, t), GenuineIn(ctx), atts, a.from) :: a.from
  }

  /** The members admitted from the list within `cap` checks. */
  function AdmittedSet(ctx: Context, t: Target, atts: seq<Attestation>, cap: nat): set<u64> {
    AdmittedIds(Wanted(ctx, t), GenuineIn(ctx), atts, cap)
  }

  /** A certificate for the target on genuine attestations from the list, one a signer, by a quorum of signers. */
  ghost predicate BuiltFrom(ctx: Context, t: Target, atts: seq<Attestation>, cert: Certificate) {
    && cert.envelope == EnvelopeFor(ctx.crypto.hashes, t.height, t.slot, t.block, ctx.commitment)
    && cert.committeeReveals == [] && SortedBy(ByFrom(), cert.attestations)
    && Distinct(Signers(cert.attestations))
    && (forall a :: a in cert.attestations ==> a in atts && Matches(ctx, t, a) && Genuine(ctx, a))
    && Supermajority(ctx, SignerSet(cert.attestations))
  }

  lemma SignerSetOf(seen: seq<u64>, admitted: seq<Attestation>)
    requires |seen| == |admitted| && forall i :: 0 <= i < |seen| ==> admitted[i].from == seen[i]
    ensures SignerSet(admitted) == IdSet(seen)
  {
    forall i | 0 <= i < |seen| ensures admitted[i].from in IdSet(seen) && seen[i] in SignerSet(admitted) {
      assert admitted[i] in admitted;
    }
  }

  lemma SortKeepsDistinct(atts: seq<Attestation>)
    requires Distinct(Signers(atts))
    ensures Distinct(Signers(SortByFrom(atts))) && SignerSet(SortByFrom(atts)) == SignerSet(atts)
  {
    var sorted := SortByFrom(atts);
    SortKeepsMembers(atts);
    assert SignerSet(sorted) == SignerSet(atts);
    SignerSetOf(Signers(atts), atts);
    SignerSetOf(Signers(sorted), sorted);
    DistinctCount(Signers(atts));
    CountDistinct(Signers(sorted));
  }

  lemma SortedCertificate(ctx: Context, t: Target, atts: seq<Attestation>, seen: seq<u64>, admitted: seq<Attestation>)
    requires Distinct(seen) && |seen| == |admitted| && QuorumOf(ctx, seen)
    requires forall i :: 0 <= i < |seen| ==>
      admitted[i].from == seen[i] && admitted[i] in atts && Matches(ctx, t, admitted[i]) && Genuine(ctx, admitted[i])
    ensures BuiltFrom(ctx, t, atts,
                      NewCertificate(EnvelopeFor(ctx.crypto.hashes, t.height, t.slot, t.block, ctx.commitment),
                                     admitted))
  {
    assert Signers(admitted) == seen;
    SortSorts(ByFrom(), admitted);
    SortKeepsDistinct(admitted);
    SortKeepsMembers(admitted);
    SignerSetOf(seen, admitted);
    QuorumIsSupermajority(ctx, seen);
  }

  lemma SupermajorityGrows(ctx: Context, a: set<u64>, b: set<u64>)
    requires a <= b && Supermajority(ctx, a)
    ensures Supermajority(ctx, b)
  {
    StakeMonotone(ctx.commitment.members, a, b);
    assert b == a + (b - a);
  }

  lemma {:induction false} FewerIdsThanMembers(ms: seq<MemberKey>)
    ensures |AllIds(ms)| <= |ms|
  {
    if ms != [] {
      FewerIdsThanMembers(ms[1..]);
      assert ms == [ms[0]] + ms[1..];
      assert AllIds(ms) == {ms[0].id} + AllIds(ms[1..]);
    }
  }

  lemma MemberIdsBounded(ctx: Context, ids: set<u64>)
    requires forall id :: id in ids ==> MemberOf(ctx.commitment, id).Some?
    ensures |ids| <= |ctx.commitment.members|
  {
    var all := AllIds(ctx.commitment.members);
    forall id | id in ids ensures id in all {
      assert MemberOf(ctx.commitment, id).value in ctx.commitment.members;
    }
    FewerIdsThanMembers(ctx.commitment.members);
    assert all == ids + (all - ids);
  }

  /**
   * One call of the budgeted builder: it certifies exactly when the members it can reach within `cap` checks are a
   * supermajority, on their genuine attestations, and it makes the checks the list takes, but no more than `cap`.
   */
  method AggregateBudgeted(ctx: Context, t: Target, atts: seq<Attestation>, cap: nat)
    returns (cert: Option<Certificate>, used: nat)
    ensures cert.Some? <==> CommitmentUsable(ctx.commitment) && Supermajority(ctx, AdmittedSet(ctx, t, atts, cap))
    ensures cert.Some? ==>
      BuiltFrom(ctx, t, atts, cert.value) && SignerSet(cert.value.attestations) == AdmittedSet(ctx, t, atts, cap)
    ensures used == if CommitmentUsable(ctx.commitment) then Min(cap, Cost(Wanted(ctx, t), GenuineIn(ctx), atts)) else 0
  {
    if !CommitmentUsable(ctx.commitment) {
      return None, 0;
    }
    var seen, admitted;
    seen, admitted, used := Build(Wanted(ctx, t), GenuineIn(ctx), atts, cap);
    QuorumIsSupermajority(ctx, seen);
    if QuorumOf(ctx, seen) {
      SortedCertificate(ctx, t, atts, seen, admitted);
      SortKeepsMembers(admitted);
      SignerSetOf(seen, admitted);
      cert := Some(NewCertificate(EnvelopeFor(ctx.crypto.hashes, t.height, t.slot, t.block, ctx.commitment), admitted));
    } else {
      cert := None;
    }
  }

  /** Genuine attestations of one view are sound in a certificate for their target. */
  lemma BuiltIsSound(ctx: Context, t: Target, env: Envelope, body: seq<Attestation>, first: u64, i: nat)
    requires env == EnvelopeFor(ctx.crypto.hashes, t.height, t.slot, t.block, ctx.commitment)
    requires t.height == t.block.height
    requires i < |body| && body[i].subject.view == first && Matches(ctx, t, body[i]) && Genuine(ctx, body[i])
    ensures AttestationFault(ctx, env, first, body[i]).None? && Entitled(ctx, body[i])
  {
  }

  lemma SignersAreMembers(ctx: Context, t: Target, body: seq<Attestation>)
    requires forall a :: a in body ==> Matches(ctx, t, a)
    ensures |SignerSet(body)| <= |ctx.commitment.members|
  {
    forall id | id in SignerSet(body) ensures MemberOf(ctx.commitment, id).Some? {
      var a :| a in body && a.from == id;
    }
    MemberIdsBounded(ctx, SignerSet(body));
  }

  /** What the builder certifies, the verifier accepts, save that only the verifier compares the two heights. */
  lemma BuiltVerifies(ctx: Context, t: Target, atts: seq<Attestation>, cert: Certificate, view: u64)
    requires CommitmentUsable(ctx.commitment) && BuiltFrom(ctx, t, atts, cert)
    requires t.slot == ctx.commitment.slot && t.block.IsAdmissible()
    requires forall a :: a in atts ==> a.subject.view == view
    ensures Judge(ctx, cert.envelope, cert.attestations) == BuiltVerdict(t.height, t.block)
  {
    var env, body := cert.envelope, cert.attestations;
    if t.height == t.block.height {
      var first := if body == [] then 0 else body[0].subject.view;
      forall i | 0 <= i < |body|
        ensures AttestationFault(ctx, env, first, body[i]).None? && Entitled(ctx, body[i])
      {
        assert body[i] in body && body[0] in body;
        BuiltIsSound(ctx, t, env, body, first, i);
      }
      SignersAreMembers(ctx, t, body);
      DistinctCount(Signers(body));
      SignerSetOf(Signers(body), body);
      SoundIsVerified(ctx, env, body);
    }
  }

  // ---- all views under one budget ----

  function OfView(atts: seq<Attestation>, view: u64): (r: seq<Attestation>)
    ensures forall a :: a in r <==> a in atts && a.subject.view == view
  {
    if atts == [] then []
    else
      assert atts == atts[..|atts| - 1] + [atts[|atts| - 1]];
      OfView(atts[..|atts| - 1], view) + if atts[|atts| - 1].subject.view == view then [atts[|atts| - 1]] else []
  }

  method SplitByView(atts: seq<Attestation>) returns (byView: map<u64, seq<Attestation>>)
    ensures forall view :: view in byView ==> byView[view] == OfView(atts, view)
    ensures forall view :: view !in byView ==> OfView(atts, view) == []
  {
    byView := map[];
    for n := 0 to |atts|
      invariant forall view :: OfView(atts[..n], view) == if view in byView then byView[view] else []
    {
      var view := atts[n].subject.view;
      ghost var before := byView;
      byView := byView[view := (if view in byView then byView[view] else []) + [atts[n]]];
      forall v: u64 ensures OfView(atts[..n + 1], v) == if v in byView then byView[v] else [] {
        assert OfView(atts[..n], v) == if v in before then before[v] else [];
        assert atts[..n + 1][..n] == atts[..n];
      }
    }
    assert atts[..|atts|] == atts;
    forall view: u64 ensures OfView(atts, view) == if view in byView then byView[view] else [] {
      assert OfView(atts[..|atts|], view) == if view in byView then byView[view] else [];
    }
  }

  /** The views that occur, in ascending order. */
  function ViewsIn(atts: seq<Attestation>): (views: seq<u64>)
    ensures forall view :: view in views <==> exists a :: a in atts && a.subject.view == view
  {
    if atts == [] then []
    else
      assert atts == [atts[0]] + atts[1..];
      InsertId(atts[0].subject.view, ViewsIn(atts[1..]))
  }

  lemma {:induction false} ViewsAscend(atts: seq<Attestation>)
    ensures AscendingIds(ViewsIn(atts))
  {
    if atts != [] {
      ViewsAscend(atts[1..]);
      InsertIdAscends(atts[0].subject.view, ViewsIn(atts[1..]));
    }
  }

  function Above(views: seq<u64>, view: u64): seq<u64> {
    if views == [] then [] else (if views[0] > view then [views[0]] else []) + Above(views[1..], view)
  }

  lemma {:induction false} AboveAll(views: seq<u64>, view: u64)
    requires forall i :: 0 <= i < |views| ==> views[i] > view
    ensures Above(views, view) == views
  {
    if views != [] {
      AboveAll(views[1..], view);
    }
  }

  lemma {:induction false} AboveAt(views: seq<u64>, i: nat)
    requires AscendingIds(views) && i < |views|
    ensures Above(views, views[i]) == views[i + 1..]
  {
    if i == 0 {
      AboveAll(views[1..], views[0]);
    } else {
      AboveAt(views[1..], i - 1);
    }
  }

  function VerificationCap(c: CommitteeCommitment): nat {
    MAX_CANDIDATES_PER_MEMBER * |c.members|
  }

  /** The view is not even tried: fewer distinct signers than the caller's threshold. */
  predicate TooFew(ctx: Context, atts: seq<Attestation>) {
    ctx.commitment.mode != Full && |SignerSet(atts)| < ctx.tau
  }

  /** The checks a view takes, given enough of them: none when it is not tried. */
  function ViewCost(ctx: Context, t: Target, atts: seq<Attestation>, view: u64): nat {
    if TooFew(ctx, OfView(atts, view)) then 0 else Cost(Wanted(ctx, t), GenuineIn(ctx), OfView(atts, view))
  }

  function CostOf(ctx: Context, t: Target, atts: seq<Attestation>, views: seq<u64>): nat {
    if views == [] then 0 else ViewCost(ctx, t, atts, views[0]) + CostOf(ctx, t, atts, views[1..])
  }

  function CostAbove(ctx: Context, t: Target, atts: seq<Attestation>, view: u64): nat {
    CostOf(ctx, t, atts, Above(ViewsIn(atts), view))
  }

  /**
   * One view's attestations make a certificate: they are tried, and the members reached with what is left are a
   * supermajority.
   */
  predicate Makes(ctx: Context, t: Target, same: seq<Attestation>, left: nat) {
    && t.block.IsAdmissible() && t.slot == ctx.commitment.slot && CommitmentUsable(ctx.commitment)
    && left >= 1 && !TooFew(ctx, same) && Supermajority(ctx, AdmittedSet(ctx, t, same, left))
  }

  /** What the views above leave of the budget. */
  function LeftFor(ctx: Context, t: Target, atts: seq<Attestation>, view: u64): nat {
    SatSub(VerificationCap(ctx.commitment), CostAbove(ctx, t, atts, view))
  }

  predicate Certifies(ctx: Context, t: Target, atts: seq<Attestation>, view: u64) {
    Makes(ctx, t, OfView(atts, view), LeftFor(ctx, t, atts, view))
  }

  /** What the views from place i on take. */
  function CostFrom(ctx: Context, t: Target, atts: seq<Attestation>, i: nat): nat
    requires i <= |ViewsIn(atts)|
    decreases |ViewsIn(atts)| - i
  {
    if i == |ViewsIn(atts)| then 0
    else ViewCost(ctx, t, atts, ViewsIn(atts)[i]) + CostFrom(ctx, t, atts, i + 1)
  }

  lemma {:induction false} CostFromIs(ctx: Context, t: Target, atts: seq<Attestation>, i: nat)
    requires i <= |ViewsIn(atts)|
    ensures CostFrom(ctx, t, atts, i) == CostOf(ctx, t, atts, ViewsIn(atts)[i..])
    decreases |ViewsIn(atts)| - i
  {
    if i < |ViewsIn(atts)| {
      CostFromIs(ctx, t, atts, i + 1);
      assert ViewsIn(atts)[i..][1..] == ViewsIn(atts)[i + 1..];
    }
  }

  lemma {:induction false} CostFromGrows(ctx: Context, t: Target, atts: seq<Attestation>, k: nat, i: nat)
    requires k <= i <= |ViewsIn(atts)|
    ensures CostFrom(ctx, t, atts, i) <= CostFrom(ctx, t, atts, k)
    decreases i
  {
    hide ViewCost;
    if k < i {
      CostFromGrows(ctx, t, atts, k, i - 1);
    }
  }

  /** Once a suffix of the views has taken the whole budget, no lower view certifies. */
  lemma NothingLeft(ctx: Context, t: Target, atts: seq<Attestation>, i: nat, k: nat)
    requires k < i <= |ViewsIn(atts)|
    requires CostFrom(ctx, t, atts, i) >= VerificationCap(ctx.commitment)
    ensures !Certifies(ctx, t, atts, ViewsIn(atts)[k])
  {
    hide ViewCost, TooFew, Supermajority, AdmittedSet, CostFrom, CostOf, Above, ViewsIn, OfView, CommitmentUsable;
    ViewsAscend(atts);
    AboveAt(ViewsIn(atts), k);
    CostFromGrows(ctx, t, atts, k + 1, i);
    CostFromIs(ctx, t, atts, k + 1);
  }

  lemma {:induction false} NoneOfView(atts: seq<Attestation>, view: u64)
    requires forall a :: a in atts ==> a.subject.view != view
    ensures OfView(atts, view) == []
  {
    if atts != [] {
      NoneOfView(atts[..|atts| - 1], view);
    }
  }

  lemma AbsentViews(ctx: Context, t: Target, atts: seq<Attestation>, view: u64)
    requires view !in ViewsIn(atts)
    ensures !Certifies(ctx, t, atts, view)
  {
    NoneOfView(atts, view);
    StakeOfNobody(ctx.commitment.members);
    assert forall cap :: AdmittedSet(ctx, t, [], cap) == {};
  }

  /** What the verifier says of a built certificate. */
  function BuiltVerdict(height: u64, block: Block): Verdict {
    if height == block.height then Verified else Rejected(HeightMismatch)
  }

  /** What a built certificate is: made from these attestations, by which signers, and the verifier's word on it. */
  datatype Making = Making(fromThese: bool, signers: set<u64>, verdict: Verdict)

  ghost function MakingOf(ctx: Context, t: Target, same: seq<Attestation>, cert: Certificate): Making {
    Making(BuiltFrom(ctx, t, same, cert), SignerSet(cert.attestations),
           Judge(ctx, cert.envelope, cert.attestations))
  }

  /** A certificate built from a view's attestations, on exactly those that the cap lets it admit. */
  ghost predicate BuiltOn(ctx: Context, t: Target, same: seq<Attestation>, cap: nat, cert: Certificate) {
    MakingOf(ctx, t, same, cert) == Making(true, AdmittedSet(ctx, t, same, cap), BuiltVerdict(t.height, t.block))
  }

  /** One view's turn: skipped at no cost with too few signers, otherwise the budgeted builder on what is left. */
  method TryView(ctx: Context, t: Target, view: u64, same: seq<Attestation>, left: nat)
    returns (cert: Option<Certificate>, used: nat)
    requires t.block.IsAdmissible() && t.slot == ctx.commitment.slot && left >= 1
    requires forall a :: a in same ==> a.subject.view == view
    ensures cert.Some? <==> Makes(ctx, t, same, left)
    ensures cert.Some? ==> BuiltOn(ctx, t, same, left, cert.value)
    ensures used == if TooFew(ctx, same) || !CommitmentUsable(ctx.commitment) then 0
                    else Min(left, Cost(Wanted(ctx, t), GenuineIn(ctx), same))
  {
    if TooFew(ctx, same) {
      return None, 0;
    }
    cert, used := AggregateBudgeted(ctx, t, same, left);
    if cert.Some? {
      BuiltVerifies(ctx, t, same, cert.value, view);
    }
  }

  /** What is left of the budget after the views from place i on. */
  function LeftAfter(ctx: Context, t: Target, atts: seq<Attestation>, i: nat): nat
    requires i <= |ViewsIn(atts)|
  {
    SatSub(VerificationCap(ctx.commitment), CostFrom(ctx, t, atts, i))
  }

  /** What the loop has left after the views from place i on; an unusable commitment costs nothing. */
  function LeftOver(ctx: Context, t: Target, atts: seq<Attestation>, i: nat): nat
    requires i <= |ViewsIn(atts)|
  {
    if CommitmentUsable(ctx.commitment) then LeftAfter(ctx, t, atts, i) else VerificationCap(ctx.commitment)
  }

  lemma OneMoreView(ctx: Context, t: Target, atts: seq<Attestation>, i: nat)
    requires i < |ViewsIn(atts)|
    ensures var view := ViewsIn(atts)[i];
      && LeftFor(ctx, t, atts, view) == LeftAfter(ctx, t, atts, i + 1)
      && LeftAfter(ctx, t, atts, i)
         == LeftAfter(ctx, t, atts, i + 1) - Min(LeftAfter(ctx, t, atts, i + 1), ViewCost(ctx, t, atts, view))
  {
    var views := ViewsIn(atts);
    ViewsAscend(atts);
    AboveAt(views, i);
    CostFromIs(ctx, t, atts, i + 1);
  }

  /** One more than the last place before place i where the test holds, or zero when it holds at none. */
  function TopPlace(test: u64 -> bool, views: seq<u64>, i: nat): (top: nat)
    requires i <= |views|
    ensures top <= i
  {
    if i == 0 then 0 else if test(views[i - 1]) then i else TopPlace(test, views, i - 1)
  }

  lemma {:induction false} TopHolds(test: u64 -> bool, views: seq<u64>, i: nat)
    requires i <= |views|
    ensures var top := TopPlace(test, views, i);
      && (top > 0 ==> test(views[top - 1]))
      && forall k :: top <= k < i ==> !test(views[k])
  {
    if i > 0 && !test(views[i - 1]) {
      TopHolds(test, views, i - 1);
    }
  }

  lemma TopIsZero(test: u64 -> bool, views: seq<u64>, i: nat)
    requires i <= |views| && forall k :: 0 <= k < i ==> !test(views[k])
    ensures TopPlace(test, views, i) == 0
  {
    TopHolds(test, views, i);
  }

  function Certifying(ctx: Context, t: Target, atts: seq<Attestation>): u64 -> bool {
    (view: u64) => Certifies(ctx, t, atts, view)
  }

  /** With nothing left, no lower view certifies. */
  lemma NoneWhenSpent(ctx: Context, t: Target, atts: seq<Attestation>, i: nat)
    requires i <= |ViewsIn(atts)| && LeftOver(ctx, t, atts, i) == 0
    ensures TopPlace(Certifying(ctx, t, atts), ViewsIn(atts), i) == 0
  {
    forall k | 0 <= k < i ensures !Certifying(ctx, t, atts)(ViewsIn(atts)[k]) {
      if CommitmentUsable(ctx.commitment) {
        NothingLeft(ctx, t, atts, i, k);
      }
    }
    TopIsZero(Certifying(ctx, t, atts), ViewsIn(atts), i);
  }

  lemma SpentStaysSpent(ctx: Context, t: Target, atts: seq<Attestation>, i: nat)
    requires i <= |ViewsIn(atts)| && LeftOver(ctx, t, atts, i) == 0
    ensures LeftOver(ctx, t, atts, 0) == 0
  {
    CostFromGrows(ctx, t, atts, 0, i);
  }

  /** Whether a view certifies is decided by what is left when its turn comes. */
  lemma TurnDecides(ctx: Context, t: Target, atts: seq<Attestation>, i: nat, left: nat)
    requires i < |ViewsIn(atts)| && left == LeftOver(ctx, t, atts, i + 1)
    ensures left >= 1 ==> (Certifies(ctx, t, atts, ViewsIn(atts)[i]) <==>
                           Makes(ctx, t, OfView(atts, ViewsIn(atts)[i]), left))
    ensures LeftOver(ctx, t, atts, i)
      == if CommitmentUsable(ctx.commitment) then left - Min(left, ViewCost(ctx, t, atts, ViewsIn(atts)[i])) else left
  {
    OneMoreView(ctx, t, atts, i);
  }

  /** Every view's attestations are filed under it. */
  ghost predicate SplitAs(atts: seq<Attestation>, byView: map<u64, seq<Attestation>>) {
    forall v :: v in ViewsIn(atts) ==> v in byView && byView[v] == OfView(atts, v)
  }

  /** The turn of the view at place i. */
  method TakeTurn(ctx: Context, t: Target, ghost atts: seq<Attestation>, views: seq<u64>,
                  byView: map<u64, seq<Attestation>>, i: nat, left: nat)
    returns (cert: Option<Certificate>, rest: nat)
    requires t.block.IsAdmissible() && t.slot == ctx.commitment.slot && left >= 1
    requires SplitAs(atts, byView) && views == ViewsIn(atts) && i < |views| && left == LeftOver(ctx, t, atts, i + 1)
    ensures cert.Some? <==> Certifying(ctx, t, atts)(views[i])
    ensures cert.Some? ==> BuiltAt(ctx, t, atts, views[i], cert.value)
    ensures rest == LeftOver(ctx, t, atts, i)
  {
    var view := views[i];
    assert view in views;
    TurnDecides(ctx, t, atts, i, left);
    OneMoreView(ctx, t, atts, i);
    var used;
    cert, used := TryView(ctx, t, view, byView[view], left);
    rest := left - used;
  }

  /** The certificate that a view makes when its turn comes. */
  ghost predicate BuiltAt(ctx: Context, t: Target, atts: seq<Attestation>, view: u64, cert: Certificate) {
    BuiltOn(ctx, t, OfView(atts, view), LeftFor(ctx, t, atts, view), cert)
  }

  /** The place the loop stops at: that of the view that makes the certificate, or else zero. */
  function StopPlace(top: nat): nat {
    if top > 0 then top - 1 else 0
  }

  lemma AllLeft(ctx: Context, t: Target, atts: seq<Attestation>)
    ensures LeftOver(ctx, t, atts, |ViewsIn(atts)|) == VerificationCap(ctx.commitment)
  {
  }

  /** The loop over the views, from the highest down, for a target that is admissible in the commitment's slot. */
  method FromTheTop(ctx: Context, t: Target, atts: seq<Attestation>, byView: map<u64, seq<Attestation>>)
    returns (cert: Option<Certificate>, ghost top: nat, ghost left: nat)
    requires t.block.IsAdmissible() && t.slot == ctx.commitment.slot && SplitAs(atts, byView)
    ensures top == TopPlace(Certifying(ctx, t, atts), ViewsIn(atts), |ViewsIn(atts)|)
    ensures left == LeftOver(ctx, t, atts, StopPlace(top))
    ensures cert.Some? <==> top > 0
    ensures cert.Some? ==> BuiltAt(ctx, t, atts, ViewsIn(atts)[top - 1], cert.value)
  {
    hide LeftOver, Certifies, BuiltAt, SplitAs;
    var views := ViewsIn(atts);
    var rest: nat := VerificationCap(ctx.commitment);
    ghost var test := Certifying(ctx, t, atts);
    AllLeft(ctx, t, atts);
    for i := |views| downto 0
      invariant rest == LeftOver(ctx, t, atts, i) && TopPlace(test, views, |views|) == TopPlace(test, views, i)
    {
      if rest == 0 {
        NoneWhenSpent(ctx, t, atts, i + 1);
        SpentStaysSpent(ctx, t, atts, i + 1);
        return None, 0, 0;
      }
      cert, rest := TakeTurn(ctx, t, atts, views, byView, i, rest);
      if cert.Some? {
        return cert, i + 1, rest;
      }
    }
    return None, 0, rest;
  }

  lemma ViewsAreSplit(atts: seq<Attestation>, byView: map<u64, seq<Attestation>>)
    requires forall view :: view in byView ==> byView[view] == OfView(atts, view)
    requires forall view :: view !in byView ==> OfView(atts, view) == []
    ensures SplitAs(atts, byView)
  {
    forall v | v in ViewsIn(atts) ensures v in byView {
      var a :| a in atts && a.subject.view == v;
      assert a in OfView(atts, v);
    }
  }

  /** The checks the builder makes when it gets to this view and no further: what the views take, within the budget. */
  function ChecksTo(ctx: Context, t: Target, atts: seq<Attestation>, view: u64): nat {
    Min(VerificationCap(ctx.commitment), CostAbove(ctx, t, atts, view) + ViewCost(ctx, t, atts, view))
  }

  /** The checks the builder makes when no view certifies; none at all for a target or a commitment it refuses. */
  function ChecksInVain(ctx: Context, t: Target, atts: seq<Attestation>): nat {
    if t.block.IsAdmissible() && t.slot == ctx.commitment.slot && CommitmentUsable(ctx.commitment)
    then Min(VerificationCap(ctx.commitment), CostOf(ctx, t, atts, ViewsIn(atts)))
    else 0
  }

  lemma ChecksAre(ctx: Context, t: Target, atts: seq<Attestation>, top: nat)
    requires t.block.IsAdmissible() && t.slot == ctx.commitment.slot && CommitmentUsable(ctx.commitment)
    requires top <= |ViewsIn(atts)|
    ensures VerificationCap(ctx.commitment) - LeftOver(ctx, t, atts, StopPlace(top))
      == if top > 0 then ChecksTo(ctx, t, atts, ViewsIn(atts)[top - 1]) else ChecksInVain(ctx, t, atts)
  {
    var views := ViewsIn(atts);
    assert views[0..] == views;
    CostFromIs(ctx, t, atts, 0);
    if top > 0 {
      ViewsAscend(atts);
      AboveAt(views, top - 1);
      CostFromIs(ctx, t, atts, top);
    }
  }

  /** The last certifying place is the highest certifying view. */
  lemma TopIsHighest(ctx: Context, t: Target, atts: seq<Attestation>, top: nat)
    requires top == TopPlace(Certifying(ctx, t, atts), ViewsIn(atts), |ViewsIn(atts)|)
    ensures top > 0 ==> Certifies(ctx, t, atts, ViewsIn(atts)[top - 1])
    ensures forall v: u64 :: (top > 0 ==> v > ViewsIn(atts)[top - 1]) ==> !Certifies(ctx, t, atts, v)
  {
    hide Certifies;
    var views := ViewsIn(atts);
    ViewsAscend(atts);
    TopHolds(Certifying(ctx, t, atts), views, |views|);
    forall v: u64 | top > 0 ==> v > views[top - 1] ensures !Certifies(ctx, t, atts, v) {
      if v in views {
        var k :| 0 <= k < |views| && views[k] == v;
        assert k >= top && !Certifying(ctx, t, atts)(views[k]);
      } else {
        AbsentViews(ctx, t, atts, v);
      }
    }
  }

  /**
   * The builder over all views, from the highest down. It makes a certificate exactly when some view certifies, and
   * then on the highest such view, from exactly the members reached there; whatever it makes the verifier accepts in
   * the same context, provided the height is the block's, which the builder does not check. It makes exactly the
   * checks that the views it gets to take, but at most four a member over all of them.
   */
  method Aggregate(ctx: Context, height: u64, slot: u64, block: Block, atts: seq<Attestation>)
    returns (cert: Option<Certificate>, ghost view: u64, ghost checks: nat)
    ensures cert.Some? <==> exists v :: Certifies(ctx, Target(height, slot, block), atts, v)
    ensures cert.Some? ==>
      var t := Target(height, slot, block);
      && Certifies(ctx, t, atts, view) && (forall v: u64 :: v > view ==> !Certifies(ctx, t, atts, v))
      && BuiltOn(ctx, t, OfView(atts, view), LeftFor(ctx, t, atts, view), cert.value)
    ensures checks == if cert.Some? then ChecksTo(ctx, Target(height, slot, block), atts, view)
                      else ChecksInVain(ctx, Target(height, slot, block), atts)
    ensures checks <= MAX_CANDIDATES_PER_MEMBER * |ctx.commitment.members|
  {
    var t := Target(height, slot, block);
    cert, view, checks := None, 0, 0;
    if !block.IsAdmissible() {
      return;
    }
    var byView := SplitByView(atts);
    if slot != ctx.commitment.slot {
      return;
    }
    ViewsAreSplit(atts, byView);
    ghost var top, left;
    cert, top, left := FromTheTop(ctx, t, atts, byView);
    TopIsHighest(ctx, t, atts, top);
    if CommitmentUsable(ctx.commitment) {
      ChecksAre(ctx, t, atts, top);
    }
    view, checks := if top > 0 then ViewsIn(atts)[top - 1] else 0, VerificationCap(ctx.commitment) - left;
  }

  // ---- the conditions, written out ----

  /** A candidate signs the target for this committee, in some view, in a member's name. */
  lemma WantedExactly(ctx: Context, t: Target, a: Attestation)
    ensures Wanted(ctx, t)(a) <==>
      && a.subject == Subject(t.height, t.slot, a.subject.view, Digest(ctx.crypto.hashes, ctx.commitment), t.block)
      && exists m :: m in ctx.commitment.members && m.id == a.from
  {
    MemberIs(ctx, a);
  }

  /** A candidate of the commitment's slot is genuine when its member's key signed it and its member is drawn. */
  lemma GenuineExactly(ctx: Context, a: Attestation)
    requires a.subject.slot == ctx.commitment.slot
    ensures GenuineIn(ctx)(a) <==> exists m :: m in ctx.commitment.members && SignedBy(ctx, m, a) && DrawnBy(ctx, m, a)
  {
    MemberIs(ctx, a);
    if Genuine(ctx, a) {
      var m := MemberOf(ctx.commitment, a.from).value;
      assert SignedBy(ctx, m, a) && DrawnBy(ctx, m, a);
    }
  }

  lemma UsableExactly(c: CommitteeCommitment)
    ensures CommitmentUsable(c) <==>
      (Sum(Weights(c.members)) <= c.totalWeight || c.totalWeight == U64_MAX) && 1 <= c.budget <= 500
  {
    WeightSaturates(c.members);
  }

  /**
   * A view certifies exactly when the block is admissible, the slot the commitment's, the commitment covers its
   * members' weight, the views above leave some of four checks a member, in sampled modes tau signers are there, and
   * the members admitted with what is left pass the verifier's quorum.
   */
  lemma CertifiesExactly(ctx: Context, t: Target, atts: seq<Attestation>, view: u64)
    ensures Certifies(ctx, t, atts, view) <==>
      var c, same, above := ctx.commitment, OfView(atts, view), CostAbove(ctx, t, atts, view);
      && (t.block.cost <= 1 || t.block.cost == U64_MAX) && t.slot == c.slot
      && (Sum(Weights(c.members)) <= c.totalWeight || c.totalWeight == U64_MAX) && 1 <= c.budget <= 500
      && above < 4 * |c.members|
      && (c.mode != Full ==> |SignerSet(same)| >= ctx.tau)
      && QuorumPasses(ctx, AdmittedSet(ctx, t, same, 4 * |c.members| - above))
  {
    hide CostAbove, AdmittedSet, CommitmentUsable, Supermajority, QuorumPasses, Sum;
    UsableExactly(ctx.commitment);
    var above := CostAbove(ctx, t, atts, view);
    if above < 4 * |ctx.commitment.members| {
      QuorumIs(ctx, AdmittedSet(ctx, t, OfView(atts, view), 4 * |ctx.commitment.members| - above));
    }
  }

  /** A view costs its candidates' checks, unless in a sampled mode it has fewer signers than tau. */
  lemma ViewCostExactly(ctx: Context, t: Target, atts: seq<Attestation>, view: u64)
    ensures ViewCost(ctx, t, atts, view)
      == if ctx.commitment.mode != Full && |SignerSet(OfView(atts, view))| < ctx.tau then 0
         else Cost(Wanted(ctx, t), GenuineIn(ctx), OfView(atts, view))
  {
  }

  /** When no view certifies, the checks made are those of all views within four a member, or none when refused. */
  lemma ChecksInVainExactly(ctx: Context, t: Target, atts: seq<Attestation>)
    ensures var c := ctx.commitment;
      ChecksInVain(ctx, t, atts) ==
        if (t.block.cost <= 1 || t.block.cost == U64_MAX) && t.slot == c.slot
           && (Sum(Weights(c.members)) <= c.totalWeight || c.totalWeight == U64_MAX) && 1 <= c.budget <= 500
        then Min(4 * |c.members|, CostOf(ctx, t, atts, ViewsIn(atts))) else 0
  {
    UsableExactly(ctx.commitment);
  }

  // ---- counts that suffice ----

  /** The different candidates in those of these views that are tried. */
  function CandidatesIn(ctx: Context, t: Target, atts: seq<Attestation>, views: seq<u64>): nat {
    if views == [] then 0
    else
      var same := OfView(atts, views[0]);
      (if TooFew(ctx, same) then 0 else |DifferentCandidates(Wanted(ctx, t), same)|)
        + CandidatesIn(ctx, t, atts, views[1..])
  }

  function CandidatesAbove(ctx: Context, t: Target, atts: seq<Attestation>, view: u64): nat {
    CandidatesIn(ctx, t, atts, Above(ViewsIn(atts), view))
  }

  /** The members with a candidate in the view. */
  function MembersIn(ctx: Context, t: Target, atts: seq<Attestation>, view: u64): nat {
    |Order(Wanted(ctx, t), OfView(atts, view))|
  }

  lemma {:induction false} CostWithinCandidates(ctx: Context, t: Target, atts: seq<Attestation>, views: seq<u64>)
    ensures CostOf(ctx, t, atts, views) <= CandidatesIn(ctx, t, atts, views)
  {
    if views != [] {
      CostIsBounded(Wanted(ctx, t), GenuineIn(ctx), OfView(atts, views[0]));
      CostWithinCandidates(ctx, t, atts, views[1..]);
    }
  }

  lemma HeardAreSupermajority(ctx: Context, atts: seq<Attestation>, heard: set<u64>)
    requires heard <= SignerSet(atts) && Supermajority(ctx, heard)
    ensures !TooFew(ctx, atts) && heard != {}
  {
    SubsetCount(heard, SignerSet(atts));
    StakeOfNobody(ctx.commitment.members);
  }

  lemma AllHeardAdmitted(ctx: Context, t: Target, atts: seq<Attestation>, cap: nat)
    requires MAX_CANDIDATES_PER_MEMBER * |Order(Wanted(ctx, t), atts)| <= cap
    ensures HeardSet(ctx, t, atts) <= AdmittedSet(ctx, t, atts, cap)
  {
    forall id | id in HeardSet(ctx, t, atts) ensures id in AdmittedSet(ctx, t, atts, cap) {
      HeardAreAdmitted(Wanted(ctx, t), GenuineIn(ctx), atts, cap, id);
    }
  }

  /**
   * A view whose heard members are a supermajority certifies when the different candidates of the views tried above it,
   * and four for every member with a candidate in it, stay within the budget of four a member of the committee.
   */
  lemma CountsSuffice(ctx: Context, t: Target, atts: seq<Attestation>, view: u64)
    requires t.block.IsAdmissible() && t.slot == ctx.commitment.slot && CommitmentUsable(ctx.commitment)
    requires Supermajority(ctx, HeardSet(ctx, t, OfView(atts, view)))
    requires CandidatesAbove(ctx, t, atts, view) + MAX_CANDIDATES_PER_MEMBER * MembersIn(ctx, t, atts, view)
             <= VerificationCap(ctx.commitment)
    ensures Certifies(ctx, t, atts, view)
  {
    var same, heard := OfView(atts, view), HeardSet(ctx, t, OfView(atts, view));
    var left := LeftFor(ctx, t, atts, view);
    CostWithinCandidates(ctx, t, atts, Above(ViewsIn(atts), view));
    HeardAreSupermajority(ctx, same, heard);
    AllHeardAdmitted(ctx, t, same, left);
    SupermajorityGrows(ctx, heard, AdmittedSet(ctx, t, same, left));
    SomeoneWanted(ctx, t, same);
  }

  lemma SomeoneWanted(ctx: Context, t: Target, atts: seq<Attestation>)
    requires HeardSet(ctx, t, atts) != {}
    ensures Order(Wanted(ctx, t), atts) != []
  {
    var id :| id in HeardSet(ctx, t, atts);
    var bucket := CandidatesOf(Wanted(ctx, t), atts, id);
    assert bucket[0] in bucket;
  }

  /** Every view above is skipped for too few signers or holds no candidate. */
  ghost predicate QuietAbove(ctx: Context, t: Target, atts: seq<Attestation>, view: u64) {
    forall w: u64 :: w > view ==>
      TooFew(ctx, OfView(atts, w)) || forall a :: a in OfView(atts, w) ==> !Matches(ctx, t, a)
  }

  /** In particular a heard supermajority certifies below quiet views, however large the flood in its own. */
  lemma QuietSuffices(ctx: Context, t: Target, atts: seq<Attestation>, view: u64)
    requires t.block.IsAdmissible() && t.slot == ctx.commitment.slot && CommitmentUsable(ctx.commitment)
    requires Supermajority(ctx, HeardSet(ctx, t, OfView(atts, view))) && QuietAbove(ctx, t, atts, view)
    ensures Certifies(ctx, t, atts, view)
  {
    QuietCandidates(ctx, t, atts, view, ViewsIn(atts));
    var order := Order(Wanted(ctx, t), OfView(atts, view));
    forall id | id in IdSet(order) ensures MemberOf(ctx.commitment, id).Some? {
      var a :| a in OfView(atts, view) && Wanted(ctx, t)(a) && a.from == id;
    }
    MemberIdsBounded(ctx, IdSet(order));
    DistinctCount(order);
    CountsSuffice(ctx, t, atts, view);
  }

  lemma {:induction false} QuietCandidates(ctx: Context, t: Target, atts: seq<Attestation>, view: u64, views: seq<u64>)
    requires QuietAbove(ctx, t, atts, view)
    ensures CandidatesIn(ctx, t, atts, Above(views, view)) == 0
  {
    if views != [] {
      QuietCandidates(ctx, t, atts, view, views[1..]);
      if views[0] > view {
        if !TooFew(ctx, OfView(atts, views[0])) { NoCandidates(ctx, t, atts, view, views[0]); }
        assert Above(views, view)[0] == views[0] && Above(views, view)[1..] == Above(views[1..], view);
      } else {
        assert Above(views, view) == Above(views[1..], view);
      }
    }
  }

  lemma NoCandidates(ctx: Context, t: Target, atts: seq<Attestation>, view: u64, w: u64)
    requires QuietAbove(ctx, t, atts, view) && w > view && !TooFew(ctx, OfView(atts, w))
    ensures DifferentCandidates(Wanted(ctx, t), OfView(atts, w)) == {}
  {
  }
}
