/**
 * Where the builder's promise ends: past the counts that suffice there are lists, with those very counts and a heard
 * supermajority, that make no certificate; and a mismatched height that does make one.
 */
module AggregateLimits {
  import opened Wrappers
  import opened Bytes
  import opened Powers
  import opened Blocks
  import opened OneTime
  import opened Sortition
  import opened Attestations
  import opened Commitments
  import opened Certificates
  import opened Verify
  import opened Admission
  import opened VoteLists
  import opened Aggregate

  // ---- a committee that hangs on its last member ----

  function Zeros(): Bytes32 {
    seq(32, _ => 0)
  }

  /** Hashes that always give zeros, and a signature test that only the empty signature passes. */
  function EmptySigned(): Crypto {
    Crypto(Hashing(_ => Zeros(), _ => Zeros()), (key, message, sig, context) => sig == [])
  }

  function MemberAt(i: u64, staked: u64): MemberKey {
    MemberKey(i, 1, if i == staked then 1 else 0, Root(Zeros(), 1), seq(PUBLIC_KEY_BYTES, _ => 0))
  }

  function MembersUpTo(size: u64, staked: u64): (ms: seq<MemberKey>)
    ensures |ms| == size && forall i :: 0 <= i < size ==> ms[i] == MemberAt(i, staked)
  {
    seq(size, i requires 0 <= i < size => MemberAt(i, staked))
  }

  /** A committee of `size` members in a full draw, where member `staked` holds all the stake. */
  function LoneStake(size: u64, staked: u64): CommitteeCommitment
    requires size <= MAX_MEMBERS
  {
    CommitmentData(0, U64_MAX, 1, MembersUpTo(size, staked), 0, Full)
  }

  function LoneContext(size: u64, staked: u64): Context
    requires size <= MAX_MEMBERS
  {
    Context(EmptySigned(), ChainBinding(0, Zeros()), LoneStake(size, staked), Zeros(), 0)
  }

  function EmptyBlock(): Block {
    Block(0, Zeros(), Genesis, 0)
  }

  /** The empty block, to be certified at any height. */
  function TargetAt(height: u64): Target {
    Target(height, 0, EmptyBlock())
  }

  function Vote(from: u64, height: u64, view: u64, sig: seq<u8>): Attestation {
    Attestation(from, Subject(height, 0, view, Zeros(), EmptyBlock()), Credential(0, Zeros(), MerklePath([])), sig)
  }

  lemma {:induction false} FindMember(ms: seq<MemberKey>, first: nat, i: nat, staked: u64)
    requires first <= i < first + |ms| && first + |ms| <= U64_MAX
    requires forall k :: 0 <= k < |ms| ==> ms[k] == MemberAt(first + k, staked)
    ensures Find(ms, i) == Some(MemberAt(i, staked))
  {
    if i != first {
      FindMember(ms[1..], first + 1, i, staked);
    }
  }

  /** With such hashes any position of a one-slot root opens. */
  lemma Opened(from: u64)
    ensures Opens(EmptySigned().hashes, Root(Zeros(), 1), from, 0, Zeros(), MerklePath([]))
  {
    var h := EmptySigned().hashes;
    DepthOfSlots(1);
    CeilLog2Least(1, 0);
    assert TreeDepth(1) == Some(0);
    assert BindRoot(h, from, 1, Climb(h, 0, LeafHash(h, 0, Zeros()), [])) == Zeros();
  }

  lemma Drawn(from: u64, seed: Bytes32)
    ensures VerifyDraw(EmptySigned().hashes, Full, Root(Zeros(), 1), from, seed, 0, 1, U64_MAX, 1,
                       Credential(0, Zeros(), MerklePath([])))
  {
    Opened(from);
  }

  lemma SignedIfEmpty(chain: ChainBinding, a: Attestation, key: PublicKey)
    ensures SignatureVerifies(EmptySigned(), chain, a, key) <==> a.sig == []
  {
  }

  lemma GenuineOf(ctx: Context, a: Attestation, m: MemberKey)
    requires MemberOf(ctx.commitment, a.from) == Some(m) && EntitledIn(ctx, m, a)
    ensures Genuine(ctx, a) <==> SignatureVerifies(ctx.crypto, ctx.chain, a, m.attestPk)
  {
  }

  lemma EntitledHere(size: u64, staked: u64, height: u64, from: u64, view: u64, sig: seq<u8>)
    requires size <= MAX_MEMBERS
    ensures EntitledIn(LoneContext(size, staked), MemberAt(from, staked), Vote(from, height, view, sig))
  {
    Drawn(from, Zeros());
  }

  lemma GenuineIfEmpty(size: u64, staked: u64, height: u64, from: u64, view: u64, sig: seq<u8>)
    requires from < size <= MAX_MEMBERS
    ensures Genuine(LoneContext(size, staked), Vote(from, height, view, sig)) <==> sig == []
  {
    LoneMember(size, staked, from);
    EntitledHere(size, staked, height, from, view, sig);
    GenuineOf(LoneContext(size, staked), Vote(from, height, view, sig), MemberAt(from, staked));
    SignedIfEmpty(ChainBinding(0, Zeros()), Vote(from, height, view, sig), MemberAt(from, staked).attestPk);
  }

  lemma LoneMember(size: u64, staked: u64, from: u64)
    requires from < size <= MAX_MEMBERS
    ensures MemberOf(LoneContext(size, staked).commitment, from) == Some(MemberAt(from, staked))
  {
    FindMember(MembersUpTo(size, staked), 0, from, staked);
  }

  /** Every member's vote for the target is a candidate, and the genuine ones are those with the empty signature. */
  lemma VotesCount(size: u64, staked: u64, height: u64, from: u64, view: u64, sig: seq<u8>)
    requires from < size <= MAX_MEMBERS
    ensures var ctx, a := LoneContext(size, staked), Vote(from, height, view, sig);
      Matches(ctx, TargetAt(height), a) && (Genuine(ctx, a) <==> sig == [])
  {
    LoneMember(size, staked, from);
    GenuineIfEmpty(size, staked, height, from, view, sig);
  }

  lemma {:induction false} StakeOfLone(ms: seq<MemberKey>, first: nat, staked: u64, ids: set<u64>)
    requires first + |ms| <= U64_MAX && forall k :: 0 <= k < |ms| ==> ms[k] == MemberAt(first + k, staked)
    ensures StakeIn(ms, ids) == if first <= staked < first + |ms| && staked in ids then 1 else 0
  {
    if ms != [] {
      StakeOfLone(ms[1..], first + 1, staked, ids);
    }
  }

  /** Signers are a supermajority exactly with the member that holds the stake among them. */
  lemma LoneDecides(size: u64, staked: u64, signers: set<u64>)
    requires staked < size <= MAX_MEMBERS
    ensures Supermajority(LoneContext(size, staked), signers) <==> staked in signers
  {
    StakeOfLone(MembersUpTo(size, staked), 0, staked, signers);
    LoneQuorum(size, staked);
    OneStake(LoneContext(size, staked), signers);
    assert staked in signers ==> signers != {};
  }

  lemma OneStake(ctx: Context, signers: set<u64>)
    requires ctx.commitment.mode == Full && ExactQuorumStake(ctx.commitment) == 1
    ensures Supermajority(ctx, signers) <==> signers != {} && StakeIn(ctx.commitment.members, signers) >= 1
  {
  }

  lemma LoneQuorum(size: u64, staked: u64)
    requires staked < size <= MAX_MEMBERS
    ensures ExactQuorumStake(LoneStake(size, staked)) == 1
  {
    var ms := MembersUpTo(size, staked);
    StakeOfLone(ms, 0, staked, AllIds(ms));
    StakeInAll(ms, AllIds(ms));
    assert ms[staked] in ms && ms[staked].id == staked;
  }

  // ---- votes of that committee ----

  /** Signatures that fail, all different. */
  function Bad(k: nat): seq<u8> {
    seq(k + 1, _ => 0)
  }

  /** A member's votes in a view that fail. */
  function Forgeries(from: u64, height: u64, view: u64, n: nat): (votes: seq<Attestation>)
    ensures |votes| == n
    ensures forall k :: 0 <= k < n ==> votes[k] == Vote(from, height, view, Bad(k))
  {
    seq(n, k requires 0 <= k < n => Vote(from, height, view, Bad(k)))
  }

  /** A member's votes in view 0: forgeries, and then its genuine one. */
  function Tries(height: u64, bad: nat): u64 -> seq<Attestation> {
    (from: u64) => Forgeries(from, height, 0, bad) + [Vote(from, height, 0, [])]
  }

  /** The tries of the first `m` members in view 0, below `n` forgeries in view 1. */
  function Flooded(n: nat, m: u64, height: u64, bad: nat): seq<Attestation> {
    Forgeries(0, height, 1, n) + Crowd(Tries(height, bad), m)
  }

  lemma ForgeriesFail(size: u64, staked: u64, from: u64, height: u64, view: u64, n: nat)
    requires from < size <= MAX_MEMBERS
    ensures var ctx, t, votes := LoneContext(size, staked), TargetAt(height), Forgeries(from, height, view, n);
      OwnVotes(Wanted(ctx, t), votes, from) && forall a :: a in votes ==> !GenuineIn(ctx)(a)
  {
    var ctx, t, votes := LoneContext(size, staked), TargetAt(height), Forgeries(from, height, view, n);
    forall a | a in votes ensures Wanted(ctx, t)(a) && a.from == from && !GenuineIn(ctx)(a) {
      var k :| 0 <= k < n && votes[k] == a;
      assert |Bad(k)| != 0;
      VotesCount(size, staked, height, from, view, Bad(k));
    }
    forall i, j | 0 <= i < j < n ensures votes[i].sig != votes[j].sig {
      assert |Bad(i)| != |Bad(j)|;
    }
  }

  lemma TriesAreOwn(size: u64, staked: u64, from: u64, height: u64, bad: nat)
    requires from < size <= MAX_MEMBERS
    ensures var ctx, t, votes := LoneContext(size, staked), TargetAt(height), Tries(height, bad)(from);
      OwnTries(Wanted(ctx, t), GenuineIn(ctx), votes, bad, from)
  {
    var ctx, t := LoneContext(size, staked), TargetAt(height);
    var forged, last := Forgeries(from, height, 0, bad), Vote(from, height, 0, []);
    ForgeriesFail(size, staked, from, height, 0, bad);
    VotesCount(size, staked, height, from, 0, []);
    GenuineLast(GenuineIn(ctx), forged, last);
    OwnAndOne(Wanted(ctx, t), forged, last, from);
  }

  lemma OwnAndOne(wanted: Attestation -> bool, votes: seq<Attestation>, a: Attestation, from: u64)
    requires OwnVotes(wanted, votes, from) && wanted(a) && a.from == from && a.sig == []
    requires forall i :: 0 <= i < |votes| ==> votes[i].sig != []
    ensures OwnVotes(wanted, votes + [a], from)
  {
  }

  lemma CrowdedHere(size: u64, staked: u64, m: u64, height: u64, bad: nat)
    requires m <= size <= MAX_MEMBERS
    ensures var ctx, t := LoneContext(size, staked), TargetAt(height);
      Crowded(Wanted(ctx, t), GenuineIn(ctx), Crowd(Tries(height, bad), m), bad, m)
  {
    var ctx, t := LoneContext(size, staked), TargetAt(height);
    forall id: u64 | id < m ensures OwnTries(Wanted(ctx, t), GenuineIn(ctx), Tries(height, bad)(id), bad, id) {
      TriesAreOwn(size, staked, id, height, bad);
    }
    CrowdIsCrowded(Wanted(ctx, t), GenuineIn(ctx), Tries(height, bad), bad, m);
  }

  lemma {:induction false} CrowdInViewZero(height: u64, bad: nat, m: u64)
    ensures forall a :: a in Crowd(Tries(height, bad), m) ==> a.subject.view == 0
    decreases m
  {
    if m != 0 {
      CrowdInViewZero(height, bad, m - 1);
    }
  }

  // ---- a list of two views ----

  lemma OfViewOne(atts: seq<Attestation>, a: Attestation, view: u64)
    ensures OfView(atts + [a], view) == OfView(atts, view) + if a.subject.view == view then [a] else []
  {
    assert (atts + [a])[..|atts|] == atts;
  }

  lemma {:induction false} OfViewAppend(a: seq<Attestation>, b: seq<Attestation>, view: u64)
    ensures OfView(a + b, view) == OfView(a, view) + OfView(b, view)
    decreases |b|
  {
    if b == [] {
      NoneAdded(a);
      NoneAdded(OfView(a, view));
    } else {
      SplitLast(a, b);
      var init, last := b[..|b| - 1], b[|b| - 1];
      OfViewAppend(a, init, view);
      OfViewOne(a + init, last, view);
      OfViewOne(init, last, view);
      Reassociate(OfView(a, view), OfView(init, view), if last.subject.view == view then [last] else []);
    }
  }

  lemma {:induction false} OfOneView(atts: seq<Attestation>, view: u64)
    requires forall a :: a in atts ==> a.subject.view == view
    ensures OfView(atts, view) == atts
  {
    if atts != [] {
      OfOneView(atts[..|atts| - 1], view);
      SplitLast([], atts);
    }
  }

  lemma {:induction false} AboveZero(views: seq<u64>)
    requires AscendingIds(views) && forall v :: v in views ==> v <= 1
    ensures Above(views, 0) == if 1 in views then [1] else []
  {
    if views != [] {
      var last := views[|views| - 1];
      assert last in views;
      assert |views| > 1 ==> views[0] < last;
      AboveZero(views[1..]);
      assert views == [views[0]] + views[1..];
    }
  }

  /** Votes of view 1 and then votes of view 0. */
  ghost predicate TwoViews(atts: seq<Attestation>, above: seq<Attestation>, below: seq<Attestation>) {
    && OfView(atts, 1) == above && OfView(atts, 0) == below
    && forall a :: a in atts ==> a.subject.view <= 1
  }

  lemma TwoViewsOf(above: seq<Attestation>, below: seq<Attestation>)
    requires (forall a :: a in above ==> a.subject.view == 1) && (forall a :: a in below ==> a.subject.view == 0)
    ensures TwoViews(above + below, above, below)
  {
    OfViewAppend(above, below, 1);
    OfViewAppend(above, below, 0);
    OfOneView(above, 1);
    NoneOfView(below, 1);
    NoneOfView(above, 0);
    OfOneView(below, 0);
    NoneAdded(above);
    NoneBefore(below);
  }

  lemma ViewsAboveZero(atts: seq<Attestation>, above: seq<Attestation>, below: seq<Attestation>)
    requires TwoViews(atts, above, below)
    ensures Above(ViewsIn(atts), 0) == if above == [] then [] else [1]
  {
    ViewsAscend(atts);
    AboveZero(ViewsIn(atts));
    if 1 in ViewsIn(atts) {
      var a :| a in atts && a.subject.view == 1;
      assert a in OfView(atts, 1);
    }
    assert above != [] ==> above[0] in OfView(atts, 1);
  }

  /** These signers are a supermajority exactly with this member among them. */
  ghost predicate DecidedBy(ctx: Context, staked: u64, signers: set<u64>) {
    Supermajority(ctx, signers) <==> staked in signers
  }

  /** The committee hangs on this member, in a full draw. */
  ghost predicate HangsOn(ctx: Context, staked: u64) {
    ctx.commitment.mode == Full && forall signers :: DecidedBy(ctx, staked, signers)
  }

  /** The list of forgeries above a crowd that the limits are about, for any context. */
  ghost predicate ForgedAbove(ctx: Context, t: Target, atts: seq<Attestation>, above: seq<Attestation>,
                              below: seq<Attestation>, bad: nat, m: u64)
  {
    && TwoViews(atts, above, below)
    && OwnVotes(Wanted(ctx, t), above, 0) && (forall a :: a in above ==> !GenuineIn(ctx)(a))
    && m >= 1 && Crowded(Wanted(ctx, t), GenuineIn(ctx), below, bad, m)
  }

  lemma CostOfOne(ctx: Context, t: Target, atts: seq<Attestation>, view: u64)
    requires ctx.commitment.mode == Full
    ensures CostOf(ctx, t, atts, [view]) == Cost(Wanted(ctx, t), GenuineIn(ctx), OfView(atts, view))
    ensures CandidatesIn(ctx, t, atts, [view]) == |DifferentCandidates(Wanted(ctx, t), OfView(atts, view))|
  {
    assert [view][1..] == [];
  }

  lemma ForgedAboveCosts(ctx: Context, t: Target, atts: seq<Attestation>, above: seq<Attestation>,
                         below: seq<Attestation>, bad: nat, m: u64)
    requires ForgedAbove(ctx, t, atts, above, below, bad, m) && ctx.commitment.mode == Full
    ensures CostAbove(ctx, t, atts, 0) == |above| == CandidatesAbove(ctx, t, atts, 0)
  {
    ViewsAboveZero(atts, above, below);
    ForgedCost(Wanted(ctx, t), GenuineIn(ctx), above, 0);
    CostOfOne(ctx, t, atts, 1);
  }

  /** Whether a supermajority is heard in view 0, and the counts that `CountsSuffice` compares with the budget. */
  datatype Counts = Counts(heard: bool, above: nat, members: nat)

  function CountsIn(ctx: Context, t: Target, atts: seq<Attestation>): Counts {
    Counts(Supermajority(ctx, HeardSet(ctx, t, OfView(atts, 0))),
           CandidatesAbove(ctx, t, atts, 0), MembersIn(ctx, t, atts, 0))
  }

  ghost predicate HeardWithCounts(ctx: Context, t: Target, atts: seq<Attestation>, above: nat, members: nat) {
    CountsIn(ctx, t, atts) == Counts(true, above, members)
  }

  lemma CrowdIsHeard(ctx: Context, t: Target, atts: seq<Attestation>, above: seq<Attestation>, below: seq<Attestation>,
                     n: nat, bad: nat, m: u64)
    requires ForgedAbove(ctx, t, atts, above, below, bad, m) && HangsOn(ctx, m - 1)
    requires n == |above| && bad < MAX_CANDIDATES_PER_MEMBER
    ensures HeardWithCounts(ctx, t, atts, n, m)
  {
    ForgedAboveCosts(ctx, t, atts, above, below, bad, m);
    LastIsHeard(Wanted(ctx, t), GenuineIn(ctx), below, bad, m);
    assert (m - 1) in HeardSet(ctx, t, below);
    assert DecidedBy(ctx, m - 1, HeardSet(ctx, t, below));
  }

  /** No view makes a certificate, so the builder returns none. */
  ghost predicate NothingMade(ctx: Context, t: Target, atts: seq<Attestation>) {
    forall view: u64 :: !Certifies(ctx, t, atts, view)
  }

  lemma AboveMakesNone(ctx: Context, t: Target, above: seq<Attestation>, staked: u64, left: nat)
    requires HangsOn(ctx, staked) && forall a :: a in above ==> !GenuineIn(ctx)(a)
    ensures !Makes(ctx, t, above, left)
  {
    NobodyAdmitted(Wanted(ctx, t), GenuineIn(ctx), above, left);
    assert DecidedBy(ctx, staked, AdmittedSet(ctx, t, above, left));
  }

  lemma BelowMakesNone(ctx: Context, t: Target, below: seq<Attestation>, bad: nat, m: u64, left: nat)
    requires m >= 1 && HangsOn(ctx, m - 1) && Crowded(Wanted(ctx, t), GenuineIn(ctx), below, bad, m)
      && left < (bad + 1) * m
    ensures !Makes(ctx, t, below, left)
  {
    LastIsMissed(Wanted(ctx, t), GenuineIn(ctx), below, bad, m, left);
    assert DecidedBy(ctx, m - 1, AdmittedSet(ctx, t, below, left));
  }

  lemma LeftForZero(ctx: Context, t: Target, atts: seq<Attestation>, above: seq<Attestation>, below: seq<Attestation>,
                    bad: nat, m: u64)
    requires ForgedAbove(ctx, t, atts, above, below, bad, m) && ctx.commitment.mode == Full
    ensures LeftFor(ctx, t, atts, 0) == SatSub(VerificationCap(ctx.commitment), |above|)
  {
    ForgedAboveCosts(ctx, t, atts, above, below, bad, m);
  }

  lemma NotFrom(ctx: Context, t: Target, atts: seq<Attestation>, view: u64, same: seq<Attestation>)
    requires OfView(atts, view) == same && !Makes(ctx, t, same, LeftFor(ctx, t, atts, view))
    ensures !Certifies(ctx, t, atts, view)
  {
  }

  lemma NotFromOthers(ctx: Context, t: Target, atts: seq<Attestation>, view: u64)
    requires view > 1 && forall a :: a in atts ==> a.subject.view <= 1
    ensures !Certifies(ctx, t, atts, view)
  {
    AbsentViews(ctx, t, atts, view);
  }

  lemma TooLittleLeft(cap: nat, above: nat, m: nat, bad: nat)
    requires above + (bad + 1) * m > cap && m >= 1
    ensures SatSub(cap, above) < (bad + 1) * m
  {
    assert (bad + 1) * m >= 1;
  }

  lemma AboveFails(ctx: Context, t: Target, atts: seq<Attestation>, above: seq<Attestation>, staked: u64)
    requires OfView(atts, 1) == above && HangsOn(ctx, staked) && forall a :: a in above ==> !GenuineIn(ctx)(a)
    ensures !Certifies(ctx, t, atts, 1)
  {
    AboveMakesNone(ctx, t, above, staked, LeftFor(ctx, t, atts, 1));
    NotFrom(ctx, t, atts, 1, above);
  }

  lemma BelowFails(ctx: Context, t: Target, atts: seq<Attestation>, below: seq<Attestation>, bad: nat, m: u64)
    requires OfView(atts, 0) == below && m >= 1 && HangsOn(ctx, m - 1)
    requires Crowded(Wanted(ctx, t), GenuineIn(ctx), below, bad, m) && LeftFor(ctx, t, atts, 0) < (bad + 1) * m
    ensures !Certifies(ctx, t, atts, 0)
  {
    BelowMakesNone(ctx, t, below, bad, m, LeftFor(ctx, t, atts, 0));
    NotFrom(ctx, t, atts, 0, below);
  }

  lemma PastTheBudget(ctx: Context, t: Target, atts: seq<Attestation>, above: seq<Attestation>, below: seq<Attestation>,
                      bad: nat, m: u64)
    requires ForgedAbove(ctx, t, atts, above, below, bad, m) && HangsOn(ctx, m - 1)
    requires |above| + (bad + 1) * m > VerificationCap(ctx.commitment)
    ensures NothingMade(ctx, t, atts)
  {
    hide Certifies, Crowded, OwnVotes;
    forall view: u64 ensures !Certifies(ctx, t, atts, view) {
      if view == 0 {
        TooFewLeft(ctx, t, atts, above, below, bad, m);
        BelowFails(ctx, t, atts, below, bad, m);
      } else if view == 1 {
        AboveFails(ctx, t, atts, above, m - 1);
      } else {
        NotFromOthers(ctx, t, atts, view);
      }
    }
  }

  lemma TooFewLeft(ctx: Context, t: Target, atts: seq<Attestation>, above: seq<Attestation>, below: seq<Attestation>,
                   bad: nat, m: u64)
    requires ForgedAbove(ctx, t, atts, above, below, bad, m) && ctx.commitment.mode == Full
    requires |above| + (bad + 1) * m > VerificationCap(ctx.commitment)
    ensures LeftFor(ctx, t, atts, 0) < (bad + 1) * m
  {
    LeftForZero(ctx, t, atts, above, below, bad, m);
    TooLittleLeft(VerificationCap(ctx.commitment), |above|, m, bad);
  }

  // ---- the limits ----

  /**
   * In a full draw that hangs on one member: n forgeries of one member in view 1, above a crowd of m in view 0 whose
   * last member is that one, each with its genuine vote behind `bad` forgeries.
   */
  ghost predicate Floods(ctx: Context, t: Target, atts: seq<Attestation>, n: nat, bad: nat, m: u64) {
    m >= 1 && HangsOn(ctx, m - 1) && IsForged(ctx, t, atts, n, bad, m)
  }

  ghost predicate IsForged(ctx: Context, t: Target, atts: seq<Attestation>, n: nat, bad: nat, m: u64) {
    exists above, below :: ForgedAbove(ctx, t, atts, above, below, bad, m) && |above| == n
  }

  lemma FloodIsHeard(ctx: Context, t: Target, atts: seq<Attestation>, n: nat, bad: nat, m: u64)
    requires Floods(ctx, t, atts, n, bad, m) && bad < MAX_CANDIDATES_PER_MEMBER
    ensures HeardWithCounts(ctx, t, atts, n, m)
  {
    var above, below :| ForgedAbove(ctx, t, atts, above, below, bad, m) && |above| == n;
    CrowdIsHeard(ctx, t, atts, above, below, n, bad, m);
  }

  lemma FloodFails(ctx: Context, t: Target, atts: seq<Attestation>, n: nat, bad: nat, m: u64)
    requires Floods(ctx, t, atts, n, bad, m) && n + (bad + 1) * m > VerificationCap(ctx.commitment)
    ensures NothingMade(ctx, t, atts)
  {
    var above, below :| ForgedAbove(ctx, t, atts, above, below, bad, m) && |above| == n;
    PastTheBudget(ctx, t, atts, above, below, bad, m);
  }

  /**
   * The limit, over any primitives and any such list: the supermajority is heard, the counts are n and m, and once
   * n + 4 * m exceeds the budget no view makes a certificate.
   */
  lemma FloodPastTheBudget(ctx: Context, t: Target, atts: seq<Attestation>, n: nat, m: u64)
    requires Floods(ctx, t, atts, n, 3, m) && n + MAX_CANDIDATES_PER_MEMBER * m > VerificationCap(ctx.commitment)
    ensures HeardWithCounts(ctx, t, atts, n, m) && NothingMade(ctx, t, atts)
  {
    FloodIsHeard(ctx, t, atts, n, 3, m);
    FloodFails(ctx, t, atts, n, 3, m);
  }

  lemma LoneHangs(size: u64, staked: u64)
    requires staked < size <= MAX_MEMBERS
    ensures HangsOn(LoneContext(size, staked), staked)
  {
    forall signers ensures DecidedBy(LoneContext(size, staked), staked, signers) {
      LoneDecides(size, staked, signers);
    }
  }

  lemma ForgedBy(ctx: Context, t: Target, atts: seq<Attestation>, above: seq<Attestation>, below: seq<Attestation>,
                 n: nat, bad: nat, m: u64)
    requires ForgedAbove(ctx, t, atts, above, below, bad, m) && |above| == n
    ensures IsForged(ctx, t, atts, n, bad, m)
  {
  }

  lemma FloodedIsForged(size: u64, n: nat, m: u64, height: u64, bad: nat)
    requires 1 <= m <= size <= MAX_MEMBERS
    ensures IsForged(LoneContext(size, m - 1), TargetAt(height), Flooded(n, m, height, bad), n, bad, m)
  {
    var above, below := Forgeries(0, height, 1, n), Crowd(Tries(height, bad), m);
    ForgeriesFail(size, m - 1, 0, height, 1, n);
    CrowdedHere(size, m - 1, m, height, bad);
    CrowdInViewZero(height, bad, m);
    TwoViewsOf(above, below);
    ForgedBy(LoneContext(size, m - 1), TargetAt(height), Flooded(n, m, height, bad), above, below, n, bad, m);
  }

  lemma FloodedFloods(size: u64, n: nat, m: u64, height: u64, bad: nat)
    requires 1 <= m <= size <= MAX_MEMBERS
    ensures Floods(LoneContext(size, m - 1), TargetAt(height), Flooded(n, m, height, bad), n, bad, m)
  {
    hide HangsOn, IsForged, LoneContext, Flooded;
    LoneHangs(size, m - 1);
    FloodedIsForged(size, n, m, height, bad);
  }

  /** Everything else that a certificate in view 0 takes. */
  ghost predicate Ready(ctx: Context, t: Target) {
    t.block.IsAdmissible() && t.slot == ctx.commitment.slot && CommitmentUsable(ctx.commitment)
  }

  lemma LoneIsReady(size: u64, staked: u64, height: u64)
    requires size <= MAX_MEMBERS
    ensures Ready(LoneContext(size, staked), TargetAt(height))
  {
  }

  /**
   * Past the counts nothing can be promised: for a committee of any size, any number n of different candidates above
   * and any number m of members with a candidate in the view, with n + 4 * m beyond the budget, there is a list with
   * just these counts and a heard supermajority that makes no certificate in any view.
   */
  lemma PastTheCounts(size: u64, n: nat, m: u64, height: u64)
    requires 1 <= m <= size <= MAX_MEMBERS
    requires n + MAX_CANDIDATES_PER_MEMBER * m > MAX_CANDIDATES_PER_MEMBER * size
    ensures var ctx, t, atts := LoneContext(size, m - 1), TargetAt(height), Flooded(n, m, height, 3);
      && |ctx.commitment.members| == size && Ready(ctx, t) && HeardWithCounts(ctx, t, atts, n, m)
      && NothingMade(ctx, t, atts)
  {
    LoneIsReady(size, m - 1, height);
    FloodedFloods(size, n, m, height, 3);
    FloodPastTheBudget(LoneContext(size, m - 1), TargetAt(height), Flooded(n, m, height, 3), n, m);
  }

  lemma OneTry(height: u64)
    ensures Crowd(Tries(height, 0), 1) == [Vote(0, height, 0, [])]
  {
    assert Crowd(Tries(height, 0), 0) == [];
    assert Forgeries(0, height, 0, 0) == [];
  }

  /** The least such list: four forgeries in view 1 silence the one member's genuine vote in view 0. */
  lemma FourForgeriesSilence()
    ensures var ctx, t := LoneContext(1, 0), TargetAt(0);
      var atts := Forgeries(0, 0, 1, 4) + [Vote(0, 0, 0, [])];
      && Ready(ctx, t) && HeardWithCounts(ctx, t, atts, 4, 1)
      && NothingMade(ctx, t, atts)
  {
    OneTry(0);
    LoneIsReady(1, 0, 0);
    FloodedFloods(1, 4, 1, 0, 0);
    FloodIsHeard(LoneContext(1, 0), TargetAt(0), Flooded(4, 1, 0, 0), 4, 0, 1);
    FloodFails(LoneContext(1, 0), TargetAt(0), Flooded(4, 1, 0, 0), 4, 0, 1);
  }

  /** A certificate is made at height 1 for a block of height 0, and the verifier refuses it for just that. */
  lemma MismatchIsMade()
    ensures var ctx, t, atts := LoneContext(1, 0), TargetAt(1), [Vote(0, 1, 0, [])];
      Certifies(ctx, t, atts, 0) && BuiltVerdict(t.height, t.block) == Rejected(HeightMismatch)
  {
    OneTry(1);
    NoneBefore(Crowd(Tries(1, 0), 1));
    LoneIsReady(1, 0, 1);
    FloodedFloods(1, 0, 1, 1, 0);
    FloodIsHeard(LoneContext(1, 0), TargetAt(1), Flooded(0, 1, 1, 0), 0, 0, 1);
    CountsSuffice(LoneContext(1, 0), TargetAt(1), Flooded(0, 1, 1, 0), 0);
  }
}
