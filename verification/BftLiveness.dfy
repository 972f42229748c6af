/** Liveness of the stage one machine: when exactly a stable run without interference finalizes every height. */
module BftLiveness {
  import opened Wrappers
  import opened Bytes
  import opened IdSets
  import opened Sorting
  import opened Blocks
  import opened BftCore
  import opened BftSteps
  import opened BftSafety

  // ---- the driver ----

  /** Every honest member in the list votes for the block, in order. */
  function VoteAll(cfg: Config, s: State, height: u64, block: Block, ids: seq<u64>): (t: State)
    ensures t.certs == s.certs && t.views == s.views && t.stable == s.stable
    decreases ids
  {
    if ids == [] then s
    else
      var next := if FaultOf(cfg, ids[0]) == Honest then Apply(cfg, s, HonestVote(ids[0], height, block)) else s;
      VoteAll(cfg, next, height, block, ids[1..])
  }

  function HonestProposed(cfg: Config, s: State, height: u64): (t: State)
    ensures t.certs == s.certs && t.views == s.views && t.stable == s.stable
  {
    Apply(cfg, s, HonestPropose(height))
  }

  /** An honest leader's round: propose, let the honest members vote, try to finalize. */
  function HonestRound(cfg: Config, s: State, height: u64): (t: State)
    requires height >= MIN_HEIGHT
    ensures t.views == s.views && t.stable == s.stable
  {
    var block := HonestBlock(cfg, s.certs, height);
    var voted := VoteAll(cfg, HonestProposed(cfg, s, height), height, block, CommitteeFor(cfg, s.certs, height));
    Finalized(cfg, voted, height, block)
  }

  predicate LedAt(cfg: Config, certs: seq<Certificate>, height: u64, view: u64) {
    match LeaderOf(cfg, certs, height, view)
    case None => false
    case Some(l) => FaultOf(cfg, l) == Honest
  }

  predicate LedHonestly(cfg: Config, s: State, height: u64) {
    LedAt(cfg, s.certs, height, ViewOf(s, height))
  }

  /**
   * The driver gets by without the block below: height 0 has none, and the source's checked `height - 1` panics there
   * once an honest leader is to propose.
   */
  predicate Drivable(cfg: Config, s: State, height: u64) {
    height >= MIN_HEIGHT || !LedHonestly(cfg, s, height)
  }

  function Round(cfg: Config, s: State, height: u64): (t: State)
    requires Drivable(cfg, s, height)
    ensures t.views == s.views && t.stable == s.stable
  {
    if LedHonestly(cfg, s, height) then HonestRound(cfg, s, height) else s
  }

  /** `advance_height`: rounds until the height is decided or the view cannot move on; the flag says which. */
  function Advance(cfg: Config, s: State, height: u64): (State, bool)
    requires Decided(s.certs, height) || Drivable(cfg, s, height)
    decreases cfg.maxView - ViewOf(s, height)
  {
    if Decided(s.certs, height) then (s, true)
    else if LeaderOf(cfg, s.certs, height, ViewOf(s, height)).None? then (s, false)
    else
      var t := Round(cfg, s, height);
      if Decided(t.certs, height) then (t, true)
      else if !MayTimeout(cfg, t, height) then (t, false)
      else
        assert ViewOf(t, height) == ViewOf(s, height);
        Advance(cfg, TimedOut(cfg, t, height), height)
  }

  /** `run` from one height on, stopping at the first that does not finalize. */
  function RunFrom(cfg: Config, s: State, height: u64): State
    requires height >= MIN_HEIGHT
    decreases cfg.maxHeight - height
  {
    if height > cfg.maxHeight then s
    else
      var (t, ok) := Advance(cfg, s, height);
      if !ok || height == cfg.maxHeight then t else RunFrom(cfg, t, height + 1)
  }

  function RunAll(cfg: Config, s: State): State {
    RunFrom(cfg, Apply(cfg, s, Stabilize), MIN_HEIGHT)
  }

  // ---- one round at a height nobody has touched ----

  ghost function HonestIn(cfg: Config, committee: seq<u64>): set<u64> {
    set x | x in committee && FaultOf(cfg, x) == Honest
  }

  function HeightOf(m: Message): u64 {
    match m
    case Propose(_, h, _, _) => h
    case Vote(a) => a.height
  }

  /** Height `height` is the next to decide, in a stable machine that holds no message for it or above. */
  ghost predicate Fresh(cfg: Config, s: State, height: u64) {
    && InOrder(cfg, s.certs) && MIN_HEIGHT <= height == |s.certs| + 1
    && s.stable
    && (forall m :: m in s.msgs ==> HeightOf(m) < height)
  }

  /** Mid-round: the proposal for `block` is in, and every vote at the height is an honest member's for it. */
  ghost predicate Proposing(cfg: Config, s: State, height: u64, block: Block) {
    && InOrder(cfg, s.certs) && MIN_HEIGHT <= height == |s.certs| + 1 <= cfg.maxHeight
    && ValidBlock(s.certs, block, height)
    && SawProposal(cfg, s, height, block)
    && (forall m :: m in s.msgs ==> HeightOf(m) <= height)
    && forall a :: HasVote(s.msgs, a) && a.height == height ==>
         a.block == block && a.from in HonestIn(cfg, CommitteeFor(cfg, s.certs, height))
  }

  ghost predicate HasVoted(cfg: Config, s: State, x: u64, height: u64, block: Block) {
    Get(cfg.participants, x).Some? && HasVote(s.msgs, Attest(cfg, Get(cfg.participants, x).value, height, block))
  }

  lemma MayVoteNow(cfg: Config, s: State, height: u64, block: Block, x: u64)
    requires Proposing(cfg, s, height, block) && x in HonestIn(cfg, CommitteeFor(cfg, s.certs, height))
    ensures MayHonestVote(cfg, s, x, height, block)
  {
    OrderedFind(cfg, s.certs);
    assert !VotedOther(s.msgs, x, height, block) by {
      forall m | m in s.msgs && m.Vote? && m.attestation.height == height ensures m.attestation.block == block {
        assert HasVote(s.msgs, m.attestation);
      }
    }
  }

  lemma VoteJoins(cfg: Config, s: State, t: State, height: u64, block: Block, a: Attestation)
    requires Proposing(cfg, s, height, block)
    requires a.height == height && a.block == block && a.from in HonestIn(cfg, CommitteeFor(cfg, s.certs, height))
    requires t.msgs == s.msgs + [Vote(a)] && t.certs == s.certs && t.views == s.views
    ensures Proposing(cfg, t, height, block) && HasVote(t.msgs, a)
  {
    ProposalRemains(cfg, s, t, height, block);
    assert Vote(a) in t.msgs;
    forall b | HasVote(t.msgs, b) ensures HasVote(s.msgs, b) || b == a {
    }
  }

  /** A vote cast is in afterwards, and nothing but it is new. */
  lemma VotedIs(cfg: Config, s: State, x: u64, height: u64, block: Block)
    requires Get(cfg.participants, x).Some?
    ensures var a, t := Attest(cfg, Get(cfg.participants, x).value, height, block), Voted(cfg, s, x, height, block);
      HasVote(t.msgs, a) && (t == s || t.msgs == s.msgs + [Vote(a)])
  {
  }

  lemma CastIsVoted(cfg: Config, s: State, x: u64, height: u64, block: Block)
    requires MayHonestVote(cfg, s, x, height, block)
    ensures Apply(cfg, s, HonestVote(x, height, block)) == Voted(cfg, s, x, height, block)
  {
  }

  lemma OneVotes(cfg: Config, s: State, height: u64, block: Block, x: u64)
    requires Proposing(cfg, s, height, block)
    requires x in HonestIn(cfg, CommitteeFor(cfg, s.certs, height)) && Get(cfg.participants, x).Some?
    ensures var t := Apply(cfg, s, HonestVote(x, height, block));
      && Proposing(cfg, t, height, block) && t.certs == s.certs && HasVoted(cfg, t, x, height, block)
      && forall m :: m in s.msgs ==> m in t.msgs
  {
    MayVoteNow(cfg, s, height, block, x);
    CastIsVoted(cfg, s, x, height, block);
    VotedIs(cfg, s, x, height, block);
    var t := Voted(cfg, s, x, height, block);
    if t != s {
      VoteJoins(cfg, s, t, height, block, Attest(cfg, Get(cfg.participants, x).value, height, block));
    }
  }

  lemma ProposalRemains(cfg: Config, s: State, t: State, height: u64, block: Block)
    requires SawProposal(cfg, s, height, block) && s.certs == t.certs && s.views == t.views
    requires forall m :: m in s.msgs ==> m in t.msgs
    ensures SawProposal(cfg, t, height, block)
  {
    var m :| m in s.msgs && m.Propose? && m.height == height && m.block == block && m.view <= ViewOf(s, height)
             && LeaderOf(cfg, s.certs, height, m.view) == Some(m.from);
    assert m in t.msgs;
  }

  lemma {:induction false} AllVote(cfg: Config, s: State, height: u64, block: Block, ids: seq<u64>)
    requires Proposing(cfg, s, height, block)
    requires forall x :: x in ids ==> x in CommitteeFor(cfg, s.certs, height) && Get(cfg.participants, x).Some?
    ensures var t := VoteAll(cfg, s, height, block, ids);
      && Proposing(cfg, t, height, block)
      && (forall m :: m in s.msgs ==> m in t.msgs)
      && (forall x :: x in ids && FaultOf(cfg, x) == Honest ==> HasVoted(cfg, t, x, height, block))
    decreases ids
  {
    if ids != [] {
      var next := if FaultOf(cfg, ids[0]) == Honest then Apply(cfg, s, HonestVote(ids[0], height, block)) else s;
      if FaultOf(cfg, ids[0]) == Honest {
        OneVotes(cfg, s, height, block, ids[0]);
      }
      AllVote(cfg, next, height, block, ids[1..]);
    }
  }

  ghost predicate Ascends(ids: seq<u64>) {
    forall i, j :: 0 <= i < j < |ids| ==> ids[i] < ids[j]
  }

  lemma AscendingTail(a: seq<u64>, x: u64)
    requires a != [] && Ascends(a)
    ensures Ascends(a[1..]) && (x in a[1..] <==> x in a && x > a[0]) && (x in a ==> x >= a[0])
  {
    assert a == [a[0]] + a[1..];
    forall i, j | 0 <= i < j < |a| - 1 ensures a[1..][i] < a[1..][j] {
      assert a[i + 1] < a[j + 1];
    }
    if x in a[1..] {
      var i :| 0 <= i < |a| - 1 && a[1..][i] == x;
      assert a[0] < a[i + 1];
    }
  }

  /** Two ascending lists of the same ids are the same list. */
  lemma {:induction false} SameAscending(a: seq<u64>, b: seq<u64>)
    requires Ascends(a) && Ascends(b) && forall x :: x in a <==> x in b
    ensures a == b
    decreases a
  {
    assert a != [] ==> a[0] in a;
    assert b != [] ==> b[0] in b;
    if a != [] {
      AscendingTail(a, b[0]);
      AscendingTail(b, a[0]);
      forall x ensures x in a[1..] <==> x in b[1..] {
        AscendingTail(a, x);
        AscendingTail(b, x);
      }
      SameAscending(a[1..], b[1..]);
      assert a == [a[0]] + a[1..] && b == [b[0]] + b[1..];
    }
  }

  lemma SortedAscends(ids: seq<u64>)
    requires Distinct(ids) && SortedBy(ById(), ids)
    ensures Ascends(ids)
  {
    assert forall i, j :: 0 <= i < j < |ids| ==> ById()(ids[i], ids[j]);
  }

  /** The honest members of a committee, in its order. */
  function HonestMembers(cfg: Config, committee: seq<u64>): seq<u64> {
    if committee == [] then []
    else (if FaultOf(cfg, committee[0]) == Honest then [committee[0]] else []) + HonestMembers(cfg, committee[1..])
  }

  lemma {:induction false} HonestMembersOf(cfg: Config, committee: seq<u64>)
    ensures forall x :: x in HonestMembers(cfg, committee) <==> x in HonestIn(cfg, committee)
    ensures Ascends(committee) ==> Ascends(HonestMembers(cfg, committee))
  {
    if committee != [] {
      var rest := HonestMembers(cfg, committee[1..]);
      HonestMembersOf(cfg, committee[1..]);
      assert committee == [committee[0]] + committee[1..];
      if Ascends(committee) {
        forall x | x in rest ensures x > committee[0] {
          AscendingTail(committee, x);
        }
        AscendingTail(committee, committee[0]);
        PutFirst(committee[0], rest);
      }
    }
  }

  lemma PutFirst(x: u64, ids: seq<u64>)
    requires Ascends(ids) && forall y :: y in ids ==> y > x
    ensures Ascends([x] + ids)
  {
    assert forall i :: 0 <= i < |ids| ==> ids[i] in ids;
  }

  lemma VoterCounted(cfg: Config, s: State, height: u64, block: Block, committee: seq<u64>, x: u64)
    requires KeysMatch(cfg) && x in committee && HasVoted(cfg, s, x, height, block)
    ensures x in Counted(cfg, height, block, committee, VotesFor(s.msgs, height, block))
  {
    var a := Attest(cfg, Get(cfg.participants, x).value, height, block);
    assert a in VotesFor(s.msgs, height, block) && SignedInSet(cfg, a);
    CountedComplete(cfg, height, block, committee, VotesFor(s.msgs, height, block), a);
  }

  /** With exactly the honest members' votes in, they are the ones counted. */
  lemma CountedHonest(cfg: Config, s: State, height: u64, block: Block, committee: seq<u64>)
    requires KeysMatch(cfg) && Proposing(cfg, s, height, block) && committee == CommitteeFor(cfg, s.certs, height)
    requires forall x :: x in committee && FaultOf(cfg, x) == Honest ==> HasVoted(cfg, s, x, height, block)
    ensures var ids := Counted(cfg, height, block, committee, VotesFor(s.msgs, height, block));
      Distinct(ids) && IdSet(ids) == HonestIn(cfg, committee) && |ids| == |HonestIn(cfg, committee)|
  {
    hide VotesFor, Counted, HasVoted, CommitteeFor, ValidBlock;
    var votes := VotesFor(s.msgs, height, block);
    var ids := Counted(cfg, height, block, committee, votes);
    CountedSound(cfg, height, block, committee, votes);
    forall x | x in HonestIn(cfg, committee) ensures x in ids {
      VoterCounted(cfg, s, height, block, committee, x);
    }
    assert IdSet(ids) == HonestIn(cfg, committee);
    DistinctCount(ids);
  }

  /** Sorted, they are the honest members in the committee's order. */
  lemma SortedHonest(cfg: Config, committee: seq<u64>, ids: seq<u64>)
    requires Ascends(committee) && Distinct(ids) && IdSet(ids) == HonestIn(cfg, committee)
    ensures SortBy(ById(), ids) == HonestMembers(cfg, committee)
  {
    SortKeeps(ById(), ids);
    SortSorts(ById(), ids);
    SortedAscends(SortBy(ById(), ids));
    HonestMembersOf(cfg, committee);
    forall x ensures x in SortBy(ById(), ids) <==> x in HonestMembers(cfg, committee) {
      assert x in ids <==> x in IdSet(ids);
    }
    SameAscending(SortBy(ById(), ids), HonestMembers(cfg, committee));
  }

  lemma CommitteeInOrder(cfg: Config, certs: seq<Certificate>, height: u64)
    requires DistinctParticipants(cfg)
    ensures Ascends(CommitteeFor(cfg, certs, height))
  {
    CommitteeMembers(cfg, SeedFor(cfg, certs, height));
    CommitteeAscends(cfg, SeedFor(cfg, certs, height));
    SortedAscends(CommitteeFor(cfg, certs, height));
  }

  /** The certificate of an honest round: the honest block, attested by exactly the honest members of the committee. */
  function HonestCert(cfg: Config, certs: seq<Certificate>, height: u64): Certificate
    requires height >= MIN_HEIGHT
  {
    Certificate(height, HonestBlock(cfg, certs, height), HonestMembers(cfg, CommitteeFor(cfg, certs, height)))
  }

  lemma FinalizeGrows(cfg: Config, s: State, height: u64, block: Block)
    requires InOrder(cfg, s.certs) && height == |s.certs| + 1 && MIN_HEIGHT <= height <= cfg.maxHeight
      && block.height == height
    ensures var committee, t := CommitteeFor(cfg, s.certs, height), Finalized(cfg, s, height, block);
      var ids := Counted(cfg, height, block, committee, VotesFor(s.msgs, height, block));
      if IsQuorum(|ids|, |committee|) then t.certs == s.certs + [Certificate(height, block, SortBy(ById(), ids))]
      else t == s
  {
    OrderedFind(cfg, s.certs);
    assert forall c :: c in s.certs ==> c.height <= |s.certs|;
  }

  /** The honest leader's proposal joins a machine that holds no message for the height. */
  lemma ProposalJoins(cfg: Config, s: State, height: u64)
    requires Fresh(cfg, s, height) && height <= cfg.maxHeight && LedHonestly(cfg, s, height)
    ensures var t, l := Apply(cfg, s, HonestPropose(height)), LeaderOf(cfg, s.certs, height, ViewOf(s, height));
      && l.Some? && t.certs == s.certs && t.views == s.views
      && t.msgs == s.msgs + [Propose(l.value, height, ViewOf(s, height), HonestBlock(cfg, s.certs, height))]
  {
    OrderedFind(cfg, s.certs);
    var l := LeaderOf(cfg, s.certs, height, ViewOf(s, height)).value;
    assert Propose(l, height, ViewOf(s, height), HonestBlock(cfg, s.certs, height)) !in s.msgs;
  }

  lemma ProposalOpens(cfg: Config, s: State, height: u64)
    requires Fresh(cfg, s, height) && height <= cfg.maxHeight && LedHonestly(cfg, s, height)
    ensures Proposing(cfg, Apply(cfg, s, HonestPropose(height)), height, HonestBlock(cfg, s.certs, height))
    ensures Apply(cfg, s, HonestPropose(height)).certs == s.certs
  {
    var l := LeaderOf(cfg, s.certs, height, ViewOf(s, height)).value;
    var m := Propose(l, height, ViewOf(s, height), HonestBlock(cfg, s.certs, height));
    ProposalJoins(cfg, s, height);
    OpensWith(cfg, s, Apply(cfg, s, HonestPropose(height)), height, m);
  }

  lemma OpensWith(cfg: Config, s: State, t: State, height: u64, m: Message)
    requires Fresh(cfg, s, height) && height <= cfg.maxHeight
    requires t.certs == s.certs && t.views == s.views && t.msgs == s.msgs + [m]
    requires m.Propose? && m.height == height && m.block == HonestBlock(cfg, s.certs, height)
    requires m.view == ViewOf(s, height) && LeaderOf(cfg, s.certs, height, m.view) == Some(m.from)
    ensures Proposing(cfg, t, height, m.block)
  {
    assert m in t.msgs;
    forall a | HasVote(t.msgs, a) ensures a.height < height {
      assert Vote(a) in s.msgs;
    }
  }

  /**
   * An honest leader's round at a fresh height decides it, on the honest block, exactly when honest members are a
   * quorum.
   */
  lemma RoundDecides(cfg: Config, s: State, height: u64)
    requires KeysMatch(cfg) && DistinctParticipants(cfg)
    requires Fresh(cfg, s, height) && height <= cfg.maxHeight && LedHonestly(cfg, s, height)
    ensures var committee, t := CommitteeFor(cfg, s.certs, height), HonestRound(cfg, s, height);
      && (forall m :: m in t.msgs ==> HeightOf(m) <= height)
      && if 3 * |HonestIn(cfg, committee)| > 2 * |committee|
         then t.certs == s.certs + [HonestCert(cfg, s.certs, height)]
         else t.certs == s.certs
  {
    var block := HonestBlock(cfg, s.certs, height);
    var committee := CommitteeFor(cfg, s.certs, height);
    var proposed := HonestProposed(cfg, s, height);
    ProposalOpens(cfg, s, height);
    assert forall x :: x in committee ==> Get(cfg.participants, x).Some? by {
      CommitteeMembers(cfg, SeedFor(cfg, s.certs, height));
    }
    AllVote(cfg, proposed, height, block, committee);
    var voted := VoteAll(cfg, proposed, height, block, committee);
    assert HonestRound(cfg, s, height) == Finalized(cfg, voted, height, block);
    CountedHonest(cfg, voted, height, block, committee);
    FinalizeGrows(cfg, voted, height, block);
    CommitteeInOrder(cfg, s.certs, height);
    SortedHonest(cfg, committee, Counted(cfg, height, block, committee, VotesFor(voted.msgs, height, block)));
  }

  // ---- one height ----

  ghost predicate HoldsWithin(p: u64 -> bool, low: u64, high: u64) {
    exists v: u64 :: low <= v <= high && p(v)
  }

  lemma HoldsHereOrNext(p: u64 -> bool, low: u64, high: u64)
    requires low <= high
    ensures HoldsWithin(p, low, high) <==> p(low) || (low < high && HoldsWithin(p, low + 1, high))
  {
    if HoldsWithin(p, low, high) && !p(low) {
      var v: u64 :| low <= v <= high && p(v);
      assert low + 1 <= v;
    }
  }

  /** An honest member leads some view from this one on. */
  ghost predicate LedFrom(cfg: Config, certs: seq<Certificate>, height: u64, view: u64) {
    HoldsWithin((v: u64) => LedAt(cfg, certs, height, v), view, cfg.maxView)
  }

  ghost predicate HonestQuorum(cfg: Config, certs: seq<Certificate>, height: u64) {
    3 * |HonestIn(cfg, CommitteeFor(cfg, certs, height))| > 2 * |CommitteeFor(cfg, certs, height)|
  }

  ghost predicate SameViewsAbove(s: State, t: State, height: u64) {
    forall g: u64 :: g > height ==> ViewOf(t, g) == ViewOf(s, g)
  }

  /** A stable machine moves past a view exactly when its leader is not honest and a later view is left. */
  lemma StableTimeout(cfg: Config, s: State, height: u64)
    requires Fresh(cfg, s, height) && height <= cfg.maxHeight && !LedHonestly(cfg, s, height)
    requires LeaderOf(cfg, s.certs, height, ViewOf(s, height)).Some?
    ensures MayTimeout(cfg, s, height) <==> ViewOf(s, height) < cfg.maxView
    ensures var t := TimedOut(cfg, s, height);
      Fresh(cfg, t, height) && t.certs == s.certs && SameViewsAbove(s, t, height)
  {
    OrderedFind(cfg, s.certs);
  }

  /** An honestly led view is the last: the round decides, or the machine is stuck. */
  lemma HonestViewIsLast(cfg: Config, s: State, height: u64)
    requires KeysMatch(cfg) && DistinctParticipants(cfg)
    requires Fresh(cfg, s, height) && height <= cfg.maxHeight && LedHonestly(cfg, s, height)
    ensures Advance(cfg, s, height) == (HonestRound(cfg, s, height), HonestQuorum(cfg, s.certs, height))
  {
    OrderedFind(cfg, s.certs);
    RoundDecides(cfg, s, height);
    var t := HonestRound(cfg, s, height);
    if HonestQuorum(cfg, s.certs, height) {
      assert t.certs[|s.certs|] in t.certs;
      assert Decided(t.certs, height);
    } else {
      assert !MayTimeout(cfg, t, height);
    }
  }

  /** A view without an honest leader is passed over, while views are left. */
  lemma OtherViewIsSkipped(cfg: Config, s: State, height: u64)
    requires Fresh(cfg, s, height) && height <= cfg.maxHeight && !LedHonestly(cfg, s, height)
    requires LeaderOf(cfg, s.certs, height, ViewOf(s, height)).Some?
    ensures Advance(cfg, s, height)
      == if ViewOf(s, height) < cfg.maxView then Advance(cfg, TimedOut(cfg, s, height), height) else (s, false)
  {
    OrderedFind(cfg, s.certs);
    StableTimeout(cfg, s, height);
  }

  lemma LedOnce(cfg: Config, certs: seq<Certificate>, height: u64, view: u64)
    requires view <= cfg.maxView && LedAt(cfg, certs, height, view)
    ensures LedFrom(cfg, certs, height, 0)
  {
    var p := (v: u64) => LedAt(cfg, certs, height, v);
    assert p(view);
  }

  lemma NoLeaderEver(cfg: Config, certs: seq<Certificate>, height: u64, view: u64)
    requires LeaderOf(cfg, certs, height, view).None?
    ensures !LedFrom(cfg, certs, height, view)
  {
    assert CommitteeFor(cfg, certs, height) == [];
  }

  /** What `advance_height` leaves: the honest round's certificate, or none, and nothing above the height. */
  ghost predicate Advanced(cfg: Config, s: State, height: u64, t: State, ok: bool)
    requires height >= MIN_HEIGHT
  {
    && t.stable && SameViewsAbove(s, t, height) && (forall m :: m in t.msgs ==> HeightOf(m) <= height)
    && t.certs == if ok then s.certs + [HonestCert(cfg, s.certs, height)] else s.certs
  }

  lemma HonestRoundAdvances(cfg: Config, s: State, height: u64)
    requires KeysMatch(cfg) && DistinctParticipants(cfg)
    requires Fresh(cfg, s, height) && height <= cfg.maxHeight && LedHonestly(cfg, s, height)
    ensures Advanced(cfg, s, height, HonestRound(cfg, s, height), HonestQuorum(cfg, s.certs, height))
  {
    RoundDecides(cfg, s, height);
  }

  /**
   * At a height nobody has touched, `advance_height` finalizes exactly when the honest members are a quorum and lead
   * some view from the current one on; what it finalizes is the honest block.
   */
  lemma {:induction false} AdvanceDecides(cfg: Config, s: State, height: u64)
    requires KeysMatch(cfg) && DistinctParticipants(cfg)
    requires Fresh(cfg, s, height) && height <= cfg.maxHeight && ViewOf(s, height) <= cfg.maxView
    ensures Advance(cfg, s, height).1 <==>
      HonestQuorum(cfg, s.certs, height) && LedFrom(cfg, s.certs, height, ViewOf(s, height))
    ensures Advanced(cfg, s, height, Advance(cfg, s, height).0, Advance(cfg, s, height).1)
    decreases cfg.maxView - ViewOf(s, height)
  {
    var view := ViewOf(s, height);
    HoldsHereOrNext((v: u64) => LedAt(cfg, s.certs, height, v), view, cfg.maxView);
    if LedHonestly(cfg, s, height) {
      HonestViewIsLast(cfg, s, height);
      HonestRoundAdvances(cfg, s, height);
    } else if LeaderOf(cfg, s.certs, height, view).Some? {
      StableTimeout(cfg, s, height);
      OtherViewIsSkipped(cfg, s, height);
      if view < cfg.maxView {
        AdvanceDecides(cfg, TimedOut(cfg, s, height), height);
      }
    } else {
      OrderedFind(cfg, s.certs);
      NoLeaderEver(cfg, s.certs, height, view);
    }
  }

  // ---- the whole run ----

  ghost predicate Live(cfg: Config, certs: seq<Certificate>, height: u64) {
    HonestQuorum(cfg, certs, height) && LedFrom(cfg, certs, height, 0)
  }

  /** The chain of honest rounds up to a height, from the configuration alone. */
  function HonestChain(cfg: Config, height: u64): (certs: seq<Certificate>)
    ensures |certs| == height
  {
    if height == 0 then []
    else
      var below := HonestChain(cfg, height - 1);
      below + [HonestCert(cfg, below, height)]
  }

  lemma OrderGrows(cfg: Config, certs: seq<Certificate>, c: Certificate)
    requires InOrder(cfg, certs) && c.height == |certs| + 1 <= cfg.maxHeight
    ensures InOrder(cfg, certs + [c])
  {
  }

  lemma {:induction false} HonestChainInOrder(cfg: Config, height: u64)
    requires height <= cfg.maxHeight
    ensures InOrder(cfg, HonestChain(cfg, height))
    decreases height
  {
    if height != 0 {
      hide HonestCert;
      var below := HonestChain(cfg, height - 1);
      HonestChainInOrder(cfg, height - 1);
      OrderGrows(cfg, below, HonestCert(cfg, below, height));
    }
  }

  /** The height is live on the chain of honest rounds below it. */
  ghost predicate LiveAt(cfg: Config, height: u64)
    requires height >= MIN_HEIGHT
  {
    Live(cfg, HonestChain(cfg, height - 1), height)
  }

  ghost predicate ZeroViewsFrom(s: State, height: u64) {
    forall g: u64 :: g >= height ==> ViewOf(s, g) == 0
  }

  /** Heights from 1 on, as far as the chain goes, are live. */
  ghost predicate LiveTo(cfg: Config, height: u64) {
    forall h: u64 :: MIN_HEIGHT <= h <= height ==> LiveAt(cfg, h)
  }

  /** The chain of honest rounds, up to the first height that is not live. */
  ghost predicate Reached(cfg: Config, certs: seq<Certificate>) {
    && |certs| <= cfg.maxHeight && certs == HonestChain(cfg, |certs|) && LiveTo(cfg, |certs|)
    && (|certs| < cfg.maxHeight ==> !LiveAt(cfg, |certs| + 1))
  }

  /** The run stands before a height, having decided all below. */
  ghost predicate Standing(cfg: Config, s: State, height: u64) {
    && Fresh(cfg, s, height) && ZeroViewsFrom(s, height)
    && s.certs == HonestChain(cfg, height - 1) && LiveTo(cfg, height - 1)
  }

  lemma StandsNext(cfg: Config, s: State, height: u64, t: State)
    requires Standing(cfg, s, height) && height <= cfg.maxHeight && LiveAt(cfg, height)
    requires Advanced(cfg, s, height, t, true)
    ensures t.certs == HonestChain(cfg, height) && LiveTo(cfg, height)
    ensures height < cfg.maxHeight ==> Standing(cfg, t, height + 1)
  {
    OrderGrows(cfg, s.certs, HonestCert(cfg, s.certs, height));
  }

  lemma StandsLive(cfg: Config, s: State, height: u64)
    requires Standing(cfg, s, height)
    ensures HonestQuorum(cfg, s.certs, height) && LedFrom(cfg, s.certs, height, ViewOf(s, height))
      <==> LiveAt(cfg, height)
  {
  }

  lemma {:induction false} RunFromReaches(cfg: Config, s: State, height: u64)
    requires KeysMatch(cfg) && DistinctParticipants(cfg)
    requires Standing(cfg, s, height) && height <= cfg.maxHeight
    ensures Reached(cfg, RunFrom(cfg, s, height).certs)
    decreases cfg.maxHeight - height
  {
    var t, ok := Advance(cfg, s, height).0, Advance(cfg, s, height).1;
    AdvanceDecides(cfg, s, height);
    StandsLive(cfg, s, height);
    if ok {
      StandsNext(cfg, s, height, t);
      if height < cfg.maxHeight {
        RunFromReaches(cfg, t, height + 1);
      }
    }
  }

  lemma {:induction false} InitialViewsAreZero(height: u64)
    ensures forall g :: g in InitialViews(height) ==> InitialViews(height)[g] == 0
  {
    if height != 0 {
      InitialViewsAreZero(height - 1);
    }
  }

  lemma NewIsStanding(cfg: Config)
    requires MIN_HEIGHT <= cfg.maxHeight
    ensures Standing(cfg, Apply(cfg, Init(cfg), Stabilize), MIN_HEIGHT)
  {
    InitialViewsAreZero(cfg.maxHeight);
  }

  lemma NewRunReaches(cfg: Config)
    requires KeysMatch(cfg) && DistinctParticipants(cfg)
    ensures Reached(cfg, RunAll(cfg, Init(cfg)).certs)
  {
    if MIN_HEIGHT <= cfg.maxHeight {
      NewIsStanding(cfg);
      RunFromReaches(cfg, Apply(cfg, Init(cfg), Stabilize), MIN_HEIGHT);
    }
  }

  /**
   * A run of a new machine returns the chain of honest rounds that the configuration determines, up to the first height
   * that is not live: where, on that chain, the honest members are no quorum or lead no view. So it finalizes every
   * height exactly when all are live.
   */
  lemma RunReaches(cfg: Config)
    requires KeysMatch(cfg) && DistinctParticipants(cfg)
    ensures var certs := RunAll(cfg, Init(cfg)).certs;
      && InOrder(cfg, certs) && certs == HonestChain(cfg, |certs|) && LiveTo(cfg, |certs|)
      && (|certs| < cfg.maxHeight ==> !LiveAt(cfg, |certs| + 1))
      && (|certs| == cfg.maxHeight <==> LiveTo(cfg, cfg.maxHeight))
  {
    var certs := RunAll(cfg, Init(cfg)).certs;
    NewRunReaches(cfg);
    HonestChainInOrder(cfg, |certs|);
  }

  // ---- when a height is live ----

  function Turn(committee: seq<u64>, position: nat): (id: u64)
    requires committee != []
    ensures id in committee
  {
    committee[position % |committee|]
  }

  ghost function Turns(committee: seq<u64>, start: nat, count: nat): set<u64>
    requires committee != []
  {
    if count == 0 then {} else Turns(committee, start, count - 1) + {Turn(committee, start + count - 1)}
  }

  lemma {:induction false} TurnOf(committee: seq<u64>, start: nat, count: nat, x: u64) returns (p: nat)
    requires committee != [] && x in Turns(committee, start, count)
    ensures start <= p < start + count && x == Turn(committee, p)
  {
    p := start + count - 1;
    if x != Turn(committee, p) {
      p := TurnOf(committee, start, count - 1, x);
    }
  }

  /** Consecutive turns fall to different members, until all have had one. */
  lemma {:induction false} TurnsDiffer(committee: seq<u64>, start: nat, count: nat)
    requires committee != [] && Distinct(committee) && count <= |committee|
    ensures |Turns(committee, start, count)| == count
  {
    if count != 0 {
      TurnsDiffer(committee, start, count - 1);
      var last := start + count - 1;
      if Turn(committee, last) in Turns(committee, start, count - 1) {
        var p := TurnOf(committee, start, count - 1, Turn(committee, last));
        RemaindersDiffer(p, last, |committee|);
        assert false;
      }
    }
  }

  lemma RemaindersDiffer(a: nat, b: nat, n: nat)
    requires a < b < a + n
    ensures a % n != b % n
  {
    var q := b / n - a / n;
    assert b - a == q * n + (b % n - a % n);
    assert q >= 1 ==> q * n >= n;
    assert q <= 0 ==> q * n <= 0;
  }

  /** The leader of a view is whoever's turn it is, while the sum of height and view does not wrap. */
  lemma LeaderTakesTurn(committee: seq<u64>, height: u64, view: u64)
    requires height + view < 0x1_0000_0000_0000_0000 && committee != []
    ensures Leader(committee, height, view) == Some(Turn(committee, height + view))
  {
  }

  /** Among more turns than a committee has members outside a set, one falls inside. */
  lemma TurnInside(committee: seq<u64>, inside: set<u64>, start: nat) returns (p: nat)
    requires Distinct(committee) && committee != [] && inside <= IdSet(committee) && inside != {}
    ensures start <= p <= start + |committee| - |inside| && Turn(committee, p) in inside
  {
    DistinctCount(committee);
    var others := IdSet(committee) - inside;
    assert IdSet(committee) == inside + others;
    assert |committee| == |inside| + |others|;
    var count := |others| + 1;
    TurnsDiffer(committee, start, count);
    var x := Outside(Turns(committee, start, count), others);
    p := TurnOf(committee, start, count, x);
  }

  /** The members that are not honest are few enough for the views and heights left. */
  ghost predicate OthersFit(cfg: Config, committee: seq<u64>, height: u64) {
    var others := |committee| - |HonestIn(cfg, committee)|;
    others <= cfg.maxView && height + others < 0x1_0000_0000_0000_0000
  }

  lemma HonestLeaderIn(cfg: Config, committee: seq<u64>, height: u64) returns (view: u64)
    requires Distinct(committee) && committee != [] && HonestIn(cfg, committee) != {}
      && OthersFit(cfg, committee, height)
    ensures view <= cfg.maxView
    ensures Leader(committee, height, view).Some? && FaultOf(cfg, Leader(committee, height, view).value) == Honest
  {
    var p := TurnInside(committee, HonestIn(cfg, committee), height);
    view := p - height;
    LeaderTakesTurn(committee, height, view);
  }

  /** With no fewer views to wait than members that are not honest, some honest member leads. */
  lemma HonestLeaderComes(cfg: Config, certs: seq<Certificate>, height: u64)
    requires DistinctParticipants(cfg)
    requires HonestIn(cfg, CommitteeFor(cfg, certs, height)) != {}
      && OthersFit(cfg, CommitteeFor(cfg, certs, height), height)
    ensures LedFrom(cfg, certs, height, 0)
  {
    CommitteeMembers(cfg, SeedFor(cfg, certs, height));
    assert CommitteeFor(cfg, certs, height) != [];
    var view := HonestLeaderIn(cfg, CommitteeFor(cfg, certs, height), height);
    LedOnce(cfg, certs, height, view);
  }

  /** The committee drawn on the chain of honest rounds has an honest quorum, and few enough other members. */
  ghost predicate QuorumFits(cfg: Config, height: u64)
    requires height >= MIN_HEIGHT
  {
    var certs := HonestChain(cfg, height - 1);
    HonestQuorum(cfg, certs, height) && OthersFit(cfg, CommitteeFor(cfg, certs, height), height)
  }

  /**
   * A new machine finalizes every height, each on its honest block with exactly its honest members, whenever each
   * committee drawn on the chain of honest rounds has an honest quorum and the view bound is no less than its other
   * members.
   */
  lemma RunFinalizesAll(cfg: Config)
    requires KeysMatch(cfg) && DistinctParticipants(cfg)
    requires forall h: u64 :: MIN_HEIGHT <= h <= cfg.maxHeight ==> QuorumFits(cfg, h)
    ensures RunAll(cfg, Init(cfg)).certs == HonestChain(cfg, cfg.maxHeight)
  {
    RunReaches(cfg);
    forall h: u64 | MIN_HEIGHT <= h <= cfg.maxHeight ensures LiveAt(cfg, h) {
      assert QuorumFits(cfg, h);
      HonestLeaderComes(cfg, HonestChain(cfg, h - 1), h);
    }
  }
}
