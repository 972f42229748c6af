/** A run that stalls: one byzantine leader of four splits the honest votes between three valid blocks. */
module BftSplit {
  import opened Wrappers
  import opened Bytes
  import opened IdSets
  import opened Sorting
  import opened Blocks
  import opened BftCore
  import opened BftSteps
  import opened BftSafety
  import opened BftLiveness
  import opened BftRuns

  // ---- the four voters ----

  function Member(id: u64, fault: Fault): Validator {
    Validator(id, Voter, fault, [], [])
  }

  function TheFour(): seq<Validator> {
    [Member(1, Honest), Member(2, Byzantine), Member(3, Honest), Member(4, Honest)]
  }

  /** Four voters, the second of them byzantine, all on every committee, over any primitives, seed and bounds. */
  function FourVoters(prims: Primitives, seed: Bytes32, maxHeight: u64, maxView: u64): Config {
    Config(prims, TheFour(), 4, seed, maxHeight, maxView)
  }

  lemma {:induction false} VotingInit(ps: seq<Validator>)
    requires forall v :: v in ps ==> v.role == Voter
    ensures |VotingIds(ps)| == |ps|
  {
    if ps != [] {
      VotingInit(ps[1..]);
    }
  }

  lemma FourInOrder(ids: seq<u64>)
    requires |ids| == 4 && Distinct(ids) && SortedBy(ById(), ids) && forall id :: id in ids ==> 1 <= id <= 4
    ensures ids == [1, 2, 3, 4]
  {
    assert forall i, j :: 0 <= i < j < 4 ==> ById()(ids[i], ids[j]) && ids[i] != ids[j];
    assert ids[0] < ids[1] < ids[2] < ids[3];
    assert ids[0] in ids && ids[3] in ids;
  }

  lemma FourFound(id: u64)
    ensures Get(TheFour(), id).Some? ==> 1 <= id <= 4
    ensures 1 <= id <= 4 ==> Get(TheFour(), id) == Some(TheFour()[id - 1])
  {
    var ps := TheFour();
    assert forall v :: v in ps ==> 1 <= v.id <= 4;
    if 1 <= id <= 4 {
      assert ps[id - 1] in ps && ps[id - 1].id == id;
      GetDistinct(ps, ps[id - 1]);
    }
  }

  lemma CommitteeOfFour(prims: Primitives, seed: Bytes32, maxHeight: u64, maxView: u64)
    ensures SampleCommittee(FourVoters(prims, seed, maxHeight, maxView), seed) == [1, 2, 3, 4]
  {
    var cfg := FourVoters(prims, seed, maxHeight, maxView);
    VotingInit(TheFour());
    CommitteeMembers(cfg, seed);
    CommitteeAscends(cfg, seed);
    forall id | id in SampleCommittee(cfg, seed) ensures 1 <= id <= 4 {
      FourFound(id);
    }
    FourInOrder(SampleCommittee(cfg, seed));
  }

  /** What the run needs to know of them: who sits at height 1, who leads view 0, and who is honest. */
  ghost predicate Seated(cfg: Config, x: u64, fault: Fault) {
    x in CommitteeFor(cfg, [], 1) && Get(cfg.participants, x).Some? && FaultOf(cfg, x) == fault
  }

  ghost predicate OneInFour(cfg: Config) {
    && cfg.maxHeight >= 1 && LeaderOf(cfg, [], 1, 0) == Some(2) && |CommitteeFor(cfg, [], 1)| == 4
    && (forall x :: x in CommitteeFor(cfg, [], 1) ==> x == 1 || x == 2 || x == 3 || x == 4)
    && Seated(cfg, 1, Honest) && Seated(cfg, 2, Byzantine) && Seated(cfg, 3, Honest) && Seated(cfg, 4, Honest)
  }

  lemma SeatOf(cfg: Config, id: u64)
    requires cfg.participants == TheFour() && id in CommitteeFor(cfg, [], 1) && 1 <= id <= 4
    ensures Seated(cfg, id, TheFour()[id - 1].fault)
  {
    FourFound(id);
  }

  lemma SecondLeads(committee: seq<u64>)
    requires committee == [1, 2, 3, 4]
    ensures Leader(committee, 1, 0) == Some(2)
    ensures 1 in committee && 2 in committee && 3 in committee && 4 in committee
    ensures forall x :: x in committee ==> x == 1 || x == 2 || x == 3 || x == 4
  {
  }

  lemma FaultsOfFour()
    ensures var ps := TheFour(); ps[0].fault == ps[2].fault == ps[3].fault == Honest && ps[1].fault == Byzantine
  {
  }

  lemma FourVotersAre(prims: Primitives, seed: Bytes32, maxHeight: u64, maxView: u64)
    requires maxHeight >= 1
    ensures OneInFour(FourVoters(prims, seed, maxHeight, maxView))
  {
    var cfg := FourVoters(prims, seed, maxHeight, maxView);
    CommitteeOfFour(prims, seed, maxHeight, maxView);
    FourSeated(cfg);
  }

  lemma FourSeated(cfg: Config)
    requires cfg.maxHeight >= 1 && cfg.participants == TheFour() && CommitteeFor(cfg, [], 1) == [1, 2, 3, 4]
    ensures OneInFour(cfg)
  {
    SecondLeads(CommitteeFor(cfg, [], 1));
    FaultsOfFour();
    SeatOf(cfg, 1);
    SeatOf(cfg, 2);
    SeatOf(cfg, 3);
    SeatOf(cfg, 4);
  }

  // ---- the steps ----

  /** Three more actions of a run. */
  function Thrice(cfg: Config, s: State, a: Action, b: Action, c: Action): State {
    Apply(cfg, Apply(cfg, Apply(cfg, s, a), b), c)
  }

  lemma OneByOne<T>(s: seq<T>, a: T, b: T, c: T)
    ensures s + [a, b, c] == s + [a] + [b] + [c]
  {
  }

  lemma RunThrice(cfg: Config, actions: seq<Action>, a: Action, b: Action, c: Action)
    ensures Run(cfg, actions + [a, b, c]) == Thrice(cfg, Run(cfg, actions), a, b, c)
  {
    OneByOne(actions, a, b, c);
    RunNext(cfg, actions, a);
    RunNext(cfg, actions + [a], b);
    RunNext(cfg, actions + [a] + [b], c);
  }

  /** No certificate yet, view zero at height 1, and these messages. */
  ghost predicate Holding(s: State, msgs: seq<Message>) {
    s.certs == [] && s.msgs == msgs && ViewOf(s, 1) == 0
  }

  lemma OpenAtOne(cfg: Config)
    requires cfg.maxHeight >= 1
    ensures Working(cfg, [], 1)
  {
  }

  function Proposal(block: Block): Message {
    Propose(2, 1, 0, block)
  }

  lemma ProposeNext(cfg: Config, s: State, msgs: seq<Message>, block: Block)
    requires OneInFour(cfg) && Holding(s, msgs) && block.height == 1 && Proposal(block) !in msgs
    ensures Holding(Apply(cfg, s, ByzPropose(1, block)), msgs + [Proposal(block)])
  {
    OpenAtOne(cfg);
  }

  function VoteBy(cfg: Config, x: u64, block: Block): Message
    requires Get(cfg.participants, x).Some?
  {
    Vote(Attest(cfg, Get(cfg.participants, x).value, 1, block))
  }

  lemma SeenAtOne(cfg: Config, s: State, msgs: seq<Message>, block: Block)
    requires OneInFour(cfg) && Holding(s, msgs) && Proposal(block) in msgs
    ensures SawProposal(cfg, s, 1, block)
  {
    assert Proposal(block) in s.msgs;
  }

  ghost predicate NotYet(msgs: seq<Message>, x: u64) {
    forall m :: m in msgs && m.Vote? ==> m.attestation.from != x
  }

  lemma StillNotYet(cfg: Config, msgs: seq<Message>, x: u64, y: u64, block: Block)
    requires NotYet(msgs, x) && x != y && Get(cfg.participants, y).Some?
    ensures NotYet(msgs + [VoteBy(cfg, y, block)], x)
  {
  }

  lemma VoteNext(cfg: Config, s: State, msgs: seq<Message>, x: u64, block: Block)
    requires OneInFour(cfg) && Holding(s, msgs) && Seated(cfg, x, Honest) && NotYet(msgs, x)
    requires ValidBlock([], block, 1) && Proposal(block) in msgs
    ensures Holding(Apply(cfg, s, HonestVote(x, 1, block)), msgs + [VoteBy(cfg, x, block)])
  {
    OpenAtOne(cfg);
    SeenAtOne(cfg, s, msgs, block);
    NoneByYet(s, msgs, x, block);
    CastIsVoted(cfg, s, x, 1, block);
    assert VoteBy(cfg, x, block) !in msgs;
  }

  lemma NoneByYet(s: State, msgs: seq<Message>, x: u64, block: Block)
    requires s.msgs == msgs && NotYet(msgs, x)
    ensures !VotedOther(s.msgs, x, 1, block)
  {
  }

  /** Three different blocks, all valid at height 1. */
  ghost predicate ThreeBlocks(b1: Block, b2: Block, b3: Block) {
    && b1 != b2 && b1 != b3 && b2 != b3
    && ValidBlock([], b1, 1) && ValidBlock([], b2, 1) && ValidBlock([], b3, 1)
  }

  lemma StillNotThere(msgs: seq<Message>, block: Block, other: Block)
    requires Proposal(other) !in msgs && block != other
    ensures Proposal(other) !in msgs + [Proposal(block)]
  {
  }

  lemma AllProposed(cfg: Config, s: State, msgs: seq<Message>, b1: Block, b2: Block, b3: Block)
    requires OneInFour(cfg) && ThreeBlocks(b1, b2, b3) && Holding(s, msgs)
    requires Proposal(b1) !in msgs && Proposal(b2) !in msgs && Proposal(b3) !in msgs
    ensures Holding(Thrice(cfg, s, ByzPropose(1, b1), ByzPropose(1, b2), ByzPropose(1, b3)),
                    msgs + [Proposal(b1)] + [Proposal(b2)] + [Proposal(b3)])
  {
    var t := Apply(cfg, s, ByzPropose(1, b1));
    var u := Apply(cfg, t, ByzPropose(1, b2));
    var first := msgs + [Proposal(b1)];
    ProposeNext(cfg, s, msgs, b1);
    StillNotThere(msgs, b1, b2);
    ProposeNext(cfg, t, first, b2);
    StillNotThere(msgs, b1, b3);
    StillNotThere(first, b2, b3);
    ProposeNext(cfg, u, first + [Proposal(b2)], b3);
  }

  ghost predicate AllThere(msgs: seq<Message>, b1: Block, b2: Block, b3: Block) {
    Proposal(b1) in msgs && Proposal(b2) in msgs && Proposal(b3) in msgs
  }

  lemma AllVoted(cfg: Config, s: State, msgs: seq<Message>, b1: Block, b2: Block, b3: Block)
    requires OneInFour(cfg) && ThreeBlocks(b1, b2, b3) && Holding(s, msgs)
    requires AllThere(msgs, b1, b2, b3) && NotYet(msgs, 1) && NotYet(msgs, 3) && NotYet(msgs, 4)
    ensures Holding(Thrice(cfg, s, HonestVote(1, 1, b1), HonestVote(3, 1, b2), HonestVote(4, 1, b3)),
                    msgs + [VoteBy(cfg, 1, b1)] + [VoteBy(cfg, 3, b2)] + [VoteBy(cfg, 4, b3)])
  {
    var t := Apply(cfg, s, HonestVote(1, 1, b1));
    var u := Apply(cfg, t, HonestVote(3, 1, b2));
    var first := msgs + [VoteBy(cfg, 1, b1)];
    var both := first + [VoteBy(cfg, 3, b2)];
    VoteNext(cfg, s, msgs, 1, b1);
    StillNotYet(cfg, msgs, 3, 1, b1);
    VoteNext(cfg, t, first, 3, b2);
    StillNotYet(cfg, msgs, 4, 1, b1);
    StillNotYet(cfg, first, 4, 3, b2);
    VoteNext(cfg, u, both, 4, b3);
  }

  // ---- the stall ----

  /** Each honest member voted for a block of its own. */
  ghost predicate Split(cfg: Config, s: State, b1: Block, b2: Block, b3: Block) {
    VotedFor(s.msgs, 1, 1, b1) && VotedFor(s.msgs, 3, 1, b2) && VotedFor(s.msgs, 4, 1, b3)
  }

  lemma VotedIsOther(msgs: seq<Message>, x: u64, voted: Block, block: Block)
    requires VotedFor(msgs, x, 1, voted) && block != voted
    ensures VotedOther(msgs, x, 1, block)
  {
    var a :| HasVote(msgs, a) && a.from == x && a.height == 1 && a.block == voted;
    assert Vote(a) in msgs;
  }

  lemma AtMostTwo(free: set<u64>, x: u64)
    requires forall y :: y in free ==> y == 2 || y == x
    ensures |free| <= 2
  {
    SubsetCount(free, {2, x});
  }

  /** At most the byzantine member and one honest one are left to any block. */
  lemma FewFree(cfg: Config, s: State, b1: Block, b2: Block, b3: Block, block: Block)
    requires OneInFour(cfg) && ThreeBlocks(b1, b2, b3) && s.certs == [] && Split(cfg, s, b1, b2, b3)
    ensures |FreeFor(cfg, s, 1, block)| <= 2
  {
    if block != b1 { VotedIsOther(s.msgs, 1, b1, block); }
    if block != b2 { VotedIsOther(s.msgs, 3, b2, block); }
    if block != b3 { VotedIsOther(s.msgs, 4, b3, block); }
    AtMostTwo(FreeFor(cfg, s, 1, block), if block == b1 then 1 else if block == b2 then 3 else 4);
  }

  lemma OneOfFour(cfg: Config)
    requires OneInFour(cfg)
    ensures FaultBound(cfg, [], 1)
  {
    AtMostTwo(ByzantineIn(cfg, CommitteeFor(cfg, [], 1)), 2);
    SubsetCount(ByzantineIn(cfg, CommitteeFor(cfg, [], 1)), {2});
  }

  /** View 0's leader proposes three blocks. */
  function ProposeAll(b1: Block, b2: Block, b3: Block): seq<Action> {
    [ByzPropose(1, b1), ByzPropose(1, b2), ByzPropose(1, b3)]
  }

  /** Then each honest member votes for a different one. */
  function SplitRun(b1: Block, b2: Block, b3: Block): seq<Action> {
    ProposeAll(b1, b2, b3) + [HonestVote(1, 1, b1), HonestVote(3, 1, b2), HonestVote(4, 1, b3)]
  }

  lemma FromNothing<T>(s: seq<T>)
    ensures [] + s == s
  {
  }

  lemma InitialHolds(cfg: Config)
    ensures Holding(Run(cfg, []), [])
  {
    InitialViewsAreZero(cfg.maxHeight);
  }

  /** The three proposals, and nothing else. */
  ghost predicate OnlyThese(msgs: seq<Message>, b1: Block, b2: Block, b3: Block) {
    AllThere(msgs, b1, b2, b3) && NotYet(msgs, 1) && NotYet(msgs, 3) && NotYet(msgs, 4)
  }

  lemma TheseThree(b1: Block, b2: Block, b3: Block)
    ensures OnlyThese([] + [Proposal(b1)] + [Proposal(b2)] + [Proposal(b3)], b1, b2, b3)
  {
    FromNothing([Proposal(b1)]);
  }

  lemma ProposeAllRuns(cfg: Config, b1: Block, b2: Block, b3: Block) returns (msgs: seq<Message>)
    requires OneInFour(cfg) && ThreeBlocks(b1, b2, b3)
    ensures Holding(Run(cfg, ProposeAll(b1, b2, b3)), msgs) && OnlyThese(msgs, b1, b2, b3)
  {
    InitialHolds(cfg);
    RunThrice(cfg, [], ByzPropose(1, b1), ByzPropose(1, b2), ByzPropose(1, b3));
    FromNothing(ProposeAll(b1, b2, b3));
    AllProposed(cfg, Run(cfg, []), [], b1, b2, b3);
    TheseThree(b1, b2, b3);
    msgs := [] + [Proposal(b1)] + [Proposal(b2)] + [Proposal(b3)];
  }

  lemma VotesSplit(cfg: Config, s: State, msgs: seq<Message>, b1: Block, b2: Block, b3: Block)
    requires OneInFour(cfg) && ThreeBlocks(b1, b2, b3) && Holding(s, msgs) && OnlyThese(msgs, b1, b2, b3)
    ensures var t := Thrice(cfg, s, HonestVote(1, 1, b1), HonestVote(3, 1, b2), HonestVote(4, 1, b3));
      t.certs == [] && Split(cfg, t, b1, b2, b3)
  {
    AllVoted(cfg, s, msgs, b1, b2, b3);
    ThreeVotes(cfg, Thrice(cfg, s, HonestVote(1, 1, b1), HonestVote(3, 1, b2), HonestVote(4, 1, b3)), msgs, b1, b2, b3);
  }

  lemma SplitRunSplits(cfg: Config, b1: Block, b2: Block, b3: Block)
    requires OneInFour(cfg) && ThreeBlocks(b1, b2, b3)
    ensures var s := Run(cfg, SplitRun(b1, b2, b3)); s.certs == [] && Split(cfg, s, b1, b2, b3)
  {
    var msgs := ProposeAllRuns(cfg, b1, b2, b3);
    RunThrice(cfg, ProposeAll(b1, b2, b3), HonestVote(1, 1, b1), HonestVote(3, 1, b2), HonestVote(4, 1, b3));
    VotesSplit(cfg, Run(cfg, ProposeAll(b1, b2, b3)), msgs, b1, b2, b3);
  }

  lemma ThreeVotes(cfg: Config, s: State, msgs: seq<Message>, b1: Block, b2: Block, b3: Block)
    requires OneInFour(cfg)
    requires s.msgs == msgs + [VoteBy(cfg, 1, b1)] + [VoteBy(cfg, 3, b2)] + [VoteBy(cfg, 4, b3)]
    ensures Split(cfg, s, b1, b2, b3)
  {
    assert HasVote(s.msgs, VoteBy(cfg, 1, b1).attestation);
    assert HasVote(s.msgs, VoteBy(cfg, 3, b2).attestation);
    assert HasVote(s.msgs, VoteBy(cfg, 4, b3).attestation);
  }

  /** Three such blocks, by their value. */
  function Candidate(k: u8): Block {
    Block(1, seq(32, _ => k), Genesis, 1)
  }

  lemma CandidatesDiffer()
    ensures ThreeBlocks(Candidate(1), Candidate(2), Candidate(3))
  {
    assert Candidate(1).val[0] == 1 && Candidate(2).val[0] == 2 && Candidate(3).val[0] == 3;
  }

  lemma SplitStalls(cfg: Config, b1: Block, b2: Block, b3: Block, more: seq<Action>)
    requires OneInFour(cfg) && ThreeBlocks(b1, b2, b3)
    ensures var s := Run(cfg, SplitRun(b1, b2, b3));
      && |s.certs| == 0 && FaultBound(cfg, s.certs, 1) && |CommitteeFor(cfg, s.certs, 1)| == 4
      && (forall block :: 3 * |FreeFor(cfg, s, 1, block)| <= 2 * |CommitteeFor(cfg, s.certs, 1)|)
      && !Decided(Run(cfg, SplitRun(b1, b2, b3) + more).certs, 1)
  {
    var s := Run(cfg, SplitRun(b1, b2, b3));
    SplitRunSplits(cfg, b1, b2, b3);
    OneOfFour(cfg);
    forall block ensures 3 * |FreeFor(cfg, s, 1, block)| <= 2 * |CommitteeFor(cfg, s.certs, 1)| {
      FewFree(cfg, s, b1, b2, b3, block);
    }
    SplitVotesStall(cfg, SplitRun(b1, b2, b3), more, 1);
  }

  lemma FourDistinct(cfg: Config)
    requires cfg.participants == TheFour()
    ensures DistinctParticipants(cfg)
  {
  }

  /**
   * One byzantine member of four, within the fault bound, leads view 0 and proposes three valid blocks; each honest
   * member votes for a different one. Then no continuation of any kind decides the height.
   */
  lemma OneLeaderStalls(prims: Primitives, seed: Bytes32, maxHeight: u64, maxView: u64, more: seq<Action>)
    requires maxHeight >= 1
    ensures var cfg := FourVoters(prims, seed, maxHeight, maxView);
      var split := SplitRun(Candidate(1), Candidate(2), Candidate(3));
      var s := Run(cfg, split);
      && DistinctParticipants(cfg)
      && |s.certs| == 0 && FaultBound(cfg, s.certs, 1) && |CommitteeFor(cfg, s.certs, 1)| == 4
      && (forall block :: 3 * |FreeFor(cfg, s, 1, block)| <= 2 * |CommitteeFor(cfg, s.certs, 1)|)
      && !Decided(Run(cfg, split + more).certs, 1)
  {
    FourVotersAre(prims, seed, maxHeight, maxView);
    FourDistinct(FourVoters(prims, seed, maxHeight, maxView));
    CandidatesDiffer();
    SplitStalls(FourVoters(prims, seed, maxHeight, maxView), Candidate(1), Candidate(2), Candidate(3), more);
  }
}
