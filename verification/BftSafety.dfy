/** Safety of the stage one machine over every run: agreement of votes, validity and descent of what is final. */
module BftSafety {
  import opened Wrappers
  import opened Bytes
  import opened IdSets
  import opened Sorting
  import opened Blocks
  import opened BftCore
  import opened BftSteps

  // ---- the invariant ----

  ghost predicate InOrder(cfg: Config, certs: seq<Certificate>) {
    && |certs| <= cfg.maxHeight
    && forall i :: 0 <= i < |certs| ==> certs[i].height == i + 1
  }

  /** The vote was cast when its height was open, by a committee member, and if honest for a valid block. */
  ghost predicate VoteSound(cfg: Config, certs: seq<Certificate>, a: Attestation) {
    && MIN_HEIGHT <= a.height <= cfg.maxHeight && a.height <= |certs| + 1
    && a.block.height == a.height
    && a.from in CommitteeFor(cfg, certs, a.height)
    && FaultOf(cfg, a.from) != Offline
    && (FaultOf(cfg, a.from) == Honest ==> ValidBlock(certs, a.block, a.height))
    && Get(cfg.participants, a.from).Some? && a == Attest(cfg, Get(cfg.participants, a.from).value, a.height, a.block)
  }

  ghost predicate VotesSound(cfg: Config, msgs: seq<Message>, certs: seq<Certificate>) {
    forall a :: HasVote(msgs, a) ==> VoteSound(cfg, certs, a)
  }

  ghost predicate HonestVoteOnce(cfg: Config, msgs: seq<Message>) {
    forall a, b ::
      HasVote(msgs, a) && HasVote(msgs, b) && a.from == b.from && a.height == b.height && FaultOf(cfg, a.from) == Honest
      ==> a.block == b.block
  }

  ghost predicate VotedFor(msgs: seq<Message>, x: u64, height: u64, block: Block) {
    exists a :: HasVote(msgs, a) && a.from == x && a.height == height && a.block == block
  }

  /** More than two thirds of the committee, each counted once, voted for the certificate's block. */
  ghost predicate CertSound(cfg: Config, msgs: seq<Message>, certs: seq<Certificate>, c: Certificate) {
    && c.block.height == c.height
    && Distinct(c.attesters) && 3 * |c.attesters| > 2 * |CommitteeFor(cfg, certs, c.height)|
    && forall x :: x in c.attesters ==> x in CommitteeFor(cfg, certs, c.height) && VotedFor(msgs, x, c.height, c.block)
  }

  ghost predicate Safe(cfg: Config, msgs: seq<Message>, certs: seq<Certificate>) {
    && InOrder(cfg, certs)
    && VotesSound(cfg, msgs, certs)
    && HonestVoteOnce(cfg, msgs)
    && forall c :: c in certs ==> CertSound(cfg, msgs, certs, c)
  }

  // ---- certificates in order ----

  lemma {:induction false} FindAt(certs: seq<Certificate>, start: nat, height: u64)
    requires forall i :: 0 <= i < |certs| ==> certs[i].height == start + i + 1
    ensures FindCert(certs, height) == if start < height <= start + |certs| then Some(certs[height - start - 1])
      else None
  {
    if certs != [] {
      FindAt(certs[1..], start + 1, height);
    }
  }

  lemma OrderedFind(cfg: Config, certs: seq<Certificate>)
    requires InOrder(cfg, certs)
    ensures forall h: u64 :: FindCert(certs, h) == if 1 <= h <= |certs| then Some(certs[h - 1]) else None
    ensures forall h: u64 :: BelowDecided(certs, h) <==> h <= |certs| + 1
    ensures forall h: u64 :: Working(cfg, certs, h) <==> h == |certs| + 1 && h <= cfg.maxHeight
  {
    forall h: u64 ensures FindCert(certs, h) == if 1 <= h <= |certs| then Some(certs[h - 1]) else None {
      FindAt(certs, 0, h);
    }
    forall h: u64 ensures BelowDecided(certs, h) <==> h <= |certs| + 1 {
      if h > |certs| + 1 {
        var g: u64 := |certs| + 1;
        assert !Decided(certs, g);
      }
    }
  }

  lemma {:induction false} SeedStable(cfg: Config, certs: seq<Certificate>, more: seq<Certificate>, seed: Bytes32,
                                      g: u64, height: u64)
    requires forall h: u64 :: h < height ==> FindCert(certs, h) == FindCert(more, h)
    ensures SeedFrom(cfg, certs, seed, g, height) == SeedFrom(cfg, more, seed, g, height)
    decreases height - g
  {
    if g < height && FindCert(certs, g).Some? {
      SeedStable(cfg, certs, more, Beacon(cfg, FindCert(certs, g).value, seed), g + 1, height);
    }
  }

  /** One more certificate changes neither the seed, the committee nor the parent of any height up to its own. */
  lemma PastIsFixed(cfg: Config, certs: seq<Certificate>, c: Certificate, height: u64)
    requires InOrder(cfg, certs) && InOrder(cfg, certs + [c]) && height <= |certs| + 1
    ensures SeedFor(cfg, certs + [c], height) == SeedFor(cfg, certs, height)
    ensures CommitteeFor(cfg, certs + [c], height) == CommitteeFor(cfg, certs, height)
    ensures height >= MIN_HEIGHT ==> ParentVal(certs + [c], height) == ParentVal(certs, height)
  {
    OrderedFind(cfg, certs);
    OrderedFind(cfg, certs + [c]);
    SeedStable(cfg, certs, certs + [c], cfg.genesisSeed, MIN_HEIGHT, height);
  }

  // ---- what a seed says of the chain below it ----

  /** One height up, the seed is the hash of the seed below with the block and the attesters decided there. */
  lemma {:induction false} SeedNext(cfg: Config, certs: seq<Certificate>, seed: Bytes32, g: u64, height: u64)
    requires g <= height < U64_MAX && Decided(certs, height) && forall k: u64 :: g <= k < height ==> Decided(certs, k)
    ensures var c, previous := FindCert(certs, height).value, SeedFrom(cfg, certs, seed, g, height);
      SeedFrom(cfg, certs, seed, g, height + 1)
      == cfg.prims.hash(previous + c.block.ToBytes() + IdBytes(c.attesters))
    decreases height - g
  {
    hide IdBytes, LittleEndian, FindCert;
    if g < height {
      assert Decided(certs, g);
      SeedNext(cfg, certs, Beacon(cfg, FindCert(certs, g).value, seed), g + 1, height);
    }
  }

  /** The hash input of the seed above a decided height. */
  function SeedInput(cfg: Config, certs: seq<Certificate>, height: u64): seq<u8>
    requires Decided(certs, height)
  {
    BeaconInput(FindCert(certs, height).value, SeedFor(cfg, certs, height))
  }

  ghost predicate SameBelow(certs: seq<Certificate>, others: seq<Certificate>, height: u64)
    requires BelowDecided(certs, height) && BelowDecided(others, height)
  {
    forall g: u64 :: MIN_HEIGHT <= g < height ==>
      assert Decided(certs, g) && Decided(others, g);
      && FindCert(certs, g).value.block == FindCert(others, g).value.block
      && FindCert(certs, g).value.attesters == FindCert(others, g).value.attesters
  }

  /** The highest different seed inputs below a height that have one hash. */
  function SeedCollision(cfg: Config, certs: seq<Certificate>, others: seq<Certificate>, height: u64)
    : (c: Option<(seq<u8>, seq<u8>)>)
    requires forall g: u64 :: MIN_HEIGHT <= g < height ==> Decided(certs, g) && Decided(others, g)
    ensures c.Some? ==> c.value.0 != c.value.1 && cfg.prims.hash(c.value.0) == cfg.prims.hash(c.value.1)
    decreases height
  {
    if height <= MIN_HEIGHT then None
    else
      var x, y := SeedInput(cfg, certs, height - 1), SeedInput(cfg, others, height - 1);
      if x != y && cfg.prims.hash(x) == cfg.prims.hash(y) then Some((x, y))
      else SeedCollision(cfg, certs, others, height - 1)
  }

  /** One height: equal seeds above it come from one seed, block and attesters there, or the two inputs collide. */
  lemma SeedBindsAt(cfg: Config, certs: seq<Certificate>, others: seq<Certificate>, g: u64)
    requires MIN_HEIGHT <= g < U64_MAX && BelowDecided(certs, g + 1) && BelowDecided(others, g + 1)
    requires Decided(certs, g) && Decided(others, g)
    requires SeedFor(cfg, certs, g + 1) == SeedFor(cfg, others, g + 1)
    ensures cfg.prims.hash(SeedInput(cfg, certs, g)) == cfg.prims.hash(SeedInput(cfg, others, g))
    ensures SeedInput(cfg, certs, g) == SeedInput(cfg, others, g) ==>
      && SeedFor(cfg, certs, g) == SeedFor(cfg, others, g)
      && FindCert(certs, g).value.block == FindCert(others, g).value.block
      && FindCert(certs, g).value.attesters == FindCert(others, g).value.attesters
  {
    SeedNext(cfg, certs, cfg.genesisSeed, MIN_HEIGHT, g);
    SeedNext(cfg, others, cfg.genesisSeed, MIN_HEIGHT, g);
    hide SeedFrom;
    if SeedInput(cfg, certs, g) == SeedInput(cfg, others, g) {
      BeaconInputInjective(FindCert(certs, g).value, SeedFor(cfg, certs, g),
                           FindCert(others, g).value, SeedFor(cfg, others, g));
    }
  }

  /**
   * A seed binds the chain below it: two chains with one seed at a height have the same blocks and attesters at every
   * height below, or `SeedCollision` computes two inputs with one hash.
   */
  lemma {:induction false} SeedBinds(cfg: Config, certs: seq<Certificate>, others: seq<Certificate>, height: u64)
    requires BelowDecided(certs, height) && BelowDecided(others, height) && height >= MIN_HEIGHT
    requires SeedFor(cfg, certs, height) == SeedFor(cfg, others, height)
    ensures SameBelow(certs, others, height) || SeedCollision(cfg, certs, others, height).Some?
    decreases height
  {
    hide SeedFrom, SeedFor, SeedInput;
    if height > MIN_HEIGHT && SeedCollision(cfg, certs, others, height).None? {
      var g := height - 1;
      assert Decided(certs, g) && Decided(others, g);
      SeedBindsAt(cfg, certs, others, g);
      SeedBinds(cfg, certs, others, g);
    }
  }

  /**
   * So does an honest block: two chains on which honest leaders propose one value at a height are the same below it, or
   * two inputs of the hash, of seeds or of values, are computed that collide.
   */
  lemma HonestValueBinds(cfg: Config, certs: seq<Certificate>, others: seq<Certificate>, height: u64)
    requires BelowDecided(certs, height) && BelowDecided(others, height) && height >= MIN_HEIGHT
    requires HonestBlock(cfg, certs, height).val == HonestBlock(cfg, others, height).val
    ensures var x, y := SeedFor(cfg, certs, height), SeedFor(cfg, others, height);
      || SameBelow(certs, others, height) || SeedCollision(cfg, certs, others, height).Some?
      || (x + Ascii("HONEST-VAL") != y + Ascii("HONEST-VAL")
          && cfg.prims.hash(x + Ascii("HONEST-VAL")) == cfg.prims.hash(y + Ascii("HONEST-VAL")))
  {
    hide SeedFor, SeedFrom, ParentVal;
    var x, y := SeedFor(cfg, certs, height), SeedFor(cfg, others, height);
    if x == y {
      SeedBinds(cfg, certs, others, height);
    } else if x + Ascii("HONEST-VAL") == y + Ascii("HONEST-VAL") {
      SplitConcat(x, Ascii("HONEST-VAL"), y, Ascii("HONEST-VAL"));
    }
  }

  // ---- the invariant is kept ----

  lemma KeptByVote(cfg: Config, msgs: seq<Message>, certs: seq<Certificate>, a: Attestation)
    requires Safe(cfg, msgs, certs) && VoteSound(cfg, certs, a)
    requires FaultOf(cfg, a.from) == Honest ==> !VotedOther(msgs, a.from, a.height, a.block)
    ensures Safe(cfg, msgs + [Vote(a)], certs)
  {
    var next := msgs + [Vote(a)];
    forall b ensures HasVote(next, b) <==> b == a || HasVote(msgs, b) {
    }
    forall b, c | HasVote(next, b) && HasVote(next, c) && b.from == c.from && b.height == c.height
      && FaultOf(cfg, b.from) == Honest
      ensures b.block == c.block
    {
      if b == a && c != a { assert Vote(c) in msgs; }
      if c == a && b != a { assert Vote(b) in msgs; }
    }
    forall c | c in certs ensures CertSound(cfg, next, certs, c) {
      VotesRemain(cfg, msgs, next, certs, c);
    }
  }

  lemma VotesRemain(cfg: Config, msgs: seq<Message>, next: seq<Message>, certs: seq<Certificate>, c: Certificate)
    requires CertSound(cfg, msgs, certs, c)
    requires forall b :: HasVote(msgs, b) ==> HasVote(next, b)
    ensures CertSound(cfg, next, certs, c)
  {
    forall x | x in c.attesters ensures VotedFor(next, x, c.height, c.block) {
      assert VotedFor(msgs, x, c.height, c.block);
    }
  }

  lemma KeptByProposal(cfg: Config, msgs: seq<Message>, certs: seq<Certificate>, m: Message)
    requires Safe(cfg, msgs, certs) && m.Propose?
    ensures Safe(cfg, msgs + [m], certs)
  {
    var next := msgs + [m];
    forall b ensures HasVote(next, b) <==> HasVote(msgs, b) {
    }
    forall c | c in certs ensures CertSound(cfg, next, certs, c) {
      VotesRemain(cfg, msgs, next, certs, c);
    }
  }

  lemma {:induction false} CountedSound(cfg: Config, height: u64, block: Block, committee: seq<u64>,
                                        votes: seq<Attestation>)
    ensures Distinct(Counted(cfg, height, block, committee, votes))
    ensures forall x :: x in Counted(cfg, height, block, committee, votes) ==>
      x in committee
      && exists a :: a in votes && a.from == x && a.height == height && a.block == block && SignedInSet(cfg, a)
  {
    if votes != [] {
      var init, last := votes[..|votes| - 1], votes[|votes| - 1];
      assert votes == init + [last];
      CountedSound(cfg, height, block, committee, init);
    }
  }

  lemma {:induction false} CountedComplete(cfg: Config, height: u64, block: Block, committee: seq<u64>,
                                           votes: seq<Attestation>, a: Attestation)
    requires a in votes && a.height == height && a.block == block && a.from in committee && SignedInSet(cfg, a)
    ensures a.from in Counted(cfg, height, block, committee, votes)
  {
    var init, last := votes[..|votes| - 1], votes[|votes| - 1];
    assert votes == init + [last];
    if a in init {
      CountedComplete(cfg, height, block, committee, init, a);
    }
  }

  /** The committee members with a verified vote for the block in the list. */
  ghost function Supporters(cfg: Config, height: u64, block: Block, committee: seq<u64>,
                            votes: seq<Attestation>): set<u64> {
    set x | x in committee && Get(cfg.participants, x).Some?
            && exists a :: a in votes && a.from == x && a.height == height && a.block == block
                           && cfg.prims.verify(Get(cfg.participants, x).value.publicKey,
                                               LittleEndian(height, 8) + block.ToBytes(), a.sig)
  }

  /**
   * A certificate forms exactly when those members are a quorum and the block is for the height, and then it lists
   * exactly them.
   */
  lemma AggregatedExactly(cfg: Config, height: u64, block: Block, committee: seq<u64>, votes: seq<Attestation>)
    ensures var c := Aggregated(cfg, height, block, committee, votes);
      var supporters := Supporters(cfg, height, block, committee, votes);
      && (c.Some? <==> block.height == height && 3 * |supporters| > 2 * |committee|)
      && (c.Some? ==> c.value.height == height && c.value.block == block
                      && IdSet(c.value.attesters) == supporters && |c.value.attesters| == |supporters|)
  {
    var ids := Counted(cfg, height, block, committee, votes);
    CountedSound(cfg, height, block, committee, votes);
    forall x | x in Supporters(cfg, height, block, committee, votes) ensures x in ids {
      var a :| a in votes && a.from == x && a.height == height && a.block == block && SignedInSet(cfg, a);
      CountedComplete(cfg, height, block, committee, votes, a);
    }
    assert IdSet(ids) == Supporters(cfg, height, block, committee, votes);
    DistinctCount(ids);
    SortKeeps(ById(), ids);
    assert IdSet(SortBy(ById(), ids)) == IdSet(ids);
  }

  lemma AggregatedSound(cfg: Config, msgs: seq<Message>, certs: seq<Certificate>, height: u64, block: Block)
    requires Aggregated(cfg, height, block, CommitteeFor(cfg, certs, height), VotesFor(msgs, height, block)).Some?
    ensures var c := Aggregated(cfg, height, block, CommitteeFor(cfg, certs, height),
                                VotesFor(msgs, height, block)).value;
      c.height == height && c.block == block && CertSound(cfg, msgs, certs, c)
  {
    var committee, votes := CommitteeFor(cfg, certs, height), VotesFor(msgs, height, block);
    var ids := Counted(cfg, height, block, committee, votes);
    CountedSound(cfg, height, block, committee, votes);
    SortKeeps(ById(), ids);
    forall x | x in ids ensures VotedFor(msgs, x, height, block) {
      var a :| a in votes && a.from == x && a.height == height && a.block == block;
      assert HasVote(msgs, a);
    }
  }

  lemma KeptByCertificate(cfg: Config, msgs: seq<Message>, certs: seq<Certificate>, c: Certificate)
    requires Safe(cfg, msgs, certs) && CertSound(cfg, msgs, certs, c)
    requires c.height == |certs| + 1 <= cfg.maxHeight
    ensures Safe(cfg, msgs, certs + [c])
  {
    var next := certs + [c];
    assert InOrder(cfg, next);
    forall a | HasVote(msgs, a) ensures VoteSound(cfg, next, a) {
      PastIsFixed(cfg, certs, c, a.height);
    }
    forall d | d in next ensures CertSound(cfg, msgs, next, d) {
      if d in certs {
        var i :| 0 <= i < |certs| && certs[i] == d;
      }
      PastIsFixed(cfg, certs, c, d.height);
    }
  }

  lemma KeptByProposed(cfg: Config, s: State, height: u64, fault: Fault, block: Block)
    requires Safe(cfg, s.msgs, s.certs)
    ensures var t := Proposed(cfg, s, height, fault, block); Safe(cfg, t.msgs, t.certs)
  {
    var t := Proposed(cfg, s, height, fault, block);
    if t.msgs != s.msgs {
      KeptByProposal(cfg, s.msgs, s.certs, t.msgs[|s.msgs|]);
    }
  }

  lemma KeptByVoted(cfg: Config, s: State, x: u64, height: u64, block: Block)
    requires Safe(cfg, s.msgs, s.certs)
    requires MayHonestVote(cfg, s, x, height, block) || MayByzVote(cfg, s, x, height, block)
    ensures var t := Voted(cfg, s, x, height, block); Safe(cfg, t.msgs, t.certs)
  {
    OrderedFind(cfg, s.certs);
    if Get(cfg.participants, x).Some? {
      KeptByVote(cfg, s.msgs, s.certs, Attest(cfg, Get(cfg.participants, x).value, height, block));
    }
  }

  lemma KeptByFinalized(cfg: Config, s: State, height: u64, block: Block)
    requires Safe(cfg, s.msgs, s.certs)
    ensures var t := Finalized(cfg, s, height, block); Safe(cfg, t.msgs, t.certs)
  {
    OrderedFind(cfg, s.certs);
    var t := Finalized(cfg, s, height, block);
    if t.certs != s.certs {
      AggregatedSound(cfg, s.msgs, s.certs, height, block);
      KeptByCertificate(cfg, s.msgs, s.certs, t.certs[|s.certs|]);
    }
  }

  lemma StepKeepsSafe(cfg: Config, s: State, action: Action)
    requires Safe(cfg, s.msgs, s.certs)
    ensures var t := Apply(cfg, s, action); Safe(cfg, t.msgs, t.certs)
  {
    match action
    case HonestPropose(h) =>
      if Working(cfg, s.certs, h) { KeptByProposed(cfg, s, h, Honest, HonestBlock(cfg, s.certs, h)); }
    case ByzPropose(h, b) => KeptByProposed(cfg, s, h, Byzantine, b);
    case HonestVote(x, h, b) => if MayHonestVote(cfg, s, x, h, b) { KeptByVoted(cfg, s, x, h, b); }
    case ByzVote(x, h, b) => if MayByzVote(cfg, s, x, h, b) { KeptByVoted(cfg, s, x, h, b); }
    case Finalize(h, b) => KeptByFinalized(cfg, s, h, b);
    case Timeout(h) =>
    case Stabilize =>
  }

  lemma {:induction false} RunIsSafe(cfg: Config, actions: seq<Action>)
    ensures Safe(cfg, Run(cfg, actions).msgs, Run(cfg, actions).certs)
  {
    if actions != [] {
      RunIsSafe(cfg, actions[..|actions| - 1]);
      StepKeepsSafe(cfg, Run(cfg, actions[..|actions| - 1]), actions[|actions| - 1]);
    }
  }

  // ---- what it means ----

  ghost function ByzantineIn(cfg: Config, committee: seq<u64>): set<u64> {
    set x | x in committee && FaultOf(cfg, x) == Byzantine
  }

  /** Fewer than a third of the committee drawn for this height is byzantine. */
  ghost predicate FaultBound(cfg: Config, certs: seq<Certificate>, height: u64) {
    3 * |ByzantineIn(cfg, CommitteeFor(cfg, certs, height))| < |CommitteeFor(cfg, certs, height)|
  }

  /** A set of committee members larger than the byzantine ones holds a member that is not byzantine. */
  lemma NotAllByzantine(cfg: Config, committee: seq<u64>, ids: set<u64>) returns (x: u64)
    requires ids <= IdSet(committee) && |ids| > |ByzantineIn(cfg, committee)|
    ensures x in ids && FaultOf(cfg, x) != Byzantine
  {
    if forall y :: y in ids ==> FaultOf(cfg, y) == Byzantine {
      SubsetCount(ids, ByzantineIn(cfg, committee));
    }
    x :| x in ids && FaultOf(cfg, x) != Byzantine;
  }

  /**
   * Agreement of votes: in no run can the votes at one height make two certificates for different blocks, whether or
   * not either has been finalized.
   */
  lemma VotesAgree(cfg: Config, actions: seq<Action>, height: u64, b1: Block, b2: Block)
    requires var s := Run(cfg, actions); FaultBound(cfg, s.certs, height)
    requires var s := Run(cfg, actions); var committee := CommitteeFor(cfg, s.certs, height);
      Aggregated(cfg, height, b1, committee, VotesFor(s.msgs, height, b1)).Some?
      && Aggregated(cfg, height, b2, committee, VotesFor(s.msgs, height, b2)).Some?
    ensures b1 == b2
  {
    var s := Run(cfg, actions);
    var committee := CommitteeFor(cfg, s.certs, height);
    RunIsSafe(cfg, actions);
    AggregatedSound(cfg, s.msgs, s.certs, height, b1);
    AggregatedSound(cfg, s.msgs, s.certs, height, b2);
    var c1 := Aggregated(cfg, height, b1, committee, VotesFor(s.msgs, height, b1)).value;
    var c2 := Aggregated(cfg, height, b2, committee, VotesFor(s.msgs, height, b2)).value;
    var x := CommonHonest(cfg, s.certs, height, c1.attesters, c2.attesters);
    assert VotedFor(s.msgs, x, height, b1) && VotedFor(s.msgs, x, height, b2);
  }

  lemma CommonHonest(cfg: Config, certs: seq<Certificate>, height: u64, a: seq<u64>, b: seq<u64>) returns (x: u64)
    requires FaultBound(cfg, certs, height)
    requires var committee := CommitteeFor(cfg, certs, height);
      && Distinct(a) && Distinct(b) && IdSet(a) <= IdSet(committee) && IdSet(b) <= IdSet(committee)
      && IsQuorum(|a|, |committee|) && IsQuorum(|b|, |committee|)
    ensures x in a && x in b && FaultOf(cfg, x) != Byzantine
  {
    var committee := CommitteeFor(cfg, certs, height);
    DistinctCount(a);
    DistinctCount(b);
    CountDistinct(committee);
    Overlap(IdSet(committee), IdSet(a), IdSet(b));
    x := NotAllByzantine(cfg, committee, IdSet(a) * IdSet(b));
  }

  /** Every finalized block is valid at its height, as the machine judges it at any later point of the run. */
  lemma FinalIsValid(cfg: Config, actions: seq<Action>, c: Certificate)
    requires c in Run(cfg, actions).certs && FaultBound(cfg, Run(cfg, actions).certs, c.height)
    ensures c.height >= MIN_HEIGHT && ValidBlock(Run(cfg, actions).certs, c.block, c.height)
  {
    var s := Run(cfg, actions);
    RunIsSafe(cfg, actions);
    var i :| 0 <= i < |s.certs| && s.certs[i] == c;
    assert CertSound(cfg, s.msgs, s.certs, c);
    var x := CommonHonest(cfg, s.certs, c.height, c.attesters, c.attesters);
    assert VotedFor(s.msgs, x, c.height, c.block);
  }

  /** The certificates of a run form one chain from height 1, each block naming the one finalized below it. */
  lemma ChainDescends(cfg: Config, actions: seq<Action>, i: nat)
    requires i < |Run(cfg, actions).certs|
      && FaultBound(cfg, Run(cfg, actions).certs, Run(cfg, actions).certs[i].height)
    ensures var certs := Run(cfg, actions).certs;
      && certs[i].height == certs[i].block.height == i + 1
      && certs[i].block.parent == (if i == 0 then Genesis else Value(certs[i - 1].block.val))
      && certs[i].block.WithinBudget()
  {
    var s := Run(cfg, actions);
    RunIsSafe(cfg, actions);
    OrderedFind(cfg, s.certs);
    FinalIsValid(cfg, actions, s.certs[i]);
  }
}
