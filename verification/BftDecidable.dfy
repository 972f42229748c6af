/** Which heights can still be decided: for every reachable state of the stage one machine, the exact condition. */
module BftDecidable {
  import opened Wrappers
  import opened Bytes
  import opened IdSets
  import opened Blocks
  import opened BftCore
  import opened BftSteps
  import opened BftSafety
  import opened BftLiveness
  import opened BftRuns

  // ---- what a height still has to offer ----

  /** A stable machine times out of this view: it has a leader, and not an honest one. */
  predicate Passable(cfg: Config, certs: seq<Certificate>, height: u64, view: u64) {
    match LeaderOf(cfg, certs, height, view)
    case None => false
    case Some(l) => FaultOf(cfg, l) != Honest
  }

  /** The current view or one after it; if stable, none behind a view that cannot be timed out of. */
  ghost predicate ViewAhead(cfg: Config, s: State, height: u64, view: u64) {
    && ViewOf(s, height) <= view <= cfg.maxView
    && (s.stable ==> forall v: u64 :: ViewOf(s, height) <= v < view ==> Passable(cfg, s.certs, height, v))
  }

  /** The leader of the view may propose the block: a byzantine one any, an honest one the honest block. */
  predicate MayPropose(cfg: Config, certs: seq<Certificate>, height: u64, view: u64, block: Block)
    requires height >= MIN_HEIGHT
  {
    match LeaderOf(cfg, certs, height, view)
    case None => false
    case Some(l) =>
      FaultOf(cfg, l) == Byzantine || (FaultOf(cfg, l) == Honest && block == HonestBlock(cfg, certs, height))
  }

  ghost predicate Proposable(cfg: Config, s: State, height: u64, block: Block)
    requires height >= MIN_HEIGHT
  {
    exists view: u64 :: ViewAhead(cfg, s, height, view) && MayPropose(cfg, s.certs, height, view, block)
  }

  /** The block is valid, and was seen proposed or still can be. */
  ghost predicate Votable(cfg: Config, s: State, height: u64, block: Block)
    requires height >= MIN_HEIGHT
  {
    ValidBlock(s.certs, block, height) && (SawProposal(cfg, s, height, block) || Proposable(cfg, s, height, block))
  }

  ghost predicate MayStillVote(cfg: Config, s: State, height: u64, block: Block, x: u64)
    requires height >= MIN_HEIGHT
  {
    VotedFor(s.msgs, x, height, block) || (Votable(cfg, s, height, block) && !VotedOther(s.msgs, x, height, block))
  }

  /**
   * The members a certificate for the block can come to list: the byzantine ones, the honest ones that voted for it,
   * and, if it is votable, the honest ones that voted for no other block.
   */
  ghost function Able(cfg: Config, s: State, height: u64, block: Block): set<u64>
    requires height >= MIN_HEIGHT
  {
    set x | x in CommitteeFor(cfg, s.certs, height)
            && (FaultOf(cfg, x) == Byzantine || (FaultOf(cfg, x) == Honest && MayStillVote(cfg, s, height, block, x)))
  }

  /** The block is for the height and a quorum is able to certify it. */
  ghost predicate Certifiable(cfg: Config, s: State, height: u64, block: Block)
    requires height >= MIN_HEIGHT
  {
    block.height == height && 3 * |Able(cfg, s, height, block)| > 2 * |CommitteeFor(cfg, s.certs, height)|
  }

  // ---- views of a run ----

  /** No view is past the last, and no proposal is of a view its height has not come to. */
  ghost predicate ViewsKept(cfg: Config, s: State) {
    && (forall h: u64 :: ViewOf(s, h) <= cfg.maxView)
    && forall m :: m in s.msgs && m.Propose? ==> m.view <= ViewOf(s, m.height)
  }

  lemma StepKeepsViews(cfg: Config, s: State, action: Action)
    requires ViewsKept(cfg, s)
    ensures ViewsKept(cfg, Apply(cfg, s, action))
  {
    var t := Apply(cfg, s, action);
    forall h: u64 ensures ViewOf(s, h) <= ViewOf(t, h) <= cfg.maxView {
    }
    forall m | m in t.msgs && m.Propose? ensures m.view <= ViewOf(t, m.height) {
      assert m in s.msgs || m.view == ViewOf(s, m.height);
    }
  }

  lemma {:induction false} RunKeepsViews(cfg: Config, actions: seq<Action>)
    ensures ViewsKept(cfg, Run(cfg, actions))
  {
    if actions == [] {
      InitialViewsAreZero(cfg.maxHeight);
    } else {
      RunKeepsViews(cfg, actions[..|actions| - 1]);
      StepKeepsViews(cfg, Run(cfg, actions[..|actions| - 1]), actions[|actions| - 1]);
    }
  }

  // ---- no more than that: what a continuation adds ----

  ghost predicate FromAhead(cfg: Config, s: State, height: u64, m: Message)
    requires height >= MIN_HEIGHT && m.Propose?
  {
    ViewAhead(cfg, s, height, m.view) && MayPropose(cfg, s.certs, height, m.view, m.block)
  }

  ghost predicate ProposalsFrom(cfg: Config, s: State, t: State, height: u64)
    requires height >= MIN_HEIGHT
  {
    forall m :: m in t.msgs && m.Propose? && m.height == height ==> m in s.msgs || FromAhead(cfg, s, height, m)
  }

  ghost predicate VotesAble(cfg: Config, s: State, t: State, height: u64)
    requires height >= MIN_HEIGHT
  {
    forall a :: HasVote(t.msgs, a) && a.height == height ==> a.from in Able(cfg, s, height, a.block)
  }

  /** A later state in which the height is still open: its views, proposals and votes at the height were foreseen. */
  ghost predicate Foreseen(cfg: Config, s: State, t: State, height: u64)
    requires height >= MIN_HEIGHT
  {
    && t.certs == s.certs && (s.stable ==> t.stable) && (forall m :: m in s.msgs ==> m in t.msgs)
    && ViewAhead(cfg, s, height, ViewOf(t, height))
    && ProposalsFrom(cfg, s, t, height) && VotesAble(cfg, s, t, height)
  }

  lemma ForeseenAtFirst(cfg: Config, s: State, height: u64)
    requires Safe(cfg, s.msgs, s.certs) && ViewsKept(cfg, s) && height >= MIN_HEIGHT
    ensures Foreseen(cfg, s, s, height)
  {
    forall a | HasVote(s.msgs, a) && a.height == height ensures a.from in Able(cfg, s, height, a.block) {
      assert VoteSound(cfg, s.certs, a);
      assert VotedFor(s.msgs, a.from, height, a.block);
    }
  }

  /** A block seen proposed later was seen proposed before or could be proposed. */
  lemma SeenIsVotable(cfg: Config, s: State, t: State, height: u64, block: Block)
    requires height >= MIN_HEIGHT && ViewsKept(cfg, s) && Foreseen(cfg, s, t, height)
    requires SawProposal(cfg, t, height, block) && ValidBlock(s.certs, block, height)
    ensures Votable(cfg, s, height, block)
  {
    var m :| m in t.msgs && m.Propose? && m.height == height && m.block == block && m.view <= ViewOf(t, height)
             && LeaderOf(cfg, t.certs, height, m.view) == Some(m.from);
    if m in s.msgs {
      assert m.view <= ViewOf(s, m.height);
    } else {
      assert FromAhead(cfg, s, height, m);
    }
  }

  lemma NoneOther(s: State, t: State, x: u64, height: u64, block: Block)
    requires (forall m :: m in s.msgs ==> m in t.msgs) && !VotedOther(t.msgs, x, height, block)
    ensures !VotedOther(s.msgs, x, height, block)
  {
  }

  lemma HonestVoterAble(cfg: Config, s: State, t: State, x: u64, height: u64, block: Block)
    requires height >= MIN_HEIGHT && ViewsKept(cfg, s) && Foreseen(cfg, s, t, height)
    requires MayHonestVote(cfg, t, x, height, block)
    ensures x in Able(cfg, s, height, block)
  {
    SeenIsVotable(cfg, s, t, height, block);
    NoneOther(s, t, x, height, block);
  }

  ghost predicate VoteOf(m: Message, x: u64, height: u64, block: Block) {
    m.Vote? && m.attestation.from == x && m.attestation.height == height && m.attestation.block == block
  }

  lemma VoteAdds(cfg: Config, t: State, x: u64, height: u64, block: Block)
    ensures var u := Voted(cfg, t, x, height, block);
      && (forall m :: m in t.msgs ==> m in u.msgs)
      && forall m :: m in u.msgs ==> m in t.msgs || VoteOf(m, x, height, block)
  {
  }

  lemma VoteForeseen(cfg: Config, s: State, t: State, x: u64, h: u64, block: Block, height: u64)
    requires height >= MIN_HEIGHT && Foreseen(cfg, s, t, height)
    requires h == height ==> x in Able(cfg, s, height, block)
    ensures Foreseen(cfg, s, Voted(cfg, t, x, h, block), height)
  {
    VoteAdds(cfg, t, x, h, block);
    VotesForeseen(cfg, s, t, Voted(cfg, t, x, h, block), x, h, block, height);
  }

  lemma VotesForeseen(cfg: Config, s: State, t: State, u: State, x: u64, h: u64, block: Block, height: u64)
    requires height >= MIN_HEIGHT && Foreseen(cfg, s, t, height)
    requires u.certs == t.certs && u.views == t.views && u.stable == t.stable
    requires forall m :: m in t.msgs ==> m in u.msgs
    requires forall m :: m in u.msgs ==> m in t.msgs || VoteOf(m, x, h, block)
    requires h == height ==> x in Able(cfg, s, height, block)
    ensures Foreseen(cfg, s, u, height)
  {
    assert ViewOf(u, height) == ViewOf(t, height);
    forall a | HasVote(u.msgs, a) && a.height == height ensures a.from in Able(cfg, s, height, a.block) {
      assert HasVote(t.msgs, a) || VoteOf(Vote(a), x, h, block);
    }
  }

  lemma ProposalForeseen(cfg: Config, s: State, t: State, fault: Fault, block: Block, height: u64)
    requires height >= MIN_HEIGHT && Foreseen(cfg, s, t, height)
    requires fault == Byzantine || (fault == Honest && block == HonestBlock(cfg, s.certs, height))
    ensures Foreseen(cfg, s, Proposed(cfg, t, height, fault, block), height)
  {
    var u := Proposed(cfg, t, height, fault, block);
    forall m | m in u.msgs && m.Propose? && m.height == height ensures m in s.msgs || FromAhead(cfg, s, height, m) {
      assert m in t.msgs || (m.view == ViewOf(t, height) && m.block == block);
    }
    forall a | HasVote(u.msgs, a) ensures HasVote(t.msgs, a) {
    }
  }

  lemma AheadNext(cfg: Config, s: State, height: u64, view: u64)
    requires ViewAhead(cfg, s, height, view) && view < cfg.maxView
    requires s.stable ==> Passable(cfg, s.certs, height, view)
    ensures ViewAhead(cfg, s, height, view + 1)
  {
  }

  lemma TimeoutForeseen(cfg: Config, s: State, t: State, height: u64)
    requires height >= MIN_HEIGHT && Foreseen(cfg, s, t, height) && MayTimeout(cfg, t, height)
    ensures Foreseen(cfg, s, TimedOut(cfg, t, height), height)
  {
    AheadNext(cfg, s, height, ViewOf(t, height));
    ViewForeseen(cfg, s, t, TimedOut(cfg, t, height), height);
  }

  lemma ViewForeseen(cfg: Config, s: State, t: State, u: State, height: u64)
    requires height >= MIN_HEIGHT && Foreseen(cfg, s, t, height)
    requires u.certs == t.certs && u.msgs == t.msgs && (t.stable ==> u.stable)
    requires ViewAhead(cfg, s, height, ViewOf(u, height))
    ensures Foreseen(cfg, s, u, height)
  {
  }

  /** A certificate for the height takes a quorum of able members. */
  lemma DecidedWasCertifiable(cfg: Config, s: State, t: State, height: u64, block: Block)
    requires height == |s.certs| + 1 && Safe(cfg, t.msgs, t.certs) && Foreseen(cfg, s, t, height)
    requires Aggregated(cfg, height, block, CommitteeFor(cfg, t.certs, height), VotesFor(t.msgs, height, block)).Some?
    ensures Certifiable(cfg, s, height, block)
  {
    AggregatedSound(cfg, t.msgs, t.certs, height, block);
    var c := Aggregated(cfg, height, block, CommitteeFor(cfg, t.certs, height), VotesFor(t.msgs, height, block)).value;
    forall x | x in c.attesters ensures x in Able(cfg, s, height, block) {
      assert VotedFor(t.msgs, x, height, block);
    }
    DistinctCount(c.attesters);
    SubsetCount(IdSet(c.attesters), Able(cfg, s, height, block));
  }

  predicate DecidedOn(certs: seq<Certificate>, height: u64, block: Block) {
    Decided(certs, height) && FindCert(certs, height).value.block == block
  }

  /** The height is decided, on a block that was certifiable. */
  ghost predicate DecidedWell(cfg: Config, s: State, t: State, height: u64)
    requires height >= MIN_HEIGHT
  {
    Decided(t.certs, height) && Certifiable(cfg, s, height, FindCert(t.certs, height).value.block)
  }

  lemma FinalizedOn(cfg: Config, t: State, height: u64, block: Block)
    requires Safe(cfg, t.msgs, t.certs) && height == |t.certs| + 1 && Finalized(cfg, t, height, block) != t
    ensures DecidedOn(Finalized(cfg, t, height, block).certs, height, block)
  {
    var u := Finalized(cfg, t, height, block);
    KeptByFinalized(cfg, t, height, block);
    OrderedFind(cfg, u.certs);
    assert u.certs[|t.certs|].block == block;
  }

  lemma FinalizeForeseen(cfg: Config, s: State, t: State, h: u64, block: Block, height: u64)
    requires height == |s.certs| + 1 && Safe(cfg, t.msgs, t.certs) && Foreseen(cfg, s, t, height)
    ensures var u := Finalized(cfg, t, h, block); Foreseen(cfg, s, u, height) || DecidedWell(cfg, s, u, height)
  {
    OrderedFind(cfg, t.certs);
    if Finalized(cfg, t, h, block) != t {
      assert h == height;
      DecidedWasCertifiable(cfg, s, t, height, block);
      FinalizedOn(cfg, t, height, block);
    }
  }

  lemma DecidedStays(cfg: Config, s: State, t: State, action: Action, height: u64)
    requires height >= MIN_HEIGHT && Safe(cfg, t.msgs, t.certs) && DecidedWell(cfg, s, t, height)
    ensures DecidedWell(cfg, s, Apply(cfg, t, action), height)
  {
    var u := Apply(cfg, t, action);
    StepGrows(cfg, t, action);
    StepKeepsSafe(cfg, t, action);
    OrderedFind(cfg, t.certs);
    OrderedFind(cfg, u.certs);
    assert u.certs[height - 1] == u.certs[..|t.certs|][height - 1];
  }

  lemma ProposeForeseen(cfg: Config, s: State, t: State, action: Action, height: u64)
    requires height == |s.certs| + 1 && InOrder(cfg, t.certs) && Foreseen(cfg, s, t, height)
    requires action.HonestPropose? || action.ByzPropose?
    ensures Foreseen(cfg, s, Apply(cfg, t, action), height)
  {
    OrderedFind(cfg, t.certs);
    if Working(cfg, t.certs, action.height) {
      assert action.height == height;
      if action.HonestPropose? {
        ProposalForeseen(cfg, s, t, Honest, HonestBlock(cfg, t.certs, height), height);
      } else {
        ProposalForeseen(cfg, s, t, Byzantine, action.block, height);
      }
      ProposeIsProposed(cfg, t, action);
    }
  }

  lemma ProposeIsProposed(cfg: Config, s: State, action: Action)
    requires (action.HonestPropose? || action.ByzPropose?) && Working(cfg, s.certs, action.height)
    ensures var t := Apply(cfg, s, action);
      && (action.HonestPropose? ==>
            t == Proposed(cfg, s, action.height, Honest, HonestBlock(cfg, s.certs, action.height)))
      && (action.ByzPropose? ==>
            t == if action.block.height == action.height then Proposed(cfg, s, action.height, Byzantine, action.block)
                 else s)
  {
  }

  lemma CastForeseen(cfg: Config, s: State, t: State, action: Action, height: u64)
    requires height == |s.certs| + 1 && ViewsKept(cfg, s) && InOrder(cfg, t.certs) && Foreseen(cfg, s, t, height)
    requires action.HonestVote? || action.ByzVote?
    ensures Foreseen(cfg, s, Apply(cfg, t, action), height)
  {
    OrderedFind(cfg, t.certs);
    match action
    case HonestVote(x, h, b) =>
      if MayHonestVote(cfg, t, x, h, b) {
        HonestVoterAble(cfg, s, t, x, height, b);
        VoteForeseen(cfg, s, t, x, h, b, height);
      }
    case ByzVote(x, h, b) =>
      if MayByzVote(cfg, t, x, h, b) {
        VoteForeseen(cfg, s, t, x, h, b, height);
      }
  }

  lemma ClockForeseen(cfg: Config, s: State, t: State, action: Action, height: u64)
    requires height == |s.certs| + 1 && InOrder(cfg, t.certs) && Foreseen(cfg, s, t, height)
    requires action.Timeout? || action.Stabilize?
    ensures Foreseen(cfg, s, Apply(cfg, t, action), height)
  {
    OrderedFind(cfg, t.certs);
    if action.Stabilize? {
      ViewForeseen(cfg, s, t, Apply(cfg, t, action), height);
    } else if MayTimeout(cfg, t, action.height) {
      TimeoutForeseen(cfg, s, t, height);
    }
  }

  lemma StepForeseen(cfg: Config, s: State, t: State, action: Action, height: u64)
    requires height == |s.certs| + 1 && ViewsKept(cfg, s)
    requires Safe(cfg, t.msgs, t.certs) && Foreseen(cfg, s, t, height)
    ensures var u := Apply(cfg, t, action); Foreseen(cfg, s, u, height) || DecidedWell(cfg, s, u, height)
  {
    if action.Finalize? {
      FinalizeIsStep(cfg, t, action.height, action.block);
      FinalizeForeseen(cfg, s, t, action.height, action.block, height);
    } else if action.HonestPropose? || action.ByzPropose? {
      ProposeForeseen(cfg, s, t, action, height);
    } else if action.HonestVote? || action.ByzVote? {
      CastForeseen(cfg, s, t, action, height);
    } else {
      ClockForeseen(cfg, s, t, action, height);
    }
  }

  lemma RunAppend(cfg: Config, actions: seq<Action>, more: seq<Action>, action: Action)
    ensures Run(cfg, actions + (more + [action])) == Apply(cfg, Run(cfg, actions + more), action)
  {
    RunNext(cfg, actions + more, action);
    assert actions + (more + [action]) == (actions + more) + [action];
  }

  /** Every continuation stays foreseen until it decides the height, on a block that was certifiable. */
  lemma {:induction false} ContinuationForeseen(cfg: Config, actions: seq<Action>, more: seq<Action>, height: u64)
    requires height == |Run(cfg, actions).certs| + 1
    ensures var s, t := Run(cfg, actions), Run(cfg, actions + more);
      Foreseen(cfg, s, t, height) || DecidedWell(cfg, s, t, height)
    decreases more
  {
    var s := Run(cfg, actions);
    RunKeepsViews(cfg, actions);
    if more == [] {
      RunIsSafe(cfg, actions);
      ForeseenAtFirst(cfg, s, height);
      assert actions + more == actions;
    } else {
      var init, last := more[..|more| - 1], more[|more| - 1];
      assert more == init + [last];
      ContinuationForeseen(cfg, actions, init, height);
      RunIsSafe(cfg, actions + init);
      RunAppend(cfg, actions, init, last);
      if Foreseen(cfg, s, Run(cfg, actions + init), height) {
        StepForeseen(cfg, s, Run(cfg, actions + init), last, height);
      } else {
        DecidedStays(cfg, s, Run(cfg, actions + init), last, height);
      }
    }
  }

  // ---- no less than that: a continuation that decides ----

  /** Some continuation of the run leads to this state. */
  ghost predicate LeadsTo(cfg: Config, actions: seq<Action>, t: State) {
    exists more :: Run(cfg, actions + more) == t
  }

  lemma StepLeads(cfg: Config, actions: seq<Action>, t: State, action: Action)
    requires LeadsTo(cfg, actions, t)
    ensures LeadsTo(cfg, actions, Apply(cfg, t, action))
  {
    var more :| Run(cfg, actions + more) == t;
    RunAppend(cfg, actions, more, action);
  }

  /** Timeouts bring the height to any view ahead, and change nothing else. */
  lemma {:induction false} ToView(cfg: Config, actions: seq<Action>, s: State, height: u64, view: u64)
    returns (t: State)
    requires LeadsTo(cfg, actions, s) && Working(cfg, s.certs, height) && ViewAhead(cfg, s, height, view)
    ensures LeadsTo(cfg, actions, t) && t.msgs == s.msgs && t.certs == s.certs && ViewOf(t, height) == view
    decreases view - ViewOf(s, height)
  {
    if ViewOf(s, height) == view {
      t := s;
    } else {
      assert s.stable ==> Passable(cfg, s.certs, height, ViewOf(s, height));
      assert MayTimeout(cfg, s, height);
      StepLeads(cfg, actions, s, Timeout(height));
      t := ToView(cfg, actions, TimedOut(cfg, s, height), height, view);
    }
  }

  lemma ShownByLeader(cfg: Config, s: State, height: u64, fault: Fault, block: Block)
    requires LeaderOf(cfg, s.certs, height, ViewOf(s, height)).Some?
    requires FaultOf(cfg, LeaderOf(cfg, s.certs, height, ViewOf(s, height)).value) == fault
    ensures var t := Proposed(cfg, s, height, fault, block);
      && SawProposal(cfg, t, height, block)
      && (forall m :: m in s.msgs ==> m in t.msgs) && forall m :: m in t.msgs && m.Vote? ==> m in s.msgs
  {
    var l := LeaderOf(cfg, s.certs, height, ViewOf(s, height)).value;
    var t := Proposed(cfg, s, height, fault, block);
    assert ViewOf(t, height) == ViewOf(s, height);
    assert Propose(l, height, ViewOf(s, height), block) in t.msgs;
  }

  /** The leader of the current view proposes the block, unless it has done so. */
  lemma ProposalShown(cfg: Config, actions: seq<Action>, s: State, height: u64, block: Block) returns (t: State)
    requires LeadsTo(cfg, actions, s) && Working(cfg, s.certs, height) && block.height == height
    requires MayPropose(cfg, s.certs, height, ViewOf(s, height), block)
    ensures LeadsTo(cfg, actions, t) && t.certs == s.certs && SawProposal(cfg, t, height, block)
    ensures (forall m :: m in s.msgs ==> m in t.msgs) && forall m :: m in t.msgs && m.Vote? ==> m in s.msgs
  {
    var fault := FaultOf(cfg, LeaderOf(cfg, s.certs, height, ViewOf(s, height)).value);
    var action := if fault == Byzantine then ByzPropose(height, block) else HonestPropose(height);
    t := Proposed(cfg, s, height, fault, block);
    ShownByLeader(cfg, s, height, fault, block);
    ProposeIsProposed(cfg, s, action);
    StepLeads(cfg, actions, s, action);
  }

  /** A later state with no vote added but for the block at the height, and the block shown if it is votable. */
  ghost predicate Gathering(cfg: Config, s: State, t: State, height: u64, block: Block)
    requires height >= MIN_HEIGHT
  {
    && t.certs == s.certs && (forall m :: m in s.msgs ==> m in t.msgs)
    && (forall a :: HasVote(t.msgs, a) ==> HasVote(s.msgs, a) || (a.height == height && a.block == block))
    && (Votable(cfg, s, height, block) ==> SawProposal(cfg, t, height, block))
  }

  lemma BlockShown(cfg: Config, actions: seq<Action>, s: State, height: u64, block: Block) returns (t: State)
    requires LeadsTo(cfg, actions, s) && Working(cfg, s.certs, height)
    ensures LeadsTo(cfg, actions, t) && Gathering(cfg, s, t, height, block)
  {
    t := s;
    if Votable(cfg, s, height, block) && !SawProposal(cfg, s, height, block) {
      var view: u64 :| ViewAhead(cfg, s, height, view) && MayPropose(cfg, s.certs, height, view, block);
      t := ToView(cfg, actions, s, height, view);
      t := ProposalShown(cfg, actions, t, height, block);
    }
  }

  lemma OthersAsBefore(cfg: Config, s: State, t: State, x: u64, height: u64, block: Block)
    requires height >= MIN_HEIGHT && Gathering(cfg, s, t, height, block) && !VotedOther(s.msgs, x, height, block)
    ensures !VotedOther(t.msgs, x, height, block)
  {
    forall m | m in t.msgs && m.Vote? && m.attestation.from == x && m.attestation.height == height
      ensures m.attestation.block == block
    {
      assert HasVote(t.msgs, m.attestation);
    }
  }

  lemma VotedStays(s: State, t: State, x: u64, height: u64, block: Block)
    requires (forall m :: m in s.msgs ==> m in t.msgs) && VotedFor(s.msgs, x, height, block)
    ensures VotedFor(t.msgs, x, height, block)
  {
    var a :| HasVote(s.msgs, a) && a.from == x && a.height == height && a.block == block;
    assert HasVote(t.msgs, a);
  }

  lemma CastGathers(cfg: Config, s: State, t: State, x: u64, height: u64, block: Block)
    requires height >= MIN_HEIGHT && Gathering(cfg, s, t, height, block) && Get(cfg.participants, x).Some?
    ensures var u := Voted(cfg, t, x, height, block);
      && Gathering(cfg, s, u, height, block) && VotedFor(u.msgs, x, height, block)
      && forall m :: m in t.msgs ==> m in u.msgs
  {
    var u, a := Voted(cfg, t, x, height, block), Attest(cfg, Get(cfg.participants, x).value, height, block);
    VoteAdds(cfg, t, x, height, block);
    assert HasVote(u.msgs, a);
    forall b | HasVote(u.msgs, b) ensures HasVote(s.msgs, b) || (b.height == height && b.block == block) {
      assert HasVote(t.msgs, b) || VoteOf(Vote(b), x, height, block);
    }
    if Votable(cfg, s, height, block) {
      ProposalRemains(cfg, t, u, height, block);
    }
  }

  lemma HonestCast(cfg: Config, actions: seq<Action>, t: State, x: u64, height: u64, block: Block)
    requires LeadsTo(cfg, actions, t) && MayHonestVote(cfg, t, x, height, block)
    ensures LeadsTo(cfg, actions, Voted(cfg, t, x, height, block))
  {
    StepLeads(cfg, actions, t, HonestVote(x, height, block));
  }

  lemma ByzCast(cfg: Config, actions: seq<Action>, t: State, x: u64, height: u64, block: Block)
    requires LeadsTo(cfg, actions, t) && MayByzVote(cfg, t, x, height, block)
    ensures LeadsTo(cfg, actions, Voted(cfg, t, x, height, block))
  {
    StepLeads(cfg, actions, t, ByzVote(x, height, block));
  }

  lemma StillMayVote(cfg: Config, s: State, t: State, x: u64, height: u64, block: Block)
    requires Working(cfg, s.certs, height) && Gathering(cfg, s, t, height, block)
    requires x in Able(cfg, s, height, block) && FaultOf(cfg, x) == Honest && !VotedFor(s.msgs, x, height, block)
    ensures MayHonestVote(cfg, t, x, height, block)
  {
    OthersAsBefore(cfg, s, t, x, height, block);
  }

  /** One able member votes for the block, unless it has done so. */
  lemma OneCasts(cfg: Config, actions: seq<Action>, s: State, t: State, x: u64, height: u64, block: Block)
    returns (u: State)
    requires Working(cfg, s.certs, height) && LeadsTo(cfg, actions, t) && Gathering(cfg, s, t, height, block)
    requires x in Able(cfg, s, height, block) && block.height == height && Get(cfg.participants, x).Some?
    ensures LeadsTo(cfg, actions, u) && Gathering(cfg, s, u, height, block) && VotedFor(u.msgs, x, height, block)
    ensures forall m :: m in t.msgs ==> m in u.msgs
  {
    if FaultOf(cfg, x) == Honest && VotedFor(s.msgs, x, height, block) {
      VotedStays(s, t, x, height, block);
      u := t;
    } else {
      CastGathers(cfg, s, t, x, height, block);
      u := Voted(cfg, t, x, height, block);
      if FaultOf(cfg, x) == Byzantine {
        ByzCast(cfg, actions, t, x, height, block);
      } else {
        StillMayVote(cfg, s, t, x, height, block);
        HonestCast(cfg, actions, t, x, height, block);
      }
    }
  }

  lemma {:induction false} AllCast(cfg: Config, actions: seq<Action>, s: State, t: State, height: u64, block: Block,
                                   ids: seq<u64>) returns (u: State)
    requires Working(cfg, s.certs, height) && LeadsTo(cfg, actions, t) && Gathering(cfg, s, t, height, block)
    requires block.height == height && forall x :: x in ids ==> Get(cfg.participants, x).Some?
    ensures LeadsTo(cfg, actions, u) && Gathering(cfg, s, u, height, block)
    ensures forall x :: x in ids && x in Able(cfg, s, height, block) ==> VotedFor(u.msgs, x, height, block)
    ensures forall m :: m in t.msgs ==> m in u.msgs
    decreases ids
  {
    if ids == [] {
      u := t;
    } else {
      var next := t;
      if ids[0] in Able(cfg, s, height, block) {
        next := OneCasts(cfg, actions, s, t, ids[0], height, block);
      }
      u := AllCast(cfg, actions, s, next, height, block, ids[1..]);
      if ids[0] in Able(cfg, s, height, block) {
        VotedStays(next, u, ids[0], height, block);
      }
    }
  }

  ghost predicate AllVoted(cfg: Config, t: State, height: u64, block: Block, ids: set<u64>) {
    forall x :: x in ids ==> x in CommitteeFor(cfg, t.certs, height) && VotedFor(t.msgs, x, height, block)
  }

  lemma VotersSupport(cfg: Config, t: State, height: u64, block: Block, ids: set<u64>)
    requires KeysMatch(cfg) && VotesSound(cfg, t.msgs, t.certs) && AllVoted(cfg, t, height, block, ids)
    ensures var supporters := Supporters(cfg, height, block, CommitteeFor(cfg, t.certs, height),
                                         VotesFor(t.msgs, height, block));
      ids <= supporters && |ids| <= |supporters|
  {
    var votes := VotesFor(t.msgs, height, block);
    var supporters := Supporters(cfg, height, block, CommitteeFor(cfg, t.certs, height), votes);
    forall x | x in ids ensures x in supporters {
      assert VotedFor(t.msgs, x, height, block);
      var a :| HasVote(t.msgs, a) && a.from == x && a.height == height && a.block == block;
      assert VoteSound(cfg, t.certs, a) && a in votes;
    }
    SubsetCount(ids, supporters);
  }

  lemma CertificateDecides(cfg: Config, t: State, height: u64, block: Block)
    requires Safe(cfg, t.msgs, t.certs) && Working(cfg, t.certs, height)
    requires Aggregated(cfg, height, block, CommitteeFor(cfg, t.certs, height), VotesFor(t.msgs, height, block)).Some?
    ensures DecidedOn(Finalized(cfg, t, height, block).certs, height, block)
  {
    OrderedFind(cfg, t.certs);
    var c := Aggregated(cfg, height, block, CommitteeFor(cfg, t.certs, height), VotesFor(t.msgs, height, block)).value;
    assert c in Finalized(cfg, t, height, block).certs;
    FinalizedOn(cfg, t, height, block);
  }

  /** Some continuation decides the height on this block. */
  ghost predicate CanDecideOn(cfg: Config, actions: seq<Action>, height: u64, block: Block) {
    exists more :: DecidedOn(Run(cfg, actions + more).certs, height, block)
  }

  lemma LedToDecided(cfg: Config, actions: seq<Action>, t: State, height: u64, block: Block)
    requires LeadsTo(cfg, actions, t) && DecidedOn(t.certs, height, block)
    ensures CanDecideOn(cfg, actions, height, block)
  {
  }

  /** The votes of a quorum make the certificate. */
  lemma QuorumDecides(cfg: Config, actions: seq<Action>, t: State, height: u64, block: Block, ids: set<u64>)
    requires LeadsTo(cfg, actions, t) && Working(cfg, t.certs, height) && block.height == height
    requires KeysMatch(cfg) && Safe(cfg, t.msgs, t.certs) && AllVoted(cfg, t, height, block, ids)
    requires IsQuorum(|ids|, |CommitteeFor(cfg, t.certs, height)|)
    ensures CanDecideOn(cfg, actions, height, block)
  {
    VotersSupport(cfg, t, height, block, ids);
    AggregatedExactly(cfg, height, block, CommitteeFor(cfg, t.certs, height), VotesFor(t.msgs, height, block));
    CertificateDecides(cfg, t, height, block);
    FinalizeIsStep(cfg, t, height, block);
    StepLeads(cfg, actions, t, Finalize(height, block));
    LedToDecided(cfg, actions, Finalized(cfg, t, height, block), height, block);
  }

  lemma LedIsSound(cfg: Config, actions: seq<Action>, t: State)
    requires LeadsTo(cfg, actions, t)
    ensures Safe(cfg, t.msgs, t.certs)
  {
    var more :| Run(cfg, actions + more) == t;
    RunIsSafe(cfg, actions + more);
  }

  lemma AbleVote(cfg: Config, actions: seq<Action>, s: State, height: u64, block: Block) returns (t: State)
    requires LeadsTo(cfg, actions, s) && Working(cfg, s.certs, height) && block.height == height
    requires forall x :: x in CommitteeFor(cfg, s.certs, height) ==> Get(cfg.participants, x).Some?
    ensures LeadsTo(cfg, actions, t) && t.certs == s.certs
    ensures AllVoted(cfg, t, height, block, Able(cfg, s, height, block))
  {
    t := BlockShown(cfg, actions, s, height, block);
    t := AllCast(cfg, actions, s, t, height, block, CommitteeFor(cfg, s.certs, height));
  }

  lemma CertifiableDecides(cfg: Config, actions: seq<Action>, s: State, height: u64, block: Block)
    requires KeysMatch(cfg) && DistinctParticipants(cfg) && LeadsTo(cfg, actions, s)
    requires Working(cfg, s.certs, height) && Certifiable(cfg, s, height, block)
    ensures CanDecideOn(cfg, actions, height, block)
  {
    CommitteeMembers(cfg, SeedFor(cfg, s.certs, height));
    var t := AbleVote(cfg, actions, s, height, block);
    LedIsSound(cfg, actions, t);
    QuorumDecides(cfg, actions, t, height, block, Able(cfg, s, height, block));
  }

  /**
   * After any run, the next height can still be decided on a block exactly when the block is for that height and a
   * quorum of its committee is byzantine, voted for the block, or can still be brought to vote for it.
   */
  lemma DecidableOn(cfg: Config, actions: seq<Action>, height: u64, block: Block)
    requires KeysMatch(cfg) && DistinctParticipants(cfg)
    requires height == |Run(cfg, actions).certs| + 1 <= cfg.maxHeight
    ensures (exists more :: DecidedOn(Run(cfg, actions + more).certs, height, block))
            <==> Certifiable(cfg, Run(cfg, actions), height, block)
  {
    var s := Run(cfg, actions);
    RunIsSafe(cfg, actions);
    OrderedFind(cfg, s.certs);
    if more :| DecidedOn(Run(cfg, actions + more).certs, height, block) {
      ContinuationForeseen(cfg, actions, more, height);
      assert !Decided(s.certs, height);
    }
    if Certifiable(cfg, s, height, block) {
      assert actions + [] == actions;
      CertifiableDecides(cfg, actions, s, height, block);
    }
  }

  /** So a height can still be decided exactly when some block is certifiable; otherwise it is stuck for good. */
  lemma DecidableExactly(cfg: Config, actions: seq<Action>, height: u64)
    requires KeysMatch(cfg) && DistinctParticipants(cfg)
    requires height == |Run(cfg, actions).certs| + 1 <= cfg.maxHeight
    ensures (exists more :: Decided(Run(cfg, actions + more).certs, height))
            <==> exists block :: Certifiable(cfg, Run(cfg, actions), height, block)
  {
    if more :| Decided(Run(cfg, actions + more).certs, height) {
      var block := FindCert(Run(cfg, actions + more).certs, height).value.block;
      assert DecidedOn(Run(cfg, actions + more).certs, height, block);
      DecidableOn(cfg, actions, height, block);
    }
    if block :| Certifiable(cfg, Run(cfg, actions), height, block) {
      DecidableOn(cfg, actions, height, block);
    }
  }
}
