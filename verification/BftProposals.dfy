/**
 * Where final blocks come from: every one was proposed by the leader its view gives, and an honest leader's is the
 * honest block.
 */
module BftProposals {
  import opened Wrappers
  import opened Bytes
  import opened IdSets
  import opened Blocks
  import opened BftCore
  import opened BftSteps
  import opened BftSafety

  /**
   * The message is a proposal made at an open height by the leader of its view; an honest leader proposes the honest
   * block.
   */
  ghost predicate ProposalSound(cfg: Config, certs: seq<Certificate>, m: Message) {
    && m.Propose? && MIN_HEIGHT <= m.height <= cfg.maxHeight && m.height <= |certs| + 1
    && LeaderOf(cfg, certs, m.height, m.view) == Some(m.from)
    && m.block.height == m.height
    && FaultOf(cfg, m.from) != Offline
    && (FaultOf(cfg, m.from) == Honest ==> m.block == HonestBlock(cfg, certs, m.height))
  }

  ghost predicate WasProposed(msgs: seq<Message>, height: u64, block: Block) {
    exists m :: m in msgs && m.Propose? && m.height == height && m.block == block
  }

  ghost predicate Proposals(cfg: Config, msgs: seq<Message>, certs: seq<Certificate>) {
    && (forall m :: m in msgs && m.Propose? ==> ProposalSound(cfg, certs, m))
    && (forall a :: HasVote(msgs, a) && FaultOf(cfg, a.from) == Honest ==> WasProposed(msgs, a.height, a.block))
  }

  lemma ProposalStays(cfg: Config, certs: seq<Certificate>, c: Certificate, m: Message)
    requires InOrder(cfg, certs) && InOrder(cfg, certs + [c]) && ProposalSound(cfg, certs, m)
    ensures ProposalSound(cfg, certs + [c], m)
  {
    PastIsFixed(cfg, certs, c, m.height);
  }

  lemma WasProposedStays(msgs: seq<Message>, m: Message, height: u64, block: Block)
    requires WasProposed(msgs, height, block)
    ensures WasProposed(msgs + [m], height, block)
  {
    var p :| p in msgs && p.Propose? && p.height == height && p.block == block;
    assert p in msgs + [m];
  }

  lemma KeptByMessage(cfg: Config, msgs: seq<Message>, certs: seq<Certificate>, m: Message)
    requires Proposals(cfg, msgs, certs)
    requires m.Propose? ==> ProposalSound(cfg, certs, m)
    requires m.Vote? && FaultOf(cfg, m.attestation.from) == Honest ==>
      WasProposed(msgs, m.attestation.height, m.attestation.block)
    ensures Proposals(cfg, msgs + [m], certs)
  {
    var next := msgs + [m];
    forall a | HasVote(next, a) && FaultOf(cfg, a.from) == Honest ensures WasProposed(next, a.height, a.block) {
      assert Vote(a) in msgs || Vote(a) == m;
      WasProposedStays(msgs, m, a.height, a.block);
    }
  }

  lemma KeptByProposing(cfg: Config, s: State, height: u64, fault: Fault, block: Block)
    requires Proposals(cfg, s.msgs, s.certs) && InOrder(cfg, s.certs) && Working(cfg, s.certs, height)
    requires fault != Offline && block.height == height
      && (fault == Honest ==> block == HonestBlock(cfg, s.certs, height))
    ensures Proposals(cfg, Proposed(cfg, s, height, fault, block).msgs, s.certs)
  {
    OrderedFind(cfg, s.certs);
    var t := Proposed(cfg, s, height, fault, block);
    if t.msgs != s.msgs {
      KeptByMessage(cfg, s.msgs, s.certs, t.msgs[|s.msgs|]);
    }
  }

  lemma KeptByVoting(cfg: Config, s: State, x: u64, height: u64, block: Block)
    requires Proposals(cfg, s.msgs, s.certs)
    requires FaultOf(cfg, x) == Honest ==> SawProposal(cfg, s, height, block)
    ensures Proposals(cfg, Voted(cfg, s, x, height, block).msgs, s.certs)
  {
    if Get(cfg.participants, x).Some? {
      KeptByMessage(cfg, s.msgs, s.certs, Vote(Attest(cfg, Get(cfg.participants, x).value, height, block)));
    }
  }

  lemma KeptByFinalizing(cfg: Config, s: State, height: u64, block: Block)
    requires Safe(cfg, s.msgs, s.certs) && Proposals(cfg, s.msgs, s.certs)
    ensures Proposals(cfg, s.msgs, Finalized(cfg, s, height, block).certs)
  {
    var t := Finalized(cfg, s, height, block);
    KeptByFinalized(cfg, s, height, block);
    if t.certs != s.certs {
      assert t.certs == s.certs + [t.certs[|s.certs|]];
      forall m | m in s.msgs && m.Propose? ensures ProposalSound(cfg, t.certs, m) {
        ProposalStays(cfg, s.certs, t.certs[|s.certs|], m);
      }
    }
  }

  lemma StepKeepsProposals(cfg: Config, s: State, action: Action)
    requires Safe(cfg, s.msgs, s.certs) && Proposals(cfg, s.msgs, s.certs)
    ensures var t := Apply(cfg, s, action); Proposals(cfg, t.msgs, t.certs)
  {
    match action
    case HonestPropose(h) =>
      if Working(cfg, s.certs, h) { KeptByProposing(cfg, s, h, Honest, HonestBlock(cfg, s.certs, h)); }
    case ByzPropose(h, b) => if Working(cfg, s.certs, h) && b.height == h { KeptByProposing(cfg, s, h, Byzantine, b); }
    case HonestVote(x, h, b) => if MayHonestVote(cfg, s, x, h, b) { KeptByVoting(cfg, s, x, h, b); }
    case ByzVote(x, h, b) => if MayByzVote(cfg, s, x, h, b) { KeptByVoting(cfg, s, x, h, b); }
    case Finalize(h, b) => KeptByFinalizing(cfg, s, h, b);
    case Timeout(h) =>
    case Stabilize =>
  }

  lemma {:induction false} RunKeepsProposals(cfg: Config, actions: seq<Action>)
    ensures Proposals(cfg, Run(cfg, actions).msgs, Run(cfg, actions).certs)
  {
    if actions != [] {
      RunKeepsProposals(cfg, actions[..|actions| - 1]);
      RunIsSafe(cfg, actions[..|actions| - 1]);
      StepKeepsProposals(cfg, Run(cfg, actions[..|actions| - 1]), actions[|actions| - 1]);
    }
  }

  /**
   * In every run, a final block was proposed by the leader of some view of its height, never an offline one, and if
   * that leader is honest it is the honest block, as the machine would compute it at any later point.
   */
  lemma FinalWasProposed(cfg: Config, actions: seq<Action>, c: Certificate) returns (m: Message)
    requires c in Run(cfg, actions).certs && FaultBound(cfg, Run(cfg, actions).certs, c.height)
    ensures m in Run(cfg, actions).msgs && m.Propose? && m.height == c.height && m.block == c.block
    ensures ProposalSound(cfg, Run(cfg, actions).certs, m)
  {
    var s := Run(cfg, actions);
    RunIsSafe(cfg, actions);
    RunKeepsProposals(cfg, actions);
    assert CertSound(cfg, s.msgs, s.certs, c);
    var x := CommonHonest(cfg, s.certs, c.height, c.attesters, c.attesters);
    assert VotedFor(s.msgs, x, c.height, c.block);
    var a :| HasVote(s.msgs, a) && a.from == x && a.height == c.height && a.block == c.block;
    assert VoteSound(cfg, s.certs, a);
    m :| m in s.msgs && m.Propose? && m.height == c.height && m.block == c.block;
  }

  // ---- nothing is sent twice ----

  lemma StepSendsOnce(cfg: Config, s: State, action: Action)
    requires Distinct(s.msgs)
    ensures Distinct(Apply(cfg, s, action).msgs)
  {
    match action
    case HonestPropose(h) =>
      if Working(cfg, s.certs, h) { ProposedOnce(cfg, s, h, Honest, HonestBlock(cfg, s.certs, h)); }
    case ByzPropose(h, b) => ProposedOnce(cfg, s, h, Byzantine, b);
    case HonestVote(x, h, b) => VotedOnce(cfg, s, x, h, b);
    case ByzVote(x, h, b) => VotedOnce(cfg, s, x, h, b);
    case Finalize(h, b) =>
    case Timeout(h) =>
    case Stabilize =>
  }

  lemma ProposedOnce(cfg: Config, s: State, height: u64, fault: Fault, block: Block)
    requires Distinct(s.msgs)
    ensures Distinct(Proposed(cfg, s, height, fault, block).msgs)
  {
  }

  lemma VotedOnce(cfg: Config, s: State, x: u64, height: u64, block: Block)
    requires Distinct(s.msgs)
    ensures Distinct(Voted(cfg, s, x, height, block).msgs)
  {
    hide Attest, Observed, SlashesAfter;
  }

  /** In every run no message, proposal or vote, byzantine ones included, is sent twice. */
  lemma {:induction false} RunSendsOnce(cfg: Config, actions: seq<Action>)
    ensures Distinct(Run(cfg, actions).msgs)
  {
    if actions != [] {
      RunSendsOnce(cfg, actions[..|actions| - 1]);
      StepSendsOnce(cfg, Run(cfg, actions[..|actions| - 1]), actions[|actions| - 1]);
    }
  }
}
