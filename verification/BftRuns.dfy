/** Runs of the stage one machine as they grow: what its drivers reach, and how split votes stall a height for good. */
module BftRuns {
  import opened Bytes
  import opened IdSets
  import opened Blocks
  import opened BftCore
  import opened BftSteps
  import opened BftSafety
  import opened BftLiveness

  // ---- the drivers only take steps ----

  ghost predicate Reachable(cfg: Config, s: State) {
    exists actions :: Run(cfg, actions) == s
  }

  lemma RunNext(cfg: Config, actions: seq<Action>, action: Action)
    ensures Run(cfg, actions + [action]) == Apply(cfg, Run(cfg, actions), action)
  {
    assert (actions + [action])[..|actions|] == actions;
  }

  lemma StepReaches(cfg: Config, s: State, action: Action)
    requires Reachable(cfg, s)
    ensures Reachable(cfg, Apply(cfg, s, action))
  {
    var actions :| Run(cfg, actions) == s;
    RunNext(cfg, actions, action);
  }

  lemma {:induction false} VoteAllReaches(cfg: Config, s: State, height: u64, block: Block, ids: seq<u64>)
    requires Reachable(cfg, s)
    ensures Reachable(cfg, VoteAll(cfg, s, height, block, ids))
    decreases ids
  {
    if ids != [] {
      StepReaches(cfg, s, HonestVote(ids[0], height, block));
      var next := if FaultOf(cfg, ids[0]) == Honest then Apply(cfg, s, HonestVote(ids[0], height, block)) else s;
      VoteAllReaches(cfg, next, height, block, ids[1..]);
    }
  }

  lemma VotedReaches(cfg: Config, s: State, height: u64)
    requires Reachable(cfg, s) && height >= MIN_HEIGHT
    ensures Reachable(cfg, VoteAll(cfg, HonestProposed(cfg, s, height), height, HonestBlock(cfg, s.certs, height),
                                   CommitteeFor(cfg, s.certs, height)))
  {
    StepReaches(cfg, s, HonestPropose(height));
    VoteAllReaches(cfg, HonestProposed(cfg, s, height), height, HonestBlock(cfg, s.certs, height),
                   CommitteeFor(cfg, s.certs, height));
  }

  lemma FinalizeIsStep(cfg: Config, s: State, height: u64, block: Block)
    ensures Apply(cfg, s, Finalize(height, block)) == Finalized(cfg, s, height, block)
  {
  }

  lemma FinalizedReaches(cfg: Config, s: State, height: u64, block: Block)
    requires Reachable(cfg, s)
    ensures Reachable(cfg, Finalized(cfg, s, height, block))
  {
    FinalizeIsStep(cfg, s, height, block);
    StepReaches(cfg, s, Finalize(height, block));
  }

  lemma RoundReaches(cfg: Config, s: State, height: u64)
    requires Reachable(cfg, s) && height >= MIN_HEIGHT
    ensures Reachable(cfg, Round(cfg, s, height))
  {
    var block := HonestBlock(cfg, s.certs, height);
    VotedReaches(cfg, s, height);
    FinalizedReaches(cfg, VoteAll(cfg, HonestProposed(cfg, s, height), height, block,
                                  CommitteeFor(cfg, s.certs, height)), height, block);
  }

  lemma TimeoutReaches(cfg: Config, s: State, height: u64)
    requires Reachable(cfg, s)
    ensures Reachable(cfg, TimedOut(cfg, s, height))
  {
    StepReaches(cfg, s, Timeout(height));
  }

  lemma {:induction false} AdvanceReaches(cfg: Config, s: State, height: u64)
    requires Reachable(cfg, s) && height >= MIN_HEIGHT
    ensures Reachable(cfg, Advance(cfg, s, height).0)
    decreases cfg.maxView - ViewOf(s, height)
  {
    hide Reachable, Round, MayTimeout;
    var t := Round(cfg, s, height);
    RoundReaches(cfg, s, height);
    if MayTimeout(cfg, t, height) {
      TimeoutReaches(cfg, t, height);
      assert ViewOf(t, height) == ViewOf(s, height);
      AdvanceReaches(cfg, TimedOut(cfg, t, height), height);
    }
  }

  lemma {:induction false} RunFromReachable(cfg: Config, s: State, height: u64)
    requires Reachable(cfg, s) && height >= MIN_HEIGHT
    ensures Reachable(cfg, RunFrom(cfg, s, height))
    decreases cfg.maxHeight - height
  {
    AdvanceReaches(cfg, s, height);
    if height < cfg.maxHeight {
      RunFromReachable(cfg, Advance(cfg, s, height).0, height + 1);
    }
  }

  /**
   * The machine's own driver reaches only states that a run of steps reaches, so all that holds of runs holds of it.
   */
  lemma DriverIsARun(cfg: Config, s: State)
    requires Reachable(cfg, s)
    ensures Reachable(cfg, RunAll(cfg, s))
  {
    StepReaches(cfg, s, Stabilize);
    RunFromReachable(cfg, Apply(cfg, s, Stabilize), MIN_HEIGHT);
  }

  // ---- messages and certificates only accumulate ----

  ghost predicate Later(s: State, t: State) {
    && (forall m :: m in s.msgs ==> m in t.msgs)
    && |s.certs| <= |t.certs| && t.certs[..|s.certs|] == s.certs
  }

  lemma StepGrows(cfg: Config, s: State, action: Action)
    ensures Later(s, Apply(cfg, s, action))
  {
  }

  lemma LaterYet(s: State, t: State, u: State)
    requires Later(s, t) && Later(t, u)
    ensures Later(s, u)
  {
    assert u.certs[..|s.certs|] == u.certs[..|t.certs|][..|s.certs|];
  }

  lemma {:induction false} RunGrows(cfg: Config, actions: seq<Action>, more: seq<Action>)
    ensures Later(Run(cfg, actions), Run(cfg, actions + more))
    decreases more
  {
    if more == [] {
      assert actions + more == actions;
    } else {
      var init, last := more[..|more| - 1], more[|more| - 1];
      RunGrows(cfg, actions, init);
      StepGrows(cfg, Run(cfg, actions + init), last);
      assert (actions + more)[..|actions + more| - 1] == actions + init;
      LaterYet(Run(cfg, actions), Run(cfg, actions + init), Run(cfg, actions + more));
    }
  }

  /** The committee of a height is settled once every height below it is decided. */
  lemma CommitteeStays(cfg: Config, certs: seq<Certificate>, later: seq<Certificate>, height: u64)
    requires InOrder(cfg, certs) && InOrder(cfg, later) && |certs| <= |later| && later[..|certs|] == certs
    requires height <= |certs| + 1
    ensures CommitteeFor(cfg, later, height) == CommitteeFor(cfg, certs, height)
  {
    OrderedFind(cfg, certs);
    OrderedFind(cfg, later);
    forall h: u64 | h < height ensures FindCert(certs, h) == FindCert(later, h) {
      assert 1 <= h ==> later[h - 1] == later[..|certs|][h - 1];
    }
    SeedStable(cfg, certs, later, cfg.genesisSeed, MIN_HEIGHT, height);
  }

  // ---- split votes ----

  /**
   * The members that could still be counted for a block: those not offline, and no honest one that voted for another.
   */
  ghost function FreeFor(cfg: Config, s: State, height: u64, block: Block): set<u64> {
    set x | x in CommitteeFor(cfg, s.certs, height) && FaultOf(cfg, x) != Offline
            && !(FaultOf(cfg, x) == Honest && VotedOther(s.msgs, x, height, block))
  }

  lemma AttesterWasFree(cfg: Config, s: State, t: State, c: Certificate, x: u64)
    requires Safe(cfg, t.msgs, t.certs) && CertSound(cfg, t.msgs, t.certs, c) && Later(s, t)
    requires CommitteeFor(cfg, t.certs, c.height) == CommitteeFor(cfg, s.certs, c.height)
    requires x in c.attesters
    ensures x in FreeFor(cfg, s, c.height, c.block)
  {
    assert VotedFor(t.msgs, x, c.height, c.block);
    assert forall m :: m in s.msgs && m.Vote? ==> HasVote(t.msgs, m.attestation);
  }

  /**
   * Liveness is lost once honest votes are split: when no block has more than two thirds of the committee left to
   * it, no continuation of the run ever decides the height.
   */
  lemma SplitVotesStall(cfg: Config, actions: seq<Action>, more: seq<Action>, height: u64)
    requires var s := Run(cfg, actions);
      && MIN_HEIGHT <= height == |s.certs| + 1
      && forall b :: 3 * |FreeFor(cfg, s, height, b)| <= 2 * |CommitteeFor(cfg, s.certs, height)|
    ensures !Decided(Run(cfg, actions + more).certs, height)
  {
    var s, t := Run(cfg, actions), Run(cfg, actions + more);
    RunIsSafe(cfg, actions);
    RunIsSafe(cfg, actions + more);
    RunGrows(cfg, actions, more);
    if Decided(t.certs, height) {
      var c := FindCert(t.certs, height).value;
      CommitteeStays(cfg, s.certs, t.certs, height);
      forall x | x in c.attesters ensures x in FreeFor(cfg, s, height, c.block) {
        AttesterWasFree(cfg, s, t, c, x);
      }
      DistinctCount(c.attesters);
      SubsetCount(IdSet(c.attesters), FreeFor(cfg, s, height, c.block));
    }
  }
}
