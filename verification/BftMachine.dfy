/**
 * The stage one machine itself: its fields, its steps and its drivers, each shown to take the state where the
 * transition system says.
 */
module BftMachine {
  import opened Wrappers
  import opened Bytes
  import opened Sorting
  import opened Blocks
  import opened BftCore
  import opened BftSteps
  import opened BftSafety
  import opened BftSlashing
  import opened BftLiveness

  class EquivocationDetector {
    var seen: map<VoteKey, Attestation>

    constructor ()
      ensures seen == map[]
    {
      seen := map[];
    }

    method Observe(cfg: Config, a: Attestation) returns (first: Option<Attestation>)
      modifies this
      ensures seen == Observed(cfg, old(seen), a)
      ensures first == Evidence(cfg, old(seen), a)
      ensures var key := VoteKey(a.from, a.height);
        && seen == (if SignedInSet(cfg, a) && key !in old(seen) then old(seen)[key := a] else old(seen))
        && (first.Some? <==> SignedInSet(cfg, a) && key in old(seen) && IsEquivocation(old(seen)[key], a))
        && (first.Some? ==> first == Some(old(seen)[key]))
    {
      if !SignedInSet(cfg, a) {
        return None;
      }
      var key := VoteKey(a.from, a.height);
      if key in seen {
        return if IsEquivocation(seen[key], a) then Some(seen[key]) else None;
      }
      seen := seen[key := a];
      return None;
    }
  }

  class SlashLedger {
    var slashes: seq<Slash>

    constructor ()
      ensures slashes == []
    {
      slashes := [];
    }

    method Apply(slash: Slash) returns (applied: bool)
      modifies this
      ensures slashes == Applied(old(slashes), slash)
      ensures applied <==> !IsBanned(old(slashes), slash.validator)
      ensures IsBanned(slashes, slash.validator)
    {
      if IsBanned(slashes, slash.validator) {
        return false;
      }
      slashes := slashes + [slash];
      assert slash in slashes;
      return true;
    }
  }

  /** One height of the driver's loop. */
  lemma RunFromNext(cfg: Config, s: State, height: u64)
    requires MIN_HEIGHT <= height <= cfg.maxHeight
    ensures var (t, ok) := Advance(cfg, s, height);
      RunFrom(cfg, s, height) == if !ok || height == cfg.maxHeight then t else RunFrom(cfg, t, height + 1)
  {
  }

  function ByHeight(): (Certificate, Certificate) -> bool {
    (c: Certificate, d: Certificate) => c.height <= d.height
  }

  lemma OrderedByHeight(cfg: Config, certs: seq<Certificate>)
    ensures multiset(SortBy(ByHeight(), certs)) == multiset(certs)
    ensures InOrder(cfg, certs) ==> SortBy(ByHeight(), certs) == certs
  {
    if InOrder(cfg, certs) {
      SortedStays(ByHeight(), certs);
    }
  }

  class Machine {
    const cfg: Config
    var msgs: seq<Message>
    var certs: seq<Certificate>
    var views: map<u64, u64>
    var stable: bool
    const detector: EquivocationDetector
    const ledger: SlashLedger

    /** The machine's state as a value of the transition system. */
    ghost function Snapshot(): State
      reads this, detector, ledger
    {
      State(msgs, certs, views, stable, detector.seen, ledger.slashes)
    }

    constructor (cfg: Config)
      ensures this.cfg == cfg && fresh(detector) && fresh(ledger)
      ensures Snapshot() == Init(cfg)
      ensures msgs == [] && certs == [] && !stable && detector.seen == map[] && ledger.slashes == []
      ensures forall h: u64 :: (h in views <==> MIN_HEIGHT <= h <= cfg.maxHeight) && (h in views ==> views[h] == 0)
    {
      this.cfg := cfg;
      msgs, certs, stable := [], [], false;
      detector := new EquivocationDetector();
      ledger := new SlashLedger();
      views := map[];
      new;
      var h: nat := 0;
      while h < cfg.maxHeight
        invariant h <= cfg.maxHeight && views == InitialViews(h)
        invariant forall g: u64 :: (g in views <==> MIN_HEIGHT <= g <= h) && (g in views ==> views[g] == 0)
        invariant fresh(detector) && fresh(ledger) && detector.seen == map[] && ledger.slashes == []
        invariant msgs == [] && certs == [] && !stable && this.cfg == cfg
      {
        h := h + 1;
        views := views[h := 0];
      }
    }

    function View(height: u64): u64
      reads this
    {
      if height in views then views[height] else 0
    }

    method SeedForHeight(height: u64) returns (seed: Bytes32)
      ensures seed == SeedFor(cfg, certs, height)
      ensures height <= MIN_HEIGHT ==> seed == cfg.genesisSeed
      ensures height > MIN_HEIGHT && BelowDecided(certs, height) && FindCert(certs, height - 1).Some? ==>
        var c := FindCert(certs, height - 1).value;
        seed == cfg.prims.hash(SeedFor(cfg, certs, height - 1) + c.block.ToBytes() + IdBytes(c.attesters))
    {
      if height > MIN_HEIGHT && BelowDecided(certs, height) && FindCert(certs, height - 1).Some? {
        SeedNext(cfg, certs, cfg.genesisSeed, MIN_HEIGHT, height - 1);
      }
      seed := cfg.genesisSeed;
      var h: u64 := MIN_HEIGHT;
      while h < height
        invariant SeedFrom(cfg, certs, seed, h, height) == SeedFor(cfg, certs, height)
      {
        match FindCert(certs, h) {
          case Some(cert) => seed := Beacon(cfg, cert, seed);
          case None => break;
        }
        h := h + 1;
      }
    }

    method Propose(height: u64, fault: Fault, block: Block) returns (ok: bool)
      modifies this`msgs
      ensures Snapshot() == Proposed(cfg, old(Snapshot()), height, fault, block)
      ensures ok <==> Snapshot() != old(Snapshot())
    {
      var view := View(height);
      match LeaderOf(cfg, certs, height, view) {
        case None => return false;
        case Some(l) =>
          var m := Message.Propose(l, height, view, block);
          if FaultOf(cfg, l) != fault || m in msgs {
            return false;
          }
          msgs := msgs + [m];
          return true;
      }
    }

    method HonestPropose(height: u64) returns (ok: bool)
      modifies this`msgs
      ensures Snapshot() == BftSteps.Apply(cfg, old(Snapshot()), Action.HonestPropose(height))
      ensures ok <==> Snapshot() != old(Snapshot())
    {
      if !Working(cfg, certs, height) {
        return false;
      }
      ok := Propose(height, Honest, HonestBlock(cfg, certs, height));
    }

    method ByzPropose(height: u64, block: Block) returns (ok: bool)
      modifies this`msgs
      ensures Snapshot() == BftSteps.Apply(cfg, old(Snapshot()), Action.ByzPropose(height, block))
      ensures ok <==> Snapshot() != old(Snapshot())
    {
      if !Working(cfg, certs, height) || block.height != height {
        return false;
      }
      ok := Propose(height, Byzantine, block);
    }

    method DetectAndSlash(a: Attestation)
      modifies detector, ledger
      ensures detector.seen == Observed(cfg, old(detector.seen), a)
      ensures ledger.slashes == SlashesAfter(cfg, old(Snapshot()), a)
    {
      var first := detector.Observe(cfg, a);
      if first.Some? {
        var slash := SlashFrom(cfg, first.value, a);
        if slash.Some? {
          var applied := ledger.Apply(slash.value);
        }
      }
    }

    /** The end of both voting steps: sign, and send unless already sent. */
    method Send(x: u64, height: u64, block: Block) returns (ok: bool)
      modifies this`msgs, detector, ledger
      ensures Snapshot() == Voted(cfg, old(Snapshot()), x, height, block)
      ensures ok <==> Snapshot() != old(Snapshot())
    {
      match Get(cfg.participants, x) {
        case None => return false;
        case Some(v) =>
          var a := Attest(cfg, v, height, block);
          if Message.Vote(a) in msgs {
            return false;
          }
          DetectAndSlash(a);
          msgs := msgs + [Message.Vote(a)];
          return true;
      }
    }

    method Vote(x: u64, height: u64, block: Block) returns (ok: bool)
      modifies this`msgs, detector, ledger
      ensures Snapshot() == BftSteps.Apply(cfg, old(Snapshot()), Action.HonestVote(x, height, block))
      ensures ok <==> Snapshot() != old(Snapshot())
    {
      if !MayHonestVote(cfg, State(msgs, certs, views, stable, map[], []), x, height, block) {
        return false;
      }
      ok := Send(x, height, block);
    }

    method ByzVote(x: u64, height: u64, block: Block) returns (ok: bool)
      modifies this`msgs, detector, ledger
      ensures Snapshot() == BftSteps.Apply(cfg, old(Snapshot()), Action.ByzVote(x, height, block))
      ensures ok <==> Snapshot() != old(Snapshot())
    {
      if !Working(cfg, certs, height) || block.height != height {
        return false;
      }
      if FaultOf(cfg, x) != Byzantine || x !in CommitteeFor(cfg, certs, height) {
        return false;
      }
      ok := Send(x, height, block);
    }

    method Finalize(height: u64, block: Block) returns (ok: bool)
      modifies this`certs
      ensures Snapshot() == Finalized(cfg, old(Snapshot()), height, block)
      ensures ok <==> Snapshot() != old(Snapshot())
    {
      if height < MIN_HEIGHT || height > cfg.maxHeight {
        return false;
      }
      if !BelowDecided(certs, height) || Decided(certs, height) {
        return false;
      }
      var cert := Aggregate(cfg, height, block, CommitteeFor(cfg, certs, height), VotesFor(msgs, height, block));
      if cert.None? || cert.value in certs {
        return false;
      }
      certs := certs + [cert.value];
      return true;
    }

    method Timeout(height: u64) returns (ok: bool)
      modifies this`views
      ensures Snapshot() == TimedOut(cfg, old(Snapshot()), height)
      ensures ok <==> MayTimeout(cfg, old(Snapshot()), height)
      ensures ok <==> Snapshot() != old(Snapshot())
    {
      var view := View(height);
      if !Working(cfg, certs, height) || view >= cfg.maxView {
        return false;
      }
      if stable {
        var l := LeaderOf(cfg, certs, height, view);
        if l.None? || FaultOf(cfg, l.value) == Honest {
          return false;
        }
      }
      views := views[height := view + 1];
      return true;
    }

    method Stabilize() returns (ok: bool)
      modifies this`stable
      ensures Snapshot() == BftSteps.Apply(cfg, old(Snapshot()), Action.Stabilize)
      ensures ok <==> Snapshot() != old(Snapshot())
    {
      ok := !stable;
      stable := true;
    }

    /** What `advance_height` does in a view with an honest leader; at height 0 the source panics here. */
    method LeadRound(height: u64)
      requires height >= MIN_HEIGHT
      modifies this`msgs, this`certs, detector, ledger
      ensures Snapshot() == HonestRound(cfg, old(Snapshot()), height)
    {
      var _ := HonestPropose(height);
      ghost var proposed := Snapshot();
      assert proposed == HonestProposed(cfg, old(Snapshot()), height);
      var block := HonestBlock(cfg, certs, height);
      var committee := CommitteeFor(cfg, certs, height);
      for i := 0 to |committee|
        invariant VoteAll(cfg, Snapshot(), height, block, committee[i..])
          == VoteAll(cfg, proposed, height, block, committee)
        invariant certs == proposed.certs
      {
        if FaultOf(cfg, committee[i]) == Honest {
          var _ := Vote(committee[i], height, block);
        }
        assert committee[i..][1..] == committee[i + 1..];
      }
      var _ := Finalize(height, block);
    }

    method AdvanceHeight(height: u64) returns (ok: bool)
      requires Decided(certs, height) || Drivable(cfg, Snapshot(), height)
      modifies this, detector, ledger
      ensures (Snapshot(), ok) == Advance(cfg, old(Snapshot()), height)
    {
      while true
        invariant Decided(certs, height) || Drivable(cfg, Snapshot(), height)
        invariant Advance(cfg, Snapshot(), height) == Advance(cfg, old(Snapshot()), height)
        decreases cfg.maxView - View(height)
      {
        if Decided(certs, height) {
          return true;
        }
        var view := View(height);
        var l := LeaderOf(cfg, certs, height, view);
        if l.None? {
          return false;
        }
        if FaultOf(cfg, l.value) == Honest {
          LeadRound(height);
          if Decided(certs, height) {
            return true;
          }
        }
        var moved := Timeout(height);
        if !moved {
          return false;
        }
      }
    }

    method Run() returns (finalized: seq<Certificate>)
      modifies this, detector, ledger
      ensures Snapshot() == RunAll(cfg, old(Snapshot()))
      ensures multiset(finalized) == multiset(certs)
      ensures InOrder(cfg, certs) ==> finalized == certs
    {
      hide Advance, BelowDecided;
      var _ := Stabilize();
      ghost var goal := RunAll(cfg, old(Snapshot()));
      var height: nat := MIN_HEIGHT;
      while height <= cfg.maxHeight
        invariant MIN_HEIGHT <= height <= cfg.maxHeight + 1
        invariant goal == if height <= cfg.maxHeight then RunFrom(cfg, Snapshot(), height) else Snapshot()
      {
        RunFromNext(cfg, Snapshot(), height);
        var ok := AdvanceHeight(height);
        if !ok {
          break;
        }
        height := height + 1;
      }
      finalized := SortBy(ByHeight(), certs);
      OrderedByHeight(cfg, certs);
    }

    predicate IsSlashed(id: u64)
      reads ledger
    {
      IsBanned(ledger.slashes, id)
    }

    /** The full rescan; in any state a run reaches it finds exactly those the live ledger holds. */
    method Slashed() returns (flagged: seq<u64>)
      ensures forall i, j :: 0 <= i < j < |flagged| ==> flagged[i] < flagged[j]
      ensures forall id :: id in flagged <==> DoubleVoted(msgs, id)
      ensures Ledgered(Snapshot()) ==> forall id :: id in flagged <==> IsSlashed(id)
    {
      flagged := Rescan(msgs);
    }
  }
}
