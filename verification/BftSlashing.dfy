/**
 * Slashing over every run: the live ledger holds exactly the double voters that a full rescan of the messages finds.
 */
module BftSlashing {
  import opened Wrappers
  import opened Bytes
  import opened Sorting
  import opened IdSets
  import opened Blocks
  import opened BftCore
  import opened BftSteps
  import opened BftSafety

  /** Two of the votes contradict each other, under this signer. */
  ghost predicate DoubleVoted(msgs: seq<Message>, id: u64) {
    exists a, b :: TwoVotes(msgs, id, a, b)
  }

  ghost predicate TwoVotes(msgs: seq<Message>, id: u64, a: Attestation, b: Attestation) {
    HasVote(msgs, a) && HasVote(msgs, b) && a.from == b.from == id && a.height == b.height && a.block != b.block
  }

  // ---- the rescan ----

  ghost predicate Contradicts(atts: seq<Attestation>, i: int, j: int) {
    0 <= i < j < |atts| && atts[i].from == atts[j].from && atts[i].height == atts[j].height
    && atts[i].block != atts[j].block
  }

  /** Compares every pair, and returns the signers of contradictory ones in ascending order. */
  method Equivocators(atts: seq<Attestation>) returns (flagged: seq<u64>)
    ensures forall i, j :: 0 <= i < j < |flagged| ==> flagged[i] < flagged[j]
    ensures forall id :: id in flagged <==> exists i, j :: Contradicts(atts, i, j) && atts[i].from == id
  {
    var found: seq<u64> := [];
    for i := 0 to |atts|
      invariant Distinct(found)
      invariant forall id :: id in found <==> exists m, n :: Contradicts(atts, m, n) && m < i && atts[m].from == id
    {
      ghost var before := found;
      for j := i + 1 to |atts|
        invariant Distinct(found)
        invariant forall id :: id in found <==>
          id in before || exists n :: Contradicts(atts, i, n) && n < j && atts[i].from == id
      {
        if IsEquivocation(atts[i], atts[j]) && atts[i].from !in found {
          assert Contradicts(atts, i, j);
          found := found + [atts[i].from];
        }
      }
      forall id ensures id in found <==> exists m, n :: Contradicts(atts, m, n) && m < i + 1 && atts[m].from == id {
        if id in found && id !in before {
          var n :| Contradicts(atts, i, n) && n < |atts| && atts[i].from == id;
        }
      }
    }
    SortKeeps(ById(), found);
    SortSorts(ById(), found);
    flagged := SortBy(ById(), found);
    assert forall i, j :: 0 <= i < j < |flagged| ==> ById()(flagged[i], flagged[j]) && flagged[i] != flagged[j];
  }

  function Attestations(msgs: seq<Message>): (votes: seq<Attestation>)
    ensures forall a :: a in votes <==> HasVote(msgs, a)
  {
    if msgs == [] then []
    else
      assert msgs == msgs[..|msgs| - 1] + [msgs[|msgs| - 1]];
      Attestations(msgs[..|msgs| - 1]) + if msgs[|msgs| - 1].Vote? then [msgs[|msgs| - 1].attestation] else []
  }

  /** `slashed`: the rescan of every vote among the messages. */
  method Rescan(msgs: seq<Message>) returns (flagged: seq<u64>)
    ensures forall i, j :: 0 <= i < j < |flagged| ==> flagged[i] < flagged[j]
    ensures forall id :: id in flagged <==> DoubleVoted(msgs, id)
  {
    var atts := Attestations(msgs);
    flagged := Equivocators(atts);
    forall id | DoubleVoted(msgs, id) ensures id in flagged {
      var a, b :| TwoVotes(msgs, id, a, b);
      var i :| 0 <= i < |atts| && atts[i] == a;
      var j :| 0 <= j < |atts| && atts[j] == b;
      assert Contradicts(atts, i, j) || Contradicts(atts, j, i);
    }
    forall id | id in flagged ensures DoubleVoted(msgs, id) {
      var i, j :| Contradicts(atts, i, j) && atts[i].from == id;
      assert TwoVotes(msgs, id, atts[i], atts[j]);
    }
  }

  // ---- the live ledger ----

  ghost predicate FirstSeen(msgs: seq<Message>, seen: map<VoteKey, Attestation>) {
    && (forall key :: key in seen ==>
        HasVote(msgs, seen[key]) && seen[key].from == key.id && seen[key].height == key.height)
    && (forall a :: HasVote(msgs, a) ==> VoteKey(a.from, a.height) in seen)
  }

  ghost predicate LedgerExact(msgs: seq<Message>, slashes: seq<Slash>) {
    && (forall i, j :: 0 <= i < j < |slashes| ==> slashes[i].validator != slashes[j].validator)
    && (forall p :: p in slashes ==> p.bondBurned == VALIDATOR_STAKE_QTOV)
    && (forall id :: IsBanned(slashes, id) <==> DoubleVoted(msgs, id))
  }

  ghost predicate Ledgered(s: State) {
    FirstSeen(s.msgs, s.seen) && LedgerExact(s.msgs, s.slashes)
  }

  lemma VoteIsSigned(cfg: Config, certs: seq<Certificate>, a: Attestation)
    requires KeysMatch(cfg) && VoteSound(cfg, certs, a)
    ensures SignedInSet(cfg, a)
  {
    var v := Get(cfg.participants, a.from).value;
    assert v in cfg.participants;
  }

  ghost predicate AllSigned(cfg: Config, msgs: seq<Message>) {
    forall a :: HasVote(msgs, a) ==> SignedInSet(cfg, a)
  }

  lemma VotesAreSigned(cfg: Config, msgs: seq<Message>, certs: seq<Certificate>)
    requires KeysMatch(cfg) && VotesSound(cfg, msgs, certs)
    ensures AllSigned(cfg, msgs)
  {
    forall a | HasVote(msgs, a) ensures SignedInSet(cfg, a) {
      VoteIsSigned(cfg, certs, a);
    }
  }

  lemma HasVoteAppend(msgs: seq<Message>, a: Attestation)
    ensures forall b :: HasVote(msgs + [Vote(a)], b) <==> b == a || HasVote(msgs, b)
  {
  }

  /**
   * A new vote makes its signer a double voter exactly when it contradicts the signer's first vote, or one already was.
   */
  lemma DoubleVoteGrows(s: State, a: Attestation, id: u64)
    requires FirstSeen(s.msgs, s.seen)
    ensures DoubleVoted(s.msgs + [Vote(a)], id) <==>
      DoubleVoted(s.msgs, id)
      || (id == a.from && VoteKey(a.from, a.height) in s.seen && IsEquivocation(s.seen[VoteKey(a.from, a.height)], a))
  {
    var next := s.msgs + [Vote(a)];
    var key := VoteKey(a.from, a.height);
    HasVoteAppend(s.msgs, a);
    if DoubleVoted(next, id) {
      var b, c :| TwoVotes(next, id, b, c);
      if b != a && c != a {
        assert TwoVotes(s.msgs, id, b, c);
      } else {
        var other := if b == a then c else b;
        assert HasVote(s.msgs, other);
        if s.seen[key].block == a.block {
          assert TwoVotes(s.msgs, id, s.seen[key], other);
        }
      }
    }
    if DoubleVoted(s.msgs, id) {
      var b, c :| TwoVotes(s.msgs, id, b, c);
      assert TwoVotes(next, id, b, c);
    }
    if id == a.from && key in s.seen && IsEquivocation(s.seen[key], a) {
      assert TwoVotes(next, id, s.seen[key], a);
    }
  }

  /** A slash takes two signed votes of one signer at one height for different blocks, and burns the whole bond. */
  lemma SlashFromExactly(cfg: Config, first: Attestation, second: Attestation)
    ensures SlashFrom(cfg, first, second) ==
      if first.from == second.from && first.height == second.height && first.block != second.block
         && SignedInSet(cfg, first) && SignedInSet(cfg, second)
      then Some(Slash(first.from, 2000)) else None
  {
  }

  lemma AppliedBans(slashes: seq<Slash>, p: Slash, id: u64)
    ensures IsBanned(Applied(slashes, p), id) <==> IsBanned(slashes, id) || id == p.validator
  {
    if !IsBanned(slashes, p.validator) {
      assert p in slashes + [p];
      forall q ensures q in slashes + [p] <==> q in slashes || q == p {
      }
    }
  }

  /** The new vote contradicts its signer's first at that height. */
  predicate ContradictsFirst(seen: map<VoteKey, Attestation>, a: Attestation) {
    var key := VoteKey(a.from, a.height);
    key in seen && IsEquivocation(seen[key], a)
  }

  lemma SlashesOnContradiction(cfg: Config, s: State, a: Attestation)
    requires FirstSeen(s.msgs, s.seen) && AllSigned(cfg, s.msgs) && SignedInSet(cfg, a)
    ensures SlashesAfter(cfg, s, a) ==
      if ContradictsFirst(s.seen, a) then Applied(s.slashes, Slash(a.from, VALIDATOR_STAKE_QTOV)) else s.slashes
    ensures Observed(cfg, s.seen, a) == if VoteKey(a.from, a.height) in s.seen then s.seen
      else s.seen[VoteKey(a.from, a.height) := a]
  {
    var key := VoteKey(a.from, a.height);
    assert key in s.seen ==> SignedInSet(cfg, s.seen[key]);
  }

  lemma AppliedKeeps(slashes: seq<Slash>, p: Slash)
    requires forall i, j :: 0 <= i < j < |slashes| ==> slashes[i].validator != slashes[j].validator
    ensures var r := Applied(slashes, p); forall i, j :: 0 <= i < j < |r| ==> r[i].validator != r[j].validator
    ensures forall q :: q in Applied(slashes, p) ==> q in slashes || q == p
  {
    forall i | 0 <= i < |slashes| ensures slashes[i] in slashes {
    }
  }

  lemma LedgerKeptByVote(cfg: Config, s: State, a: Attestation)
    requires Ledgered(s) && AllSigned(cfg, s.msgs) && SignedInSet(cfg, a)
    ensures Ledgered(AddVote(cfg, s, a))
  {
    var t := AddVote(cfg, s, a);
    SlashesOnContradiction(cfg, s, a);
    HasVoteAppend(s.msgs, a);
    assert FirstSeen(t.msgs, t.seen);
    LedgerExactAfter(s, a, t.slashes);
  }

  lemma LedgerExactAfter(s: State, a: Attestation, slashes: seq<Slash>)
    requires Ledgered(s)
    requires slashes == if ContradictsFirst(s.seen, a) then Applied(s.slashes, Slash(a.from, VALIDATOR_STAKE_QTOV))
      else s.slashes
    ensures LedgerExact(s.msgs + [Vote(a)], slashes)
  {
    AppliedKeeps(s.slashes, Slash(a.from, VALIDATOR_STAKE_QTOV));
    forall id ensures IsBanned(slashes, id) <==> DoubleVoted(s.msgs + [Vote(a)], id) {
      DoubleVoteGrows(s, a, id);
      AppliedBans(s.slashes, Slash(a.from, VALIDATOR_STAKE_QTOV), id);
    }
  }

  lemma LedgerKeptByProposal(s: State, m: Message)
    requires Ledgered(s) && m.Propose?
    ensures Ledgered(s.(msgs := s.msgs + [m]))
  {
    var next := s.msgs + [m];
    forall b ensures HasVote(next, b) <==> HasVote(s.msgs, b) {
    }
    forall id ensures DoubleVoted(next, id) <==> DoubleVoted(s.msgs, id) {
      if DoubleVoted(next, id) {
        var a, b :| TwoVotes(next, id, a, b);
        assert TwoVotes(s.msgs, id, a, b);
      }
      if DoubleVoted(s.msgs, id) {
        var a, b :| TwoVotes(s.msgs, id, a, b);
        assert TwoVotes(next, id, a, b);
      }
    }
  }

  lemma LedgerKeptByVoted(cfg: Config, s: State, x: u64, height: u64, block: Block)
    requires KeysMatch(cfg) && Safe(cfg, s.msgs, s.certs) && Ledgered(s)
    ensures Ledgered(Voted(cfg, s, x, height, block))
  {
    VotesAreSigned(cfg, s.msgs, s.certs);
    if Get(cfg.participants, x).Some? {
      var a := Attest(cfg, Get(cfg.participants, x).value, height, block);
      assert SignedInSet(cfg, a);
      LedgerKeptByVote(cfg, s, a);
    }
  }

  lemma LedgerKeptByProposed(cfg: Config, s: State, height: u64, fault: Fault, block: Block)
    requires Ledgered(s)
    ensures Ledgered(Proposed(cfg, s, height, fault, block))
  {
    var t := Proposed(cfg, s, height, fault, block);
    if t.msgs != s.msgs {
      LedgerKeptByProposal(s, t.msgs[|s.msgs|]);
    }
  }

  lemma StepKeepsLedger(cfg: Config, s: State, action: Action)
    requires KeysMatch(cfg) && Safe(cfg, s.msgs, s.certs) && Ledgered(s)
    ensures Ledgered(Apply(cfg, s, action))
  {
    match action
    case HonestPropose(h) =>
      if Working(cfg, s.certs, h) { LedgerKeptByProposed(cfg, s, h, Honest, HonestBlock(cfg, s.certs, h)); }
    case ByzPropose(h, b) => LedgerKeptByProposed(cfg, s, h, Byzantine, b);
    case HonestVote(x, h, b) => if MayHonestVote(cfg, s, x, h, b) { LedgerKeptByVoted(cfg, s, x, h, b); }
    case ByzVote(x, h, b) => if MayByzVote(cfg, s, x, h, b) { LedgerKeptByVoted(cfg, s, x, h, b); }
    case Finalize(h, b) =>
    case Timeout(h) =>
    case Stabilize =>
  }

  lemma {:induction false} RunIsLedgered(cfg: Config, actions: seq<Action>)
    requires KeysMatch(cfg)
    ensures Ledgered(Run(cfg, actions))
  {
    if actions != [] {
      var init := actions[..|actions| - 1];
      RunIsLedgered(cfg, init);
      RunIsSafe(cfg, init);
      StepKeepsLedger(cfg, Run(cfg, init), actions[|actions| - 1]);
    }
  }

  function BurnedBond(slashes: seq<Slash>): nat {
    if slashes == [] then 0 else BurnedBond(slashes[..|slashes| - 1]) + slashes[|slashes| - 1].bondBurned
  }

  lemma {:induction false} BurnedIsFixedEach(slashes: seq<Slash>)
    requires forall p :: p in slashes ==> p.bondBurned == VALIDATOR_STAKE_QTOV
    ensures BurnedBond(slashes) == |slashes| * VALIDATOR_STAKE_QTOV
  {
    if slashes != [] {
      BurnedIsFixedEach(slashes[..|slashes| - 1]);
    }
  }

  /**
   * At every point of every run the live ledger bans exactly the double voters, all of them byzantine, each for one
   * bond.
   */
  lemma LedgerAgrees(cfg: Config, actions: seq<Action>, id: u64)
    requires KeysMatch(cfg)
    ensures var s := Run(cfg, actions);
      && (IsBanned(s.slashes, id) <==> DoubleVoted(s.msgs, id))
      && (IsBanned(s.slashes, id) ==> FaultOf(cfg, id) == Byzantine)
      && (forall i, j :: 0 <= i < j < |s.slashes| ==> s.slashes[i].validator != s.slashes[j].validator)
      && BurnedBond(s.slashes) == |s.slashes| * VALIDATOR_STAKE_QTOV
  {
    var s := Run(cfg, actions);
    RunIsLedgered(cfg, actions);
    RunIsSafe(cfg, actions);
    BurnedIsFixedEach(s.slashes);
  }
}
