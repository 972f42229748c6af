/**
 * The stage one machine as a transition system: every step as a function of the state, refused steps changing nothing.
 */
module BftSteps {
  import opened Wrappers
  import opened Bytes
  import opened Sorting
  import opened Blocks
  import opened BftCore

  const VALIDATOR_STAKE_QTOV: u64 := 2000

  datatype Slash = Slash(validator: u64, bondBurned: u64)

  datatype VoteKey = VoteKey(id: u64, height: u64)

  datatype State = State(msgs: seq<Message>, certs: seq<Certificate>, views: map<u64, u64>, stable: bool,
                         seen: map<VoteKey, Attestation>, slashes: seq<Slash>)

  /** View zero at every height from 1 to `height`. */
  function InitialViews(height: u64): map<u64, u64> {
    if height == 0 then map[] else InitialViews(height - 1)[height := 0]
  }

  function Init(cfg: Config): State {
    State([], [], InitialViews(cfg.maxHeight), false, map[], [])
  }

  function ViewOf(s: State, height: u64): u64 {
    if height in s.views then s.views[height] else 0
  }

  // ---- votes and certificates ----

  predicate HasVote(msgs: seq<Message>, a: Attestation) {
    Vote(a) in msgs
  }

  predicate VotedOther(msgs: seq<Message>, x: u64, height: u64, block: Block) {
    exists m :: m in msgs && m.Vote? && m.attestation.from == x && m.attestation.height == height
      && m.attestation.block != block
  }

  predicate SawProposal(cfg: Config, s: State, height: u64, block: Block) {
    exists m :: m in s.msgs && m.Propose? && m.height == height && m.block == block && m.view <= ViewOf(s, height)
      && LeaderOf(cfg, s.certs, height, m.view) == Some(m.from)
  }

  function VotesFor(msgs: seq<Message>, height: u64, block: Block): (votes: seq<Attestation>)
    ensures forall a :: a in votes <==> HasVote(msgs, a) && a.height == height && a.block == block
    ensures forall a :: multiset(votes)[a]
                        == if a.height == height && a.block == block then multiset(msgs)[Vote(a)] else 0
  {
    if msgs == [] then []
    else
      var m := msgs[|msgs| - 1];
      assert msgs == msgs[..|msgs| - 1] + [m];
      VotesFor(msgs[..|msgs| - 1], height, block)
      + if m.Vote? && m.attestation.height == height && m.attestation.block == block then [m.attestation] else []
  }

  lemma OneMoreMessage(msgs: seq<Message>, m: Message, height: u64, block: Block)
    ensures VotesFor(msgs + [m], height, block)
      == VotesFor(msgs, height, block)
         + if m.Vote? && m.attestation.height == height && m.attestation.block == block then [m.attestation] else []
  {
    assert (msgs + [m])[..|msgs|] == msgs;
  }

  lemma OneMoreSplits(msgs: seq<Message>, init: seq<Message>, m: Message, height: u64, block: Block)
    requires VotesFor(msgs + init, height, block) == VotesFor(msgs, height, block) + VotesFor(init, height, block)
    ensures VotesFor(msgs + (init + [m]), height, block)
      == VotesFor(msgs, height, block) + VotesFor(init + [m], height, block)
  {
    hide VotesFor;
    Reassociate(msgs, init, [m]);
    OneMoreMessage(msgs + init, m, height, block);
    OneMoreMessage(init, m, height, block);
  }

  /** The votes come in the order of the messages. */
  lemma {:induction false} VotesForSplits(msgs: seq<Message>, more: seq<Message>, height: u64, block: Block)
    ensures VotesFor(msgs + more, height, block) == VotesFor(msgs, height, block) + VotesFor(more, height, block)
    decreases |more|
  {
    if more == [] {
      assert msgs + more == msgs;
    } else {
      var init, m := more[..|more| - 1], more[|more| - 1];
      assert more == init + [m];
      VotesForSplits(msgs, init, height, block);
      OneMoreSplits(msgs, init, m, height, block);
    }
  }

  /** The committee members with a verified attestation to the block, each counted once. */
  function Counted(cfg: Config, height: u64, block: Block, committee: seq<u64>, votes: seq<Attestation>): seq<u64> {
    if votes == [] then []
    else
      var ids, a := Counted(cfg, height, block, committee, votes[..|votes| - 1]), votes[|votes| - 1];
      if a.height == height && a.block == block && a.from in committee && SignedInSet(cfg, a) && a.from !in ids
      then ids + [a.from] else ids
  }

  function Aggregated(cfg: Config, height: u64, block: Block, committee: seq<u64>,
                      votes: seq<Attestation>): Option<Certificate> {
    if block.height != height then None
    else
      var ids := Counted(cfg, height, block, committee, votes);
      if IsQuorum(|ids|, |committee|) then Some(Certificate(height, block, SortBy(ById(), ids))) else None
  }

  method Aggregate(cfg: Config, height: u64, block: Block, committee: seq<u64>, votes: seq<Attestation>)
    returns (cert: Option<Certificate>)
    ensures cert == Aggregated(cfg, height, block, committee, votes)
  {
    if block.height != height {
      return None;
    }
    var ids: seq<u64> := [];
    for i := 0 to |votes|
      invariant ids == Counted(cfg, height, block, committee, votes[..i])
    {
      var a := votes[i];
      assert votes[..i + 1][..i] == votes[..i];
      if a.height != height || a.block != block || a.from !in committee || !SignedInSet(cfg, a) {
        continue;
      }
      if a.from !in ids {
        ids := ids + [a.from];
      }
    }
    assert votes[..|votes|] == votes;
    cert := if IsQuorum(|ids|, |committee|) then Some(Certificate(height, block, SortBy(ById(), ids))) else None;
  }

  // ---- slashing ----

  predicate IsEquivocation(a: Attestation, b: Attestation) {
    a.from == b.from && a.height == b.height && a.block != b.block
  }

  /** The detector's table after it observes an attestation: the first signed one at each signer and height. */
  function Observed(cfg: Config, seen: map<VoteKey, Attestation>, a: Attestation): map<VoteKey, Attestation> {
    var key := VoteKey(a.from, a.height);
    if SignedInSet(cfg, a) && key !in seen then seen[key := a] else seen
  }

  /** The earlier attestation that this one contradicts, when the detector raises evidence. */
  function Evidence(cfg: Config, seen: map<VoteKey, Attestation>, a: Attestation): Option<Attestation> {
    var key := VoteKey(a.from, a.height);
    if SignedInSet(cfg, a) && key in seen && IsEquivocation(seen[key], a) then Some(seen[key]) else None
  }

  function SlashFrom(cfg: Config, first: Attestation, second: Attestation): Option<Slash> {
    if IsEquivocation(first, second) && SignedInSet(cfg, first) && SignedInSet(cfg, second)
    then Some(Slash(first.from, VALIDATOR_STAKE_QTOV)) else None
  }

  predicate IsBanned(slashes: seq<Slash>, id: u64) {
    exists p :: p in slashes && p.validator == id
  }

  function Applied(slashes: seq<Slash>, p: Slash): seq<Slash> {
    if IsBanned(slashes, p.validator) then slashes else slashes + [p]
  }

  function SlashesAfter(cfg: Config, s: State, a: Attestation): seq<Slash> {
    match Evidence(cfg, s.seen, a)
    case None => s.slashes
    case Some(first) =>
      match SlashFrom(cfg, first, a)
      case None => s.slashes
      case Some(p) => Applied(s.slashes, p)
  }

  /** A vote joins the messages and passes the detector. */
  function AddVote(cfg: Config, s: State, a: Attestation): State {
    s.(msgs := s.msgs + [Vote(a)], seen := Observed(cfg, s.seen, a), slashes := SlashesAfter(cfg, s, a))
  }

  // ---- the steps ----

  datatype Action =
    | HonestPropose(height: u64)
    | ByzPropose(height: u64, block: Block)
    | HonestVote(x: u64, height: u64, block: Block)
    | ByzVote(x: u64, height: u64, block: Block)
    | Finalize(height: u64, block: Block)
    | Timeout(height: u64)
    | Stabilize

  function Proposed(cfg: Config, s: State, height: u64, fault: Fault, block: Block): (t: State)
    ensures t.certs == s.certs && t.views == s.views && t.stable == s.stable
  {
    var view := ViewOf(s, height);
    match LeaderOf(cfg, s.certs, height, view)
    case None => s
    case Some(l) =>
      var m := Propose(l, height, view, block);
      if FaultOf(cfg, l) == fault && m !in s.msgs then s.(msgs := s.msgs + [m]) else s
  }

  predicate MayHonestVote(cfg: Config, s: State, x: u64, height: u64, block: Block) {
    && Working(cfg, s.certs, height)
    && FaultOf(cfg, x) == Honest && x in CommitteeFor(cfg, s.certs, height)
    && ValidBlock(s.certs, block, height) && SawProposal(cfg, s, height, block) && !VotedOther(s.msgs, x, height, block)
  }

  predicate MayByzVote(cfg: Config, s: State, x: u64, height: u64, block: Block) {
    && Working(cfg, s.certs, height) && block.height == height
    && FaultOf(cfg, x) == Byzantine && x in CommitteeFor(cfg, s.certs, height)
  }

  function Voted(cfg: Config, s: State, x: u64, height: u64, block: Block): (t: State)
    ensures t.certs == s.certs && t.views == s.views && t.stable == s.stable
  {
    match Get(cfg.participants, x)
    case None => s
    case Some(v) =>
      var a := Attest(cfg, v, height, block);
      if HasVote(s.msgs, a) then s else AddVote(cfg, s, a)
  }

  function Finalized(cfg: Config, s: State, height: u64, block: Block): (t: State)
    ensures t.msgs == s.msgs && t.views == s.views && t.stable == s.stable
  {
    if !(MIN_HEIGHT <= height <= cfg.maxHeight) || !BelowDecided(s.certs, height) || Decided(s.certs, height) then s
    else
      match Aggregated(cfg, height, block, CommitteeFor(cfg, s.certs, height), VotesFor(s.msgs, height, block))
      case None => s
      case Some(cert) => if cert in s.certs then s else s.(certs := s.certs + [cert])
  }

  predicate MayTimeout(cfg: Config, s: State, height: u64) {
    && Working(cfg, s.certs, height) && ViewOf(s, height) < cfg.maxView
    && (s.stable ==>
          match LeaderOf(cfg, s.certs, height, ViewOf(s, height))
          case None => false
          case Some(l) => FaultOf(cfg, l) != Honest)
  }

  function TimedOut(cfg: Config, s: State, height: u64): (t: State)
    ensures MayTimeout(cfg, s, height) ==> ViewOf(t, height) == ViewOf(s, height) + 1 <= cfg.maxView
    ensures !MayTimeout(cfg, s, height) ==> t == s
  {
    if MayTimeout(cfg, s, height) then s.(views := s.views[height := ViewOf(s, height) + 1]) else s
  }

  function Apply(cfg: Config, s: State, action: Action): State {
    match action
    case HonestPropose(h) =>
      if Working(cfg, s.certs, h) then Proposed(cfg, s, h, Honest, HonestBlock(cfg, s.certs, h)) else s
    case ByzPropose(h, b) => if Working(cfg, s.certs, h) && b.height == h then Proposed(cfg, s, h, Byzantine, b) else s
    case HonestVote(x, h, b) => if MayHonestVote(cfg, s, x, h, b) then Voted(cfg, s, x, h, b) else s
    case ByzVote(x, h, b) => if MayByzVote(cfg, s, x, h, b) then Voted(cfg, s, x, h, b) else s
    case Finalize(h, b) => Finalized(cfg, s, h, b)
    case Timeout(h) => TimedOut(cfg, s, h)
    case Stabilize => s.(stable := true)
  }

  /** The state after a run of steps, in order. */
  function Run(cfg: Config, actions: seq<Action>): State {
    if actions == [] then Init(cfg) else Apply(cfg, Run(cfg, actions[..|actions| - 1]), actions[|actions| - 1])
  }
}
