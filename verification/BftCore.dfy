/**
 * The stage one core: validators, messages, certificates, and the committee and leader a chain of certificates fixes.
 */
module BftCore {
  import opened Wrappers
  import opened Bytes
  import opened IdSets
  import opened Sorting
  import opened Blocks

  const MIN_HEIGHT: u64 := 1

  datatype Role = Voter | Prover

  datatype Fault = Honest | Byzantine | Offline

  datatype Validator = Validator(id: u64, role: Role, fault: Fault, publicKey: seq<u8>, secretKey: seq<u8>)

  /** The primitives, arbitrary: `hash`, `sign(secret, message)` and `verify(public, message, signature)`. */
  datatype Primitives = Primitives(hash: seq<u8> -> Bytes32, sign: (seq<u8>, seq<u8>) -> seq<u8>,
                                   verify: (seq<u8>, seq<u8>, seq<u8>) -> bool)

  datatype Config = Config(prims: Primitives, participants: seq<Validator>, committeeSize: nat, genesisSeed: Bytes32,
                           maxHeight: u64, maxView: u64)

  datatype Attestation = Attestation(from: u64, height: u64, block: Block, sig: seq<u8>)

  datatype Message = Propose(from: u64, height: u64, view: u64, block: Block) | Vote(attestation: Attestation)

  datatype Certificate = Certificate(height: u64, block: Block, attesters: seq<u64>)

  // ---- the validator set ----

  function Get(ps: seq<Validator>, id: u64): (v: Option<Validator>)
    ensures v.Some? ==> v.value in ps && v.value.id == id
    ensures v.None? ==> forall p :: p in ps ==> p.id != id
  {
    if ps == [] then None else if ps[0].id == id then Some(ps[0]) else Get(ps[1..], id)
  }

  function FaultOf(cfg: Config, id: u64): Fault {
    match Get(cfg.participants, id)
    case None => Honest
    case Some(v) => v.fault
  }

  ghost predicate DistinctParticipants(cfg: Config) {
    forall i, j :: 0 <= i < j < |cfg.participants| ==> cfg.participants[i].id != cfg.participants[j].id
  }

  /** Key generation's promise: each participant's signatures verify under its public key. */
  ghost predicate KeysMatch(cfg: Config) {
    forall v, m :: v in cfg.participants ==> cfg.prims.verify(v.publicKey, m, cfg.prims.sign(v.secretKey, m))
  }

  function VoteMessage(height: u64, block: Block): seq<u8> {
    LittleEndian(height, 8) + block.ToBytes()
  }

  function Attest(cfg: Config, v: Validator, height: u64, block: Block): Attestation {
    Attestation(v.id, height, block, cfg.prims.sign(v.secretKey, VoteMessage(height, block)))
  }

  /** A signed vote determines its height and block. */
  lemma VoteMessageInjective(height: u64, block: Block, height': u64, block': Block)
    requires VoteMessage(height, block) == VoteMessage(height', block')
    ensures height == height' && block == block'
  {
    SplitConcat(LittleEndian(height, 8), block.ToBytes(), LittleEndian(height', 8), block'.ToBytes());
    U64Injective(height, height');
    ToBytesInjective(block, block');
  }

  /** The attestation verifies under the key the set holds for its signer. */
  predicate SignedInSet(cfg: Config, a: Attestation) {
    match Get(cfg.participants, a.from)
    case None => false
    case Some(v) => cfg.prims.verify(v.publicKey, VoteMessage(a.height, a.block), a.sig)
  }

  // ---- committees and leaders ----

  function VotingIds(ps: seq<Validator>): seq<u64> {
    if ps == [] then [] else (if ps[0].role == Voter then [ps[0].id] else []) + VotingIds(ps[1..])
  }

  function Score(cfg: Config, seed: Bytes32, id: u64): Bytes32 {
    cfg.prims.hash(seed + LittleEndian(id, 8))
  }

  /** Lower score first, and the lower id between equal scores. */
  predicate ScoreLeq(cfg: Config, seed: Bytes32, a: u64, b: u64) {
    var x, y := Score(cfg, seed, a), Score(cfg, seed, b);
    (x == y && a <= b) || (x != y && LexLeq(x, y))
  }

  function ByScore(cfg: Config, seed: Bytes32): (u64, u64) -> bool {
    (a: u64, b: u64) => ScoreLeq(cfg, seed, a, b)
  }

  function ById(): (u64, u64) -> bool {
    (a: u64, b: u64) => a <= b
  }

  function Ranking(cfg: Config, seed: Bytes32): seq<u64> {
    SortBy(ByScore(cfg, seed), SortBy(ById(), VotingIds(cfg.participants)))
  }

  function TakeAtMost(s: seq<u64>, n: nat): seq<u64> {
    if n < |s| then s[..n] else s
  }

  function SampleCommittee(cfg: Config, seed: Bytes32): seq<u64> {
    SortBy(ById(), TakeAtMost(Ranking(cfg, seed), cfg.committeeSize))
  }

  function Leader(committee: seq<u64>, height: u64, view: u64): Option<u64> {
    if committee == [] then None else Some(committee[((height + view) % 0x1_0000_0000_0000_0000) % |committee|])
  }

  lemma ScoreOrderIsTotal(cfg: Config, seed: Bytes32)
    ensures TotalOrder(ByScore(cfg, seed))
  {
    var leq := ByScore(cfg, seed);
    forall a, b ensures leq(a, b) || leq(b, a) {
      LexTotal(Score(cfg, seed, a), Score(cfg, seed, b));
    }
    forall a, b, c | leq(a, b) && leq(b, c) ensures leq(a, c) {
      var x, y, z := Score(cfg, seed, a), Score(cfg, seed, b), Score(cfg, seed, c);
      if x != y && y != z {
        LexTransitive(x, y, z);
        if x == z { LexAntisymmetric(x, y); }
      }
    }
  }

  lemma {:induction false} VotingIdsOf(ps: seq<Validator>)
    requires forall i, j :: 0 <= i < j < |ps| ==> ps[i].id != ps[j].id
    ensures Distinct(VotingIds(ps))
    ensures forall id :: id in VotingIds(ps) <==> exists v :: v in ps && v.role == Voter && v.id == id
  {
    if ps != [] {
      var rest := ps[1..];
      assert ps == [ps[0]] + rest;
      VotingIdsOf(rest);
      assert forall v :: v in rest ==> v.id != ps[0].id;
      assert ps[0].id !in VotingIds(rest);
    }
  }

  lemma TakeKeeps(ranking: seq<u64>, n: nat)
    requires Distinct(ranking)
    ensures var taken := TakeAtMost(ranking, n);
      && Distinct(taken) && |taken| == (if n < |ranking| then n else |ranking|)
      && forall id :: id in taken ==> id in ranking
  {
  }

  lemma RankingKeeps(cfg: Config, seed: Bytes32)
    requires Distinct(VotingIds(cfg.participants))
    ensures var ids, ranking := VotingIds(cfg.participants), Ranking(cfg, seed);
      Distinct(ranking) && |ranking| == |ids| && forall id :: id in ranking <==> id in ids
  {
    SortKeeps(ById(), VotingIds(cfg.participants));
    SortKeeps(ByScore(cfg, seed), SortBy(ById(), VotingIds(cfg.participants)));
  }

  lemma CommitteeIds(cfg: Config, seed: Bytes32)
    requires Distinct(VotingIds(cfg.participants))
    ensures Distinct(SampleCommittee(cfg, seed))
    ensures forall id :: id in SampleCommittee(cfg, seed) ==> id in VotingIds(cfg.participants)
    ensures |SampleCommittee(cfg, seed)|
      == if cfg.committeeSize < |VotingIds(cfg.participants)| then cfg.committeeSize else |VotingIds(cfg.participants)|
  {
    RankingKeeps(cfg, seed);
    TakeKeeps(Ranking(cfg, seed), cfg.committeeSize);
    SortKeeps(ById(), TakeAtMost(Ranking(cfg, seed), cfg.committeeSize));
  }

  /** A committee holds distinct voting ids, as many as asked for or as there are. */
  lemma CommitteeMembers(cfg: Config, seed: Bytes32)
    requires DistinctParticipants(cfg)
    ensures Distinct(SampleCommittee(cfg, seed))
    ensures forall id :: id in SampleCommittee(cfg, seed) ==>
      Get(cfg.participants, id).Some? && Get(cfg.participants, id).value.role == Voter
    ensures |SampleCommittee(cfg, seed)|
      == if cfg.committeeSize < |VotingIds(cfg.participants)| then cfg.committeeSize else |VotingIds(cfg.participants)|
  {
    VotingIdsOf(cfg.participants);
    CommitteeIds(cfg, seed);
    forall id | id in SampleCommittee(cfg, seed)
      ensures Get(cfg.participants, id).Some? && Get(cfg.participants, id).value.role == Voter
    {
      VoterFound(cfg.participants, id);
    }
  }

  lemma VoterFound(ps: seq<Validator>, id: u64)
    requires id in VotingIds(ps) && forall i, j :: 0 <= i < j < |ps| ==> ps[i].id != ps[j].id
    ensures Get(ps, id).Some? && Get(ps, id).value.role == Voter
  {
    VotingIdsOf(ps);
    var v :| v in ps && v.role == Voter && v.id == id;
    GetDistinct(ps, v);
  }

  /** The committee is listed in ascending order, which fixes whose turn a view is. */
  lemma CommitteeAscends(cfg: Config, seed: Bytes32)
    ensures var committee := SampleCommittee(cfg, seed);
      forall i, j :: 0 <= i < j < |committee| ==> committee[i] <= committee[j]
  {
    SortSorts(ById(), TakeAtMost(Ranking(cfg, seed), cfg.committeeSize));
    var committee := SampleCommittee(cfg, seed);
    assert forall i, j :: 0 <= i < j < |committee| ==> ById()(committee[i], committee[j]);
  }

  lemma {:induction false} GetDistinct(ps: seq<Validator>, v: Validator)
    requires v in ps && forall i, j :: 0 <= i < j < |ps| ==> ps[i].id != ps[j].id
    ensures Get(ps, v.id) == Some(v)
  {
    if ps[0] != v {
      assert v in ps[1..];
      GetDistinct(ps[1..], v);
      var i :| 0 <= i < |ps[1..]| && ps[1..][i] == v;
      assert ps[i + 1] == v;
    }
  }

  /** Hash inputs of scores differ between ids and between seeds. */
  lemma ScoreInputInjective(seed: Bytes32, id: u64, seed': Bytes32, id': u64)
    requires seed + LittleEndian(id, 8) == seed' + LittleEndian(id', 8)
    ensures seed == seed' && id == id'
  {
    SplitConcat(seed, LittleEndian(id, 8), seed', LittleEndian(id', 8));
    U64Injective(id, id');
  }

  /** The committee is the lowest-scored voters: the hash of a member's seed and id is below that of any outsider. */
  lemma CommitteeIsLowest(cfg: Config, seed: Bytes32, member: u64, outsider: u64)
    requires DistinctParticipants(cfg)
    requires member in SampleCommittee(cfg, seed)
    requires outsider in VotingIds(cfg.participants) && outsider !in SampleCommittee(cfg, seed)
    ensures var x := cfg.prims.hash(seed + LittleEndian(member, 8));
      var y := cfg.prims.hash(seed + LittleEndian(outsider, 8));
      (x == y && member < outsider) || exists k :: LowerAt(x, y, k)
  {
    hide SampleCommittee, VotingIds, LexLeq, LittleEndian;
    RanksFirst(cfg, seed, member, outsider);
    var x, y := Score(cfg, seed, member), Score(cfg, seed, outsider);
    if x != y {
      var k := LowerSomewhere(x, y);
    }
  }

  lemma RanksFirst(cfg: Config, seed: Bytes32, member: u64, outsider: u64)
    requires DistinctParticipants(cfg)
    requires member in SampleCommittee(cfg, seed)
    requires outsider in VotingIds(cfg.participants) && outsider !in SampleCommittee(cfg, seed)
    ensures ScoreLeq(cfg, seed, member, outsider)
  {
    var ranking := Ranking(cfg, seed);
    var taken := TakeAtMost(ranking, cfg.committeeSize);
    SortKeeps(ById(), VotingIds(cfg.participants));
    SortKeeps(ByScore(cfg, seed), SortBy(ById(), VotingIds(cfg.participants)));
    SortKeeps(ById(), taken);
    assert ScoreSorted(cfg, seed, ranking) by {
      ScoreOrderIsTotal(cfg, seed);
      SortSorts(ByScore(cfg, seed), SortBy(ById(), VotingIds(cfg.participants)));
    }
    assert member in taken && outsider !in taken && outsider in ranking;
    TakenFirst(cfg, seed, ranking, cfg.committeeSize, member, outsider);
  }

  ghost predicate ScoreSorted(cfg: Config, seed: Bytes32, ids: seq<u64>) {
    forall i, j :: 0 <= i < j < |ids| ==> ScoreLeq(cfg, seed, ids[i], ids[j])
  }

  lemma TakenFirst(cfg: Config, seed: Bytes32, ranking: seq<u64>, n: nat, member: u64, outsider: u64)
    requires ScoreSorted(cfg, seed, ranking)
    requires member in TakeAtMost(ranking, n) && outsider in ranking && outsider !in TakeAtMost(ranking, n)
    ensures ScoreLeq(cfg, seed, member, outsider)
  {
    var taken := TakeAtMost(ranking, n);
    var j :| 0 <= j < |ranking| && ranking[j] == outsider;
    var i :| 0 <= i < |taken| && taken[i] == member;
    assert forall k :: 0 <= k < |taken| ==> taken[k] == ranking[k] && taken[k] in taken;
    assert ranking[i] == member;
  }

  // ---- what a chain of certificates fixes ----

  function FindCert(certs: seq<Certificate>, height: u64): (c: Option<Certificate>)
    ensures c.Some? ==> c.value in certs && c.value.height == height
    ensures c.None? ==> forall d :: d in certs ==> d.height != height
  {
    if certs == [] then None else if certs[0].height == height then Some(certs[0]) else FindCert(certs[1..], height)
  }

  predicate Decided(certs: seq<Certificate>, height: u64) {
    FindCert(certs, height).Some?
  }

  function IdBytes(ids: seq<u64>): seq<u8> {
    if ids == [] then [] else LittleEndian(ids[0], 8) + IdBytes(ids[1..])
  }

  function BeaconInput(c: Certificate, previous: Bytes32): seq<u8> {
    previous + c.block.ToBytes() + IdBytes(c.attesters)
  }

  function Beacon(cfg: Config, c: Certificate, previous: Bytes32): Bytes32 {
    cfg.prims.hash(BeaconInput(c, previous))
  }

  lemma {:induction false} IdBytesInjective(ids: seq<u64>, others: seq<u64>)
    requires IdBytes(ids) == IdBytes(others)
    ensures ids == others
  {
    if ids != [] && others != [] {
      SplitConcat(LittleEndian(ids[0], 8), IdBytes(ids[1..]), LittleEndian(others[0], 8), IdBytes(others[1..]));
      U64Injective(ids[0], others[0]);
      IdBytesInjective(ids[1..], others[1..]);
      assert ids == [ids[0]] + ids[1..] && others == [others[0]] + others[1..];
    } else {
      assert ids == [] ==> |IdBytes(ids)| == 0;
      assert others == [] ==> |IdBytes(others)| == 0;
    }
  }

  /** A beacon's hash input determines the previous seed, the block and the attesters. */
  lemma BeaconInputInjective(c: Certificate, previous: Bytes32, d: Certificate, other: Bytes32)
    requires BeaconInput(c, previous) == BeaconInput(d, other)
    ensures previous == other && c.block == d.block && c.attesters == d.attesters
  {
    SplitConcat(previous + c.block.ToBytes(), IdBytes(c.attesters), other + d.block.ToBytes(), IdBytes(d.attesters));
    SplitConcat(previous, c.block.ToBytes(), other, d.block.ToBytes());
    ToBytesInjective(c.block, d.block);
    IdBytesInjective(c.attesters, d.attesters);
  }

  /** The seed folded over the certificates from height `g` up to, not including, `height`, as far as they reach. */
  function SeedFrom(cfg: Config, certs: seq<Certificate>, seed: Bytes32, g: u64, height: u64): Bytes32
    decreases height - g
  {
    if g >= height then seed
    else
      match FindCert(certs, g)
      case None => seed
      case Some(c) => SeedFrom(cfg, certs, Beacon(cfg, c, seed), g + 1, height)
  }

  function SeedFor(cfg: Config, certs: seq<Certificate>, height: u64): Bytes32 {
    SeedFrom(cfg, certs, cfg.genesisSeed, MIN_HEIGHT, height)
  }

  function CommitteeFor(cfg: Config, certs: seq<Certificate>, height: u64): seq<u64> {
    SampleCommittee(cfg, SeedFor(cfg, certs, height))
  }

  function LeaderOf(cfg: Config, certs: seq<Certificate>, height: u64, view: u64): Option<u64> {
    Leader(CommitteeFor(cfg, certs, height), height, view)
  }

  function ParentVal(certs: seq<Certificate>, height: u64): Parent
    requires height >= MIN_HEIGHT
  {
    if height == MIN_HEIGHT then Genesis
    else
      match FindCert(certs, height - 1)
      case None => Genesis
      case Some(c) => Value(c.block.val)
  }

  function HonestBlock(cfg: Config, certs: seq<Certificate>, height: u64): Block
    requires height >= MIN_HEIGHT
  {
    Block(height, cfg.prims.hash(SeedFor(cfg, certs, height) + Ascii("HONEST-VAL")), ParentVal(certs, height), 1)
  }

  predicate ValidBlock(certs: seq<Certificate>, block: Block, height: u64)
    requires height >= MIN_HEIGHT
  {
    block.height == height && block.parent == ParentVal(certs, height) && block.WithinBudget()
  }

  predicate BelowDecided(certs: seq<Certificate>, height: u64) {
    forall g: u64 :: MIN_HEIGHT <= g < height ==> Decided(certs, g)
  }

  predicate Working(cfg: Config, certs: seq<Certificate>, height: u64) {
    MIN_HEIGHT <= height <= cfg.maxHeight && !Decided(certs, height) && BelowDecided(certs, height)
  }

  /** More than two thirds. */
  predicate IsQuorum(attesters: nat, committee: nat) {
    attesters * 3 > 2 * committee
  }
}
