/** Committee commitments: the members a certificate is judged against, their stakes and their digest. */
module Commitments {
  import opened Wrappers
  import opened Bytes
  import opened IdSets
  import opened OneTime
  import opened Sortition
  import opened Attestations

  datatype MemberKey = MemberKey(id: u64, weight: u64, stake: u64, root: Root, attestPk: PublicKey)

  datatype CommitmentData = CommitmentData(slot: u64, totalWeight: u64, budget: u64, members: seq<MemberKey>,
                                           absentStake: u128, mode: DrawMode)

  predicate Ascending(ms: seq<MemberKey>) {
    forall i, j :: 0 <= i < j < |ms| ==> ms[i].id < ms[j].id
  }

  /** A commitment as the constructors leave it: member ids strictly ascending. */
  type CommitteeCommitment = c: CommitmentData | Ascending(c.members) && |c.members| <= MAX_MEMBERS
    witness CommitmentData(0, 0, 0, [], 0, Unbound)

  /** The member with this id, as the source's binary search finds it in an ascending list. */
  function Find(ms: seq<MemberKey>, id: u64): (m: Option<MemberKey>)
    ensures m.Some? ==> m.value in ms && m.value.id == id
    ensures m.None? ==> forall k :: k in ms ==> k.id != id
  {
    if ms == [] then None else if ms[0].id == id then Some(ms[0]) else Find(ms[1..], id)
  }

  function MemberOf(c: CommitteeCommitment, id: u64): Option<MemberKey> {
    Find(c.members, id)
  }

  lemma AscendingTail(ms: seq<MemberKey>)
    requires Ascending(ms) && ms != []
    ensures Ascending(ms[1..]) && Find(ms[1..], ms[0].id).None?
  {
    assert forall i :: 0 <= i < |ms[1..]| ==> ms[1..][i] == ms[i + 1];
  }

  function StakeOf(c: CommitteeCommitment, id: u64): u64 {
    match MemberOf(c, id)
    case None => 0
    case Some(m) => m.stake
  }

  function SumSaturating(stakes: seq<u64>): u128 {
    if stakes == [] then 0 else SatAdd128(SumSaturating(stakes[..|stakes| - 1]), stakes[|stakes| - 1])
  }

  function Stakes(ms: seq<MemberKey>): (s: seq<u64>)
    ensures |s| == |ms|
  {
    seq(|ms|, i requires 0 <= i < |ms| => ms[i].stake)
  }

  function CommitteeStake(c: CommitteeCommitment): u128 {
    SumSaturating(Stakes(c.members))
  }

  function QuorumStake(c: CommitteeCommitment): u128 {
    SatAdd128(CommitteeStake(c), c.absentStake)
  }

  function CommitteeWeight(ms: seq<MemberKey>): u64 {
    if ms == [] then 0
    else
      var w := CommitteeWeight(ms[..|ms| - 1]) + ms[|ms| - 1].weight;
      if w > U64_MAX then U64_MAX else w
  }

  // ---- exact stake sums ----

  function Sum(stakes: seq<u64>): nat {
    if stakes == [] then 0 else Sum(stakes[..|stakes| - 1]) + stakes[|stakes| - 1]
  }

  lemma {:induction false} SaturatedSum(stakes: seq<u64>)
    ensures SumSaturating(stakes) == if Sum(stakes) > U128_MAX then U128_MAX else Sum(stakes)
  {
    if stakes != [] {
      SaturatedSum(stakes[..|stakes| - 1]);
    }
  }

  /** The stake that the ids in `ids` hold on the committee. */
  function StakeIn(ms: seq<MemberKey>, ids: set<u64>): nat {
    if ms == [] then 0 else (if ms[0].id in ids then ms[0].stake else 0) + StakeIn(ms[1..], ids)
  }

  function AllIds(ms: seq<MemberKey>): set<u64> {
    set m | m in ms :: m.id
  }

  lemma {:induction false} StakeInAppend(ms: seq<MemberKey>, ns: seq<MemberKey>, ids: set<u64>)
    ensures StakeIn(ms + ns, ids) == StakeIn(ms, ids) + StakeIn(ns, ids)
  {
    if ms == [] {
      assert ms + ns == ns;
    } else {
      assert (ms + ns)[1..] == ms[1..] + ns;
      StakeInAppend(ms[1..], ns, ids);
    }
  }

  lemma {:induction false} StakeInAll(ms: seq<MemberKey>, ids: set<u64>)
    requires AllIds(ms) <= ids
    ensures StakeIn(ms, ids) == Sum(Stakes(ms))
  {
    if ms != [] {
      var init, last := ms[..|ms| - 1], ms[|ms| - 1];
      assert ms == init + [last];
      assert forall m :: m in init ==> m in ms && m.id in AllIds(ms);
      StakeInAll(init, ids);
      StakeInAppend(init, [last], ids);
      assert last in ms && last.id in AllIds(ms);
      assert StakeIn([last], ids) == last.stake + StakeIn([], ids);
      assert Stakes(ms)[..|ms| - 1] == Stakes(init);
    }
  }

  /** Inclusion and exclusion of stake. */
  lemma {:induction false} StakeUnion(ms: seq<MemberKey>, a: set<u64>, b: set<u64>)
    ensures StakeIn(ms, a) + StakeIn(ms, b) == StakeIn(ms, a + b) + StakeIn(ms, a * b)
  {
    if ms != [] {
      StakeUnion(ms[1..], a, b);
    }
  }

  lemma {:induction false} StakeMonotone(ms: seq<MemberKey>, a: set<u64>, b: set<u64>)
    requires forall m :: m in ms && m.id in a ==> m.id in b
    ensures StakeIn(ms, a) <= StakeIn(ms, b)
  {
    if ms != [] {
      assert ms[0] in ms;
      StakeMonotone(ms[1..], a, b);
    }
  }

  lemma {:induction false} StakeOfAbsent(ms: seq<MemberKey>, ids: set<u64>, id: u64)
    requires Find(ms, id).None?
    ensures StakeIn(ms, ids + {id}) == StakeIn(ms, ids)
  {
    if ms != [] {
      StakeOfAbsent(ms[1..], ids, id);
    }
  }

  lemma {:induction false} StakeOfOneMore(ms: seq<MemberKey>, ids: set<u64>, id: u64)
    requires Ascending(ms) && id !in ids && Find(ms, id).Some?
    ensures StakeIn(ms, ids + {id}) == StakeIn(ms, ids) + Find(ms, id).value.stake
  {
    AscendingTail(ms);
    if ms[0].id == id {
      StakeOfAbsent(ms[1..], ids, id);
    } else {
      StakeOfOneMore(ms[1..], ids, id);
    }
  }

  function StakesOf(c: CommitteeCommitment, ids: seq<u64>): (s: seq<u64>)
    ensures |s| == |ids|
  {
    seq(|ids|, i requires 0 <= i < |ids| => StakeOf(c, ids[i]))
  }

  /** Adding up a list of distinct ids one by one gives the stake of their set. */
  lemma {:induction false} ListedStake(c: CommitteeCommitment, ids: seq<u64>)
    requires Distinct(ids)
    ensures Sum(StakesOf(c, ids)) == StakeIn(c.members, IdSet(ids))
  {
    if ids == [] {
      assert IdSet(ids) == {};
      StakeOfNobody(c.members);
    } else {
      var init, last := ids[..|ids| - 1], ids[|ids| - 1];
      ListedStake(c, init);
      assert StakesOf(c, ids)[..|ids| - 1] == StakesOf(c, init);
      assert IdSet(ids) == IdSet(init) + {last} by { assert ids == init + [last]; }
      assert last !in IdSet(init);
      if Find(c.members, last).Some? {
        StakeOfOneMore(c.members, IdSet(init), last);
      } else {
        StakeOfAbsent(c.members, IdSet(init), last);
      }
    }
  }

  lemma {:induction false} StakeOfNobody(ms: seq<MemberKey>)
    ensures StakeIn(ms, {}) == 0
  {
    if ms != [] {
      StakeOfNobody(ms[1..]);
    }
  }

  /** All stake the quorum is measured against, before saturation. */
  function ExactQuorumStake(c: CommitteeCommitment): nat {
    Sum(Stakes(c.members)) + c.absentStake
  }

  /** Stakes of `signers` pass two thirds of the quorum stake, in the source's saturating arithmetic. */
  predicate WeightOk(c: CommitteeCommitment, signers: seq<u64>) {
    var seen := SumSaturating(StakesOf(c, signers));
    QuorumStake(c) > 0 && SatMul128(seen, 3) > SatMul128(QuorumStake(c), 2)
  }

  /** Saturation can only refuse: the test is exactly two thirds of the true stake, unless that overflows `u128`. */
  lemma WeightOkExactly(c: CommitteeCommitment, signers: seq<u64>)
    requires Distinct(signers)
    ensures WeightOk(c, signers) <==>
      3 * StakeIn(c.members, IdSet(signers)) > 2 * ExactQuorumStake(c) && 2 * ExactQuorumStake(c) < U128_MAX
  {
    var ids := IdSet(signers);
    ListedStake(c, signers);
    SaturatedSum(StakesOf(c, signers));
    SaturatedSum(Stakes(c.members));
    StakeMonotone(c.members, ids, ids + AllIds(c.members));
    StakeInAll(c.members, ids + AllIds(c.members));
  }

  // ---- the digest ----

  function MemberBytes(m: MemberKey): (s: seq<u8>)
    ensures |s| == 64 + PUBLIC_KEY_BYTES
  {
    LittleEndian(m.id, 8) + LittleEndian(m.weight, 8) + LittleEndian(m.stake, 8)
    + m.root.digest + LittleEndian(m.root.slots, 8) + m.attestPk
  }

  function MembersBytes(ms: seq<MemberKey>): (s: seq<u8>)
    ensures |s| == |ms| * (64 + PUBLIC_KEY_BYTES)
  {
    if ms == [] then [] else MemberBytes(ms[0]) + MembersBytes(ms[1..])
  }

  function ModeTag(mode: DrawMode): u8 {
    match mode
    case Unbound => 0
    case Bound => 1
    case Full => 2
  }

  function AbsentBytes(absentStake: u128): (s: seq<u8>)
    ensures |s| == if absentStake > 0 then 16 else 0
  {
    if absentStake > 0 then LittleEndian(absentStake, 16) else []
  }

  function ModeBytes(mode: DrawMode): (s: seq<u8>)
    ensures |s| == if mode != Unbound then 18 else 0
  {
    if mode != Unbound then Ascii("QORUS-ATTEST-DRAW") + [ModeTag(mode)] else []
  }

  function DigestHead(c: CommitteeCommitment): (s: seq<u8>)
    ensures |s| == 54
  {
    Ascii("QORUS-ATTEST-COMMITTEE") + LittleEndian(c.slot, 8) + LittleEndian(c.budget, 8)
    + LittleEndian(c.totalWeight, 8) + LittleEndian(|c.members|, 8)
  }

  function DigestInput(c: CommitteeCommitment): seq<u8> {
    DigestHead(c) + MembersBytes(c.members) + AbsentBytes(c.absentStake) + ModeBytes(c.mode)
  }

  function Digest(h: Hashing, c: CommitteeCommitment): Bytes32 {
    h.shake(DigestInput(c))
  }

  lemma MemberBytesInjective(m: MemberKey, n: MemberKey)
    requires MemberBytes(m) == MemberBytes(n)
    ensures m == n
  {
    var a1, b1 := LittleEndian(m.id, 8), LittleEndian(n.id, 8);
    var a2, b2 := a1 + LittleEndian(m.weight, 8), b1 + LittleEndian(n.weight, 8);
    var a3, b3 := a2 + LittleEndian(m.stake, 8), b2 + LittleEndian(n.stake, 8);
    var a4, b4 := a3 + m.root.digest, b3 + n.root.digest;
    SplitConcat(a4 + LittleEndian(m.root.slots, 8), m.attestPk, b4 + LittleEndian(n.root.slots, 8), n.attestPk);
    SplitConcat(a4, LittleEndian(m.root.slots, 8), b4, LittleEndian(n.root.slots, 8));
    SplitConcat(a3, m.root.digest, b3, n.root.digest);
    SplitConcat(a2, LittleEndian(m.stake, 8), b2, LittleEndian(n.stake, 8));
    SplitConcat(a1, LittleEndian(m.weight, 8), b1, LittleEndian(n.weight, 8));
    U64Injective(m.id, n.id);
    U64Injective(m.weight, n.weight);
    U64Injective(m.stake, n.stake);
    U64Injective(m.root.slots, n.root.slots);
  }

  lemma {:induction false} MembersBytesInjective(ms: seq<MemberKey>, ns: seq<MemberKey>)
    requires |ms| == |ns| && MembersBytes(ms) == MembersBytes(ns)
    ensures ms == ns
  {
    if ms != [] {
      SplitConcat(MemberBytes(ms[0]), MembersBytes(ms[1..]), MemberBytes(ns[0]), MembersBytes(ns[1..]));
      MemberBytesInjective(ms[0], ns[0]);
      MembersBytesInjective(ms[1..], ns[1..]);
      assert ms == [ms[0]] + ms[1..] && ns == [ns[0]] + ns[1..];
    }
  }

  lemma HeadInjective(c: CommitteeCommitment, d: CommitteeCommitment)
    requires DigestHead(c) == DigestHead(d)
    ensures c.slot == d.slot && c.budget == d.budget && c.totalWeight == d.totalWeight && |c.members| == |d.members|
  {
    var t := Ascii("QORUS-ATTEST-COMMITTEE");
    var a1, b1 := t + LittleEndian(c.slot, 8), t + LittleEndian(d.slot, 8);
    var a2, b2 := a1 + LittleEndian(c.budget, 8), b1 + LittleEndian(d.budget, 8);
    var a3, b3 := a2 + LittleEndian(c.totalWeight, 8), b2 + LittleEndian(d.totalWeight, 8);
    SplitConcat(a3, LittleEndian(|c.members|, 8), b3, LittleEndian(|d.members|, 8));
    SplitConcat(a2, LittleEndian(c.totalWeight, 8), b2, LittleEndian(d.totalWeight, 8));
    SplitConcat(a1, LittleEndian(c.budget, 8), b1, LittleEndian(d.budget, 8));
    SplitConcat(t, LittleEndian(c.slot, 8), t, LittleEndian(d.slot, 8));
    U64Injective(c.slot, d.slot);
    U64Injective(c.budget, d.budget);
    U64Injective(c.totalWeight, d.totalWeight);
    U64Injective(|c.members|, |d.members|);
  }

  lemma TailInjective(x: u128, m: DrawMode, y: u128, n: DrawMode)
    requires AbsentBytes(x) + ModeBytes(m) == AbsentBytes(y) + ModeBytes(n)
    ensures x == y && m == n
  {
    assert |AbsentBytes(x) + ModeBytes(m)| == |AbsentBytes(x)| + |ModeBytes(m)|;
    assert |AbsentBytes(y) + ModeBytes(n)| == |AbsentBytes(y)| + |ModeBytes(n)|;
    SplitConcat(AbsentBytes(x), ModeBytes(m), AbsentBytes(y), ModeBytes(n));
    if x > 0 {
      U128Injective(x, y);
    }
    if m != Unbound {
      assert ModeBytes(m)[17] == ModeTag(m) && ModeBytes(n)[17] == ModeTag(n);
    }
  }

  /** The digest's input spells out the whole commitment, for all that its last two parts are optional. */
  lemma DigestInputInjective(c: CommitteeCommitment, d: CommitteeCommitment)
    requires DigestInput(c) == DigestInput(d)
    ensures c == d
  {
    var a, x, m := MembersBytes(c.members), AbsentBytes(c.absentStake), ModeBytes(c.mode);
    var b, y, n := MembersBytes(d.members), AbsentBytes(d.absentStake), ModeBytes(d.mode);
    Regroup(DigestHead(c), a, x, m);
    Regroup(DigestHead(d), b, y, n);
    SplitConcat(DigestHead(c), a + (x + m), DigestHead(d), b + (y + n));
    HeadInjective(c, d);
    SplitConcat(a, x + m, b, y + n);
    MembersBytesInjective(c.members, d.members);
    TailInjective(c.absentStake, c.mode, d.absentStake, d.mode);
  }

  lemma Regroup<T>(a: seq<T>, b: seq<T>, c: seq<T>, d: seq<T>)
    ensures a + b + c + d == a + (b + (c + d))
  {
  }

  /** Two commitments with one digest are the same commitment or a collision of the digest hash. */
  lemma DigestBinds(h: Hashing, c: CommitteeCommitment, d: CommitteeCommitment)
    requires Digest(h, c) == Digest(h, d)
    ensures c == d || (DigestInput(c) != DigestInput(d) && h.shake(DigestInput(c)) == h.shake(DigestInput(d)))
  {
    if DigestInput(c) == DigestInput(d) {
      DigestInputInjective(c, d);
    }
  }
}
