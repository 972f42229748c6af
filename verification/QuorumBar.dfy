/** The bar of stake that a certificate must pass, set by the registered validators and not by who publishes draws. */
module QuorumBar {
  import opened Wrappers
  import opened Bytes
  import opened IdSets
  import opened Sorting
  import opened OneTime
  import opened Sortition
  import opened LeaderLog
  import opened Draws
  import opened CommitteeViews
  import opened CommitteeFormation
  import opened Attestations
  import opened Commitments
  import opened CommitmentBuilding
  import opened Certificates
  import opened Verify
  import opened Verdicts

  // ---- the expected stake of a draw ----

  /** The stake a registration is expected to bring to the committee: all of it when the draw is certain. */
  function ExpectedShare(v: View, r: Registration): u128 {
    var weight, total := EffectiveWeight(v, r.weight), TotalWeight(v);
    if weight == 0 || total == 0 then 0
    else
      var num := SatMul128(v.budget, weight);
      if num >= total then r.weight else Quotient(SatMul128(r.weight, num), total)
  }

  function Quotient(x: u128, d: u64): (q: u128)
    requires d > 0
    ensures q <= x
  {
    MulMonotone(x + 1, x + 1, 1, d);
    DivideBelow(x, d, x + 1);
    x / d
  }

  function ExpectedOver(v: View, rs: seq<Registration>): u128 {
    if rs == [] then 0 else SatAdd128(ExpectedOver(v, rs[..|rs| - 1]), ExpectedShare(v, rs[|rs| - 1]))
  }

  function Expected(v: View): u128 {
    ExpectedOver(v, Eligible(v))
  }

  /** Every draw value selects the registration. */
  ghost predicate DrawnForSure(v: View, r: Registration) {
    forall value: u64 :: IsSelected(value, EffectiveWeight(v, r.weight), TotalWeight(v), v.budget)
  }

  lemma BudgetFits(budget: u64, weight: u64)
    ensures SatMul128(budget, weight) == budget * weight
  {
    MulBelow(budget, weight);
  }

  lemma MulBelow(a: u64, b: u64)
    ensures 0 <= a * b <= U128_MAX
  {
    MulMonotone(a, U64_MAX, b, U64_MAX);
  }

  lemma QuotientBelow(x: nat, num: nat, total: nat)
    requires num < total && x > 0
    ensures x * num / total < x
  {
    MulMonotone(num, total - 1, x, x);
    assert x * num <= x * total - x;
    DivideBelow(x * num, total, x);
  }

  /** A registration counts in full exactly when it has stake and every value would draw it; otherwise for less. */
  lemma CountsInFull(v: View, r: Registration)
    ensures ExpectedShare(v, r) <= r.weight
    ensures r.weight > 0 ==> (ExpectedShare(v, r) == r.weight <==> DrawnForSure(v, r))
  {
    var weight, total := EffectiveWeight(v, r.weight), TotalWeight(v);
    BudgetFits(v.budget, weight);
    var num := v.budget * weight;
    if weight == 0 || total == 0 {
      assert !IsSelected(0, weight, total, v.budget);
    } else if num < total {
      MulBelow(r.weight, num);
      if r.weight > 0 {
        QuotientBelow(r.weight, num, total);
      }
      QuotientBelow(VALUE_SPACE, num, total);
      assert VALUE_SPACE * num == num * VALUE_SPACE;
      assert !IsSelected(U64_MAX, weight, total, v.budget);
    }
  }

  /** The share is stake * budget * weight / total, rounded down, or the whole stake from budget * weight = total on. */
  lemma ShareExactly(v: View, r: Registration)
    ensures var weight, total, share := EffectiveWeight(v, r.weight), TotalWeight(v), ExpectedShare(v, r);
      && (weight == 0 || total == 0 ==> share == 0)
      && (weight > 0 && 0 < total <= v.budget * weight ==> share == r.weight)
      && (weight > 0 && v.budget * weight < total ==>
            share * total <= r.weight * (v.budget * weight) < (share + 1) * total)
  {
    hide EffectiveWeight, TotalWeight;
    var weight, total := EffectiveWeight(v, r.weight), TotalWeight(v);
    BudgetFits(v.budget, weight);
    MulBelow(v.budget, weight);
    var num := v.budget * weight;
    if weight > 0 && num < total {
      MulBelow(r.weight, num);
      DivideBounds(r.weight * num, total);
    }
  }

  function Shares(v: View, rs: seq<Registration>): (shares: seq<nat>)
    ensures |shares| == |rs|
  {
    seq(|rs|, i requires 0 <= i < |rs| => ExpectedShare(v, rs[i]))
  }

  lemma {:induction false} ExpectedOverIs(v: View, rs: seq<Registration>)
    ensures ExpectedOver(v, rs) == Capped(Total(Shares(v, rs)), U128_MAX)
  {
    if rs != [] {
      ExpectedOverIs(v, rs[..|rs| - 1]);
      assert Shares(v, rs)[..|rs| - 1] == Shares(v, rs[..|rs| - 1]);
    }
  }

  /** The expected stake is the sum of the shares of all eligible validators, as far as 128 bits hold. */
  lemma ExpectedStakeExactly(v: View)
    ensures Expected(v) == Capped(Total(Shares(v, Eligible(v))), U128_MAX)
  {
    ExpectedOverIs(v, Eligible(v));
  }

  /** The stake of the registrations whose draw is certain. */
  ghost function CertainStake(v: View, rs: seq<Registration>): nat {
    if rs == [] then 0
    else CertainStake(v, rs[..|rs| - 1]) + if DrawnForSure(v, rs[|rs| - 1]) then rs[|rs| - 1].weight else 0
  }

  lemma {:induction false} ExpectedCovers(v: View, rs: seq<Registration>)
    ensures ExpectedOver(v, rs) >= CertainStake(v, rs) || ExpectedOver(v, rs) == U128_MAX
  {
    if rs != [] {
      ExpectedCovers(v, rs[..|rs| - 1]);
      CountsInFull(v, rs[|rs| - 1]);
    }
  }

  lemma {:induction false} CertainFits(v: View, rs: seq<Registration>)
    ensures CertainStake(v, rs) <= |rs| * U64_MAX
  {
    if rs != [] {
      CertainFits(v, rs[..|rs| - 1]);
      assert |rs| * U64_MAX == (|rs| - 1) * U64_MAX + U64_MAX;
    }
  }

  /** The expected stake is at least that of every eligible validator drawn for sure, whatever is published. */
  lemma ExpectedCoversCertain(v: View)
    ensures Expected(v) >= CertainStake(v, Eligible(v))
  {
    EligibleIsSmall(v);
    ExpectedCovers(v, Eligible(v));
    CertainFits(v, Eligible(v));
    MulMonotone(|Eligible(v)|, MAX_MEMBERS, U64_MAX, U64_MAX);
  }

  // ---- the commitment of a view ----

  function KeyFor(v: View, attestKey: u64 -> Option<PublicKey>, id: u64): Option<MemberKey> {
    match FindRegistration(v.registrations, id)
    case None => None
    case Some(reg) =>
      match attestKey(id)
      case None => None
      case Some(pk) => Some(MemberKey(id, EffectiveWeight(v, reg.weight), reg.weight, reg.root, pk))
  }

  /** The key entries of all these ids, or nothing when one is missing. */
  function KeysFor(v: View, attestKey: u64 -> Option<PublicKey>, ids: seq<u64>): (keys: Option<seq<MemberKey>>)
    ensures keys.Some? ==> |keys.value| == |ids|
    ensures keys.Some? ==> forall i :: 0 <= i < |ids| ==> KeyFor(v, attestKey, ids[i]) == Some(keys.value[i])
  {
    if ids == [] then Some([])
    else
      match (KeyFor(v, attestKey, ids[0]), KeysFor(v, attestKey, ids[1..]))
      case (Some(m), Some(ms)) => Some([m] + ms)
      case _ => None
  }

  function RegisteredIds(rs: seq<Registration>): (ids: seq<u64>)
    ensures |ids| == |rs|
  {
    seq(|rs|, i requires 0 <= i < |rs| => rs[i].id)
  }

  function MemberIds(ms: seq<Member>): (ids: seq<u64>)
    ensures |ids| == |ms|
  {
    seq(|ms|, i requires 0 <= i < |ms| => ms[i].id)
  }

  /** Whose keys the commitment holds: all eligible validators in a full draw, the committee's members otherwise. */
  function CommittedIds(v: View, committee: seq<Member>): seq<u64> {
    if v.mode == Full then RegisteredIds(Eligible(v)) else MemberIds(committee)
  }

  function FromView(slot: u64, v: View, committee: seq<Member>,
                    attestKey: u64 -> Option<PublicKey>): Option<CommitteeCommitment>
    requires |CommittedIds(v, committee)| <= MAX_MEMBERS
  {
    match KeysFor(v, attestKey, CommittedIds(v, committee))
    case None => None
    case Some(ms) =>
      var absent := if v.mode == Full then 0 else SatSub(Expected(v), SumSaturating(Stakes(ms)));
      var c := FromMemberKeysWithTotal(slot, ms, v.budget, TotalWeight(v), v.mode);
      Some(c.(absentStake := absent))
  }

  /** Two committed ids have one key. */
  ghost predicate KeyShared(attestKey: u64 -> Option<PublicKey>, ids: seq<u64>) {
    exists x, y :: x in ids && y in ids && x != y && attestKey(x) == attestKey(y)
  }

  /**
   * A commitment exists exactly when every committed id is registered and has a key. It is for this slot, budget, mode
   * and total weight. Unless two committed ids have one key, an id is on it exactly when it was committed, with its
   * registered stake, root and key and its effective weight; and nobody is if two have.
   */
  lemma FromViewExactly(slot: u64, v: View, committee: seq<Member>, attestKey: u64 -> Option<PublicKey>, id: u64)
    requires |CommittedIds(v, committee)| <= MAX_MEMBERS
    ensures FromView(slot, v, committee, attestKey).Some? <==>
      forall x :: x in CommittedIds(v, committee) ==> FindRegistration(v.registrations, x).Some? && attestKey(x).Some?
    ensures FromView(slot, v, committee, attestKey).Some? ==>
      var c, reg := FromView(slot, v, committee, attestKey).value, FindRegistration(v.registrations, id);
      && c.slot == slot && c.budget == v.budget && c.mode == v.mode && c.totalWeight == TotalWeight(v)
      && MemberOf(c, id) ==
         if id in CommittedIds(v, committee) && !KeyShared(attestKey, CommittedIds(v, committee)) then
           Some(MemberKey(id, EffectiveWeight(v, reg.value.weight), reg.value.weight, reg.value.root,
                          attestKey(id).value))
         else None
  {
    hide EffectiveWeight, TotalWeight, Expected;
    var ids := CommittedIds(v, committee);
    KeysForExactly(v, attestKey, ids, id);
    if KeysFor(v, attestKey, ids).Some? {
      SharedExactly(v, attestKey, ids);
    }
  }

  lemma SharedExactly(v: View, attestKey: u64 -> Option<PublicKey>, ids: seq<u64>)
    requires KeysFor(v, attestKey, ids).Some?
    ensures SharesKey(Arranged(KeysFor(v, attestKey, ids).value)) <==> KeyShared(attestKey, ids)
  {
    var ms := KeysFor(v, attestKey, ids).value;
    var kept := Arranged(ms);
    forall i | 0 <= i < |kept| ensures kept[i].id in ids && attestKey(kept[i].id) == Some(kept[i].attestPk) {
      FindAscending(kept, kept[i]);
      KeysForExactly(v, attestKey, ids, kept[i].id);
    }
    if KeyShared(attestKey, ids) {
      var x, y :| x in ids && y in ids && x != y && attestKey(x) == attestKey(y);
      var i := PlaceOf(v, attestKey, ids, x);
      var j := PlaceOf(v, attestKey, ids, y);
      assert i < j || j < i;
    }
  }

  lemma PlaceOf(v: View, attestKey: u64 -> Option<PublicKey>, ids: seq<u64>, x: u64) returns (i: nat)
    requires KeysFor(v, attestKey, ids).Some? && x in ids
    ensures var kept := Arranged(KeysFor(v, attestKey, ids).value);
      i < |kept| && kept[i].id == x && Some(kept[i].attestPk) == attestKey(x)
  {
    KeysForExactly(v, attestKey, ids, x);
    var kept := Arranged(KeysFor(v, attestKey, ids).value);
    var m := Find(kept, x).value;
    i :| 0 <= i < |kept| && kept[i] == m;
  }

  lemma {:induction false} KeysForExactly(v: View, attestKey: u64 -> Option<PublicKey>, ids: seq<u64>, id: u64)
    ensures KeysFor(v, attestKey, ids).Some? <==> forall x :: x in ids ==> KeyFor(v, attestKey, x).Some?
    ensures KeysFor(v, attestKey, ids).Some? ==>
      Find(KeysFor(v, attestKey, ids).value, id) == if id in ids then KeyFor(v, attestKey, id) else None
  {
    if ids != [] {
      KeysForExactly(v, attestKey, ids[1..], id);
      assert ids == [ids[0]] + ids[1..];
    }
  }

  // ---- the bar ----

  /** The stake the quorum is measured against: all eligible stake, or the expected stake if the committee has less. */
  function Bar(v: View): nat {
    if v.mode == Full then RawWeights(Eligible(v)) else Expected(v)
  }

  lemma {:induction false} SumBelow(stakes: seq<u64>)
    ensures Sum(stakes) <= |stakes| * U64_MAX
    ensures |stakes| <= MAX_MEMBERS ==> SumSaturating(stakes) == Sum(stakes)
  {
    SaturatedSum(stakes);
    if stakes != [] {
      SumBelow(stakes[..|stakes| - 1]);
      assert |stakes| * U64_MAX == (|stakes| - 1) * U64_MAX + U64_MAX;
    }
  }

  lemma KeysDiffer(v: View, attestKey: u64 -> Option<PublicKey>, ids: seq<u64>)
    requires Distinct(ids) && KeysFor(v, attestKey, ids).Some?
    ensures KeysApart(IdOf(), KeysFor(v, attestKey, ids).value)
  {
    var ms := KeysFor(v, attestKey, ids).value;
    forall i | 0 <= i < |ms| ensures IdOf()(ms[i]) == ids[i] {
      assert KeyFor(v, attestKey, ids[i]) == Some(ms[i]);
    }
  }

  /**
   * The commitment of a view, unless it shares keys, measures a quorum against the larger of the expected stake and
   * the committee's own; in a full draw against exactly the stake of all eligible validators.
   */
  lemma BarIsSet(slot: u64, v: View, committee: seq<Member>, attestKey: u64 -> Option<PublicKey>)
    requires DistinctIds(committee)
    requires |CommittedIds(v, committee)| <= MAX_MEMBERS && FromView(slot, v, committee, attestKey).Some?
    requires !SharesKey(Arranged(KeysFor(v, attestKey, CommittedIds(v, committee)).value))
    ensures var c := FromView(slot, v, committee, attestKey).value;
      var realized := Sum(Stakes(KeysFor(v, attestKey, CommittedIds(v, committee)).value));
      && (v.mode == Full ==> realized == Bar(v))
      && ExactQuorumStake(c) == if v.mode != Full && realized < Bar(v) then Bar(v) else realized
  {
    var ids := CommittedIds(v, committee);
    var ms := KeysFor(v, attestKey, ids).value;
    CommittedDiffer(v, committee);
    KeysDiffer(v, attestKey, ids);
    CommittedStake(slot, ms, v.budget, TotalWeight(v), v.mode);
    if v.mode == Full {
      EligibleHolds(v);
      EligibleStake(v, attestKey, Eligible(v));
    }
  }

  /**
   * For any committee whatsoever, with no shared keys: the quorum stake reaches the expected stake exactly when the
   * committee's stake is not counted twice for anybody, or suffices without that.
   */
  lemma BarHoldsExactly(slot: u64, v: View, committee: seq<Member>, attestKey: u64 -> Option<PublicKey>)
    requires v.mode != Full && |committee| <= MAX_MEMBERS && FromView(slot, v, committee, attestKey).Some?
    requires !SharesKey(Arranged(KeysFor(v, attestKey, CommittedIds(v, committee)).value))
    ensures var ms := KeysFor(v, attestKey, CommittedIds(v, committee)).value;
      var counted, kept := Sum(Stakes(ms)), Sum(Stakes(Arranged(ms)));
      ExactQuorumStake(FromView(slot, v, committee, attestKey).value) >= Expected(v) <==>
        kept == counted || kept >= Expected(v)
  {
    var ms := KeysFor(v, attestKey, CommittedIds(v, committee)).value;
    SumBelow(Stakes(ms));
    ArrangedNoMore(ms);
  }

  lemma {:induction false} DedupNoMore(ms: seq<MemberKey>)
    ensures StakeIn(Dedup(ms), AllIds(ms)) <= StakeIn(ms, AllIds(ms))
    decreases |ms|
  {
    if |ms| >= 2 {
      var all := AllIds(ms);
      var fewer := if ms[0].id == ms[1].id then [ms[0]] + ms[2..] else ms[1..];
      assert forall m :: m in fewer ==> m in ms && m.id in all;
      DedupNoMore(fewer);
      StakeMonotone(Dedup(fewer), all, AllIds(fewer) + all);
      assert forall m :: m in fewer ==> m.id in AllIds(fewer);
      SameStake(Dedup(fewer), AllIds(fewer), all);
      SameStake(fewer, AllIds(fewer), all);
      assert ms[1..][1..] == ms[2..];
      if ms[0].id == ms[1].id {
        assert fewer[1..] == ms[2..];
      } else {
        assert ([ms[0]] + Dedup(ms[1..]))[1..] == Dedup(ms[1..]);
      }
    }
  }

  lemma SameStake(ms: seq<MemberKey>, a: set<u64>, b: set<u64>)
    requires forall m :: m in ms ==> m.id in a && m.id in b
    ensures StakeIn(ms, a) == StakeIn(ms, b)
  {
    StakeMonotone(ms, a, b);
    StakeMonotone(ms, b, a);
  }

  lemma ArrangedNoMore(ms: seq<MemberKey>)
    ensures Sum(Stakes(Arranged(ms))) <= Sum(Stakes(ms))
  {
    var sorted := SortBy(ByKeyId(), ms);
    SortKeeps(ByKeyId(), ms);
    DedupNoMore(sorted);
    var all := AllIds(sorted);
    assert forall m :: m in ms ==> m in sorted && m.id in all;
    SortStake(ms, all);
    StakeInAll(ms, all);
    assert forall m :: m in Arranged(ms) ==> m in sorted && m.id in all;
    StakeInAll(Arranged(ms), all);
  }

  lemma CommittedStake(slot: u64, ms: seq<MemberKey>, budget: u64, total: u64, mode: DrawMode)
    requires |ms| <= MAX_MEMBERS && KeysApart(IdOf(), ms) && !SharesKey(Arranged(ms))
    ensures Sum(Stakes(FromMemberKeysWithTotal(slot, ms, budget, total, mode).members)) == Sum(Stakes(ms))
      == SumSaturating(Stakes(ms))
  {
    ArrangedKeepsStake(ms);
    SumBelow(Stakes(ms));
  }

  lemma CommittedDiffer(v: View, committee: seq<Member>)
    requires DistinctIds(committee)
    ensures Distinct(CommittedIds(v, committee))
  {
    EligibleHolds(v);
  }

  lemma FirstKey(v: View, attestKey: u64 -> Option<PublicKey>, rs: seq<Registration>)
    requires rs != [] && KeysFor(v, attestKey, RegisteredIds(rs)).Some? && rs[0] in v.registrations
    ensures KeysFor(v, attestKey, RegisteredIds(rs[1..])).Some?
    ensures var ms, rest := KeysFor(v, attestKey, RegisteredIds(rs)), KeysFor(v, attestKey, RegisteredIds(rs[1..]));
      ms.value[1..] == rest.value && ms.value[0].stake == rs[0].weight
  {
    assert RegisteredIds(rs)[1..] == RegisteredIds(rs[1..]);
    FindDistinct(v.registrations, rs[0]);
  }

  lemma {:induction false} EligibleStake(v: View, attestKey: u64 -> Option<PublicKey>, rs: seq<Registration>)
    requires KeysFor(v, attestKey, RegisteredIds(rs)).Some? && forall r :: r in rs ==> r in v.registrations
    ensures Sum(Stakes(KeysFor(v, attestKey, RegisteredIds(rs)).value)) == RawWeights(rs)
  {
    var ms := KeysFor(v, attestKey, RegisteredIds(rs)).value;
    if rs == [] {
      assert Stakes(ms) == [];
    } else {
      hide KeysFor, Sum;
      FirstKey(v, attestKey, rs);
      EligibleStake(v, attestKey, rs[1..]);
      assert Stakes(ms) == [rs[0].weight] + Stakes(ms[1..]);
      SumFront(rs[0].weight, Stakes(ms[1..]));
    }
  }

  lemma {:induction false} SumFront(x: u64, stakes: seq<u64>)
    ensures Sum([x] + stakes) == x + Sum(stakes)
  {
    var s := [x] + stakes;
    if stakes == [] {
      assert s[..|s| - 1] == [];
    } else {
      assert s[..|s| - 1] == [x] + stakes[..|stakes| - 1];
      SumFront(x, stakes[..|stakes| - 1]);
    }
  }

  // ---- a committee naming one member twice ----

  lemma TwiceNamed(k: MemberKey)
    ensures Arranged([k, k]) == [k] && !SharesKey([k])
    ensures Sum(Stakes([k])) == k.stake && Sum(Stakes([k, k])) == 2 * k.stake
  {
    assert SortedBy(ByKeyId(), [k, k]);
    SortedStays(ByKeyId(), [k, k]);
    assert [k] + [k, k][2..] == [k];
    assert Stakes([k]) == [k.stake] && Stakes([k, k]) == [k.stake, k.stake];
    assert [k.stake, k.stake][..1] == [k.stake];
    assert Sum([k.stake]) == k.stake;
  }

  lemma KeysOfTwo(v: View, attestKey: u64 -> Option<PublicKey>, id: u64)
    requires KeyFor(v, attestKey, id).Some?
    ensures var k := KeyFor(v, attestKey, id).value; KeysFor(v, attestKey, [id, id]) == Some([k, k])
  {
    var k := KeyFor(v, attestKey, id).value;
    assert [id, id][1..] == [id] && [id][1..] == [];
    var none: seq<MemberKey> := [];
    assert [k] + none == [k] && [k] + [k] == [k, k];
    assert KeysFor(v, attestKey, [id]) == Some([k]);
  }

  /**
   * Naming one member twice brings the bar below the expected stake whenever that member has some, but not all of it.
   */
  lemma RepeatedMemberLowersBar(slot: u64, v: View, m: Member, attestKey: u64 -> Option<PublicKey>)
    requires v.mode != Full && KeyFor(v, attestKey, m.id).Some?
    requires 0 < KeyFor(v, attestKey, m.id).value.stake < Expected(v)
    ensures FromView(slot, v, [m, m], attestKey).Some?
    ensures ExactQuorumStake(FromView(slot, v, [m, m], attestKey).value) < Expected(v)
  {
    var k := KeyFor(v, attestKey, m.id).value;
    var ids := CommittedIds(v, [m, m]);
    assert ids == [m.id, m.id];
    KeysOfTwo(v, attestKey, m.id);
    TwiceNamed(k);
    BarHoldsExactly(slot, v, [m, m], attestKey);
  }

  function TwoValidators(root: Root): View {
    ViewData([Registration(1, root, 2000), Registration(2, root, 2000)], COMMITTEE_BUDGET, MIN_SELF_STAKE, Unbound)
  }

  lemma TwoEligible(root: Root)
    ensures Eligible(TwoValidators(root)) == TwoValidators(root).registrations
  {
    var v := TwoValidators(root);
    TwoMeet(v.registrations, v.floor);
    assert At(v.registrations, [0, 1]) == v.registrations;
  }

  lemma TwoMeet(rs: seq<Registration>, floor: u64)
    requires |rs| == 2 && rs[0].weight >= floor && rs[1].weight >= floor
    ensures Meeting(rs, floor, 2) == [0, 1]
  {
    assert Meeting(rs, floor, 0) == [];
    assert Meeting(rs, floor, 1) == [0];
  }

  lemma TwoTotal(root: Root)
    ensures TotalWeight(TwoValidators(root)) == 4000 && EffectiveWeight(TwoValidators(root), 2000) == 2000
  {
    var v := TwoValidators(root);
    var rs := v.registrations;
    TwoEligible(root);
    assert WeightMeeting(rs[1..], v.floor) == 2000;
    assert EffectiveWeights(v, rs) == [2000, 2000];
    assert [2000, 2000][..1] == [2000];
    assert SaturatingSum([2000]) == 2000;
  }

  lemma HalfIsCredited(root: Root, pk: PublicKey)
    ensures var v := TwoValidators(root);
      Expected(v) == 4000 && KeyFor(v, OneKey(pk), 1).Some? && KeyFor(v, OneKey(pk), 1).value.stake == 2000
  {
    var v := TwoValidators(root);
    var rs := v.registrations;
    TwoEligible(root);
    TwoTotal(root);
    assert ExpectedShare(v, rs[0]) == 2000 && ExpectedShare(v, rs[1]) == 2000;
    assert rs[..1] == [rs[0]] && [rs[0]][..0] == [];
    assert ExpectedOver(v, []) == 0;
    assert ExpectedOver(v, [rs[0]]) == 2000;
  }

  function OneKey(pk: PublicKey): u64 -> Option<PublicKey> {
    (id: u64) => Some(pk)
  }

  /**
   * The bar does fall: of two validators with 2000 each, both certain to be drawn, one named twice brings the quorum
   * stake below the 4000 expected.
   */
  lemma HalfOfExpected(slot: u64, root: Root, pk: PublicKey, m: Member)
    requires m.id == 1
    ensures var v := TwoValidators(root);
      && Expected(v) == 4000
      && FromView(slot, v, [m, m], OneKey(pk)).Some?
      && ExactQuorumStake(FromView(slot, v, [m, m], OneKey(pk)).value) < 4000
  {
    HalfIsCredited(root, pk);
    RepeatedMemberLowersBar(slot, TwoValidators(root), m, OneKey(pk));
  }

  // ---- the signers' registered stake ----

  function RegisteredStake(rs: seq<Registration>, ids: set<u64>): nat {
    if rs == [] then 0 else (if rs[0].id in ids then rs[0].weight else 0) + RegisteredStake(rs[1..], ids)
  }

  /** A commitment credits nobody with more than the stake registered. */
  lemma {:induction false} CreditedIsRegistered(ms: seq<MemberKey>, rs: seq<Registration>, ids: set<u64>)
    requires Ascending(ms)
    requires forall m :: m in ms && m.id in ids ==>
      FindRegistration(rs, m.id).Some? && FindRegistration(rs, m.id).value.weight == m.stake
    ensures StakeIn(ms, ids) <= RegisteredStake(rs, ids)
  {
    if rs == [] {
      StakeMonotone(ms, ids, {});
      StakeOfNobody(ms);
    } else {
      var id := rs[0].id;
      var others := ids - {id};
      CreditedIsRegistered(ms, rs[1..], others);
      RegisteredLess(rs[1..], others, ids);
      if id in ids {
        assert ids == others + {id};
        if Find(ms, id).Some? {
          StakeOfOneMore(ms, others, id);
        } else {
          StakeOfAbsent(ms, others, id);
        }
      } else {
        assert others == ids;
      }
    }
  }

  lemma {:induction false} RegisteredLess(rs: seq<Registration>, a: set<u64>, b: set<u64>)
    requires a <= b
    ensures RegisteredStake(rs, a) <= RegisteredStake(rs, b)
  {
    if rs != [] {
      RegisteredLess(rs[1..], a, b);
    }
  }

  lemma CommitmentIsRegistered(slot: u64, v: View, committee: seq<Member>, attestKey: u64 -> Option<PublicKey>,
                               ids: set<u64>)
    requires |CommittedIds(v, committee)| <= MAX_MEMBERS && FromView(slot, v, committee, attestKey).Some?
    ensures StakeIn(FromView(slot, v, committee, attestKey).value.members, ids) <= RegisteredStake(v.registrations, ids)
  {
    var committed := CommittedIds(v, committee);
    var ms := KeysFor(v, attestKey, committed).value;
    var c := FromView(slot, v, committee, attestKey).value;
    SortKeeps(ByKeyId(), ms);
    forall m | m in c.members
      ensures FindRegistration(v.registrations, m.id).Some?
        && FindRegistration(v.registrations, m.id).value.weight == m.stake
    {
      assert m in ms;
      var i :| 0 <= i < |ms| && ms[i] == m;
      assert KeyFor(v, attestKey, committed[i]) == Some(m);
    }
    CreditedIsRegistered(c.members, v.registrations, ids);
  }

  // ---- verification against the registered validators ----

  function PublishedWith(cert: Certificate): seq<PublishedReveal> {
    if cert.committeeReveals == [] then
      var atts := cert.attestations;
      seq(|atts|, i requires 0 <= i < |atts| => PublishedReveal(atts[i].from, atts[i].membership))
    else cert.committeeReveals
  }

  /** The draws judged are those the certificate shows, or else those of its attestations. */
  lemma ShownExactly(cert: Certificate)
    ensures cert.committeeReveals != [] ==> PublishedWith(cert) == cert.committeeReveals
    ensures cert.committeeReveals == [] ==>
      && |PublishedWith(cert)| == |cert.attestations|
      && forall i :: 0 <= i < |cert.attestations| ==>
           PublishedWith(cert)[i] == PublishedReveal(cert.attestations[i].from, cert.attestations[i].membership)
  {
  }

  lemma VerifiedBeatsBar(ctx: Context, cert: Certificate, v: View, members: seq<Member>,
                         attestKey: u64 -> Option<PublicKey>)
    requires |CommittedIds(v, members)| <= MAX_MEMBERS && DistinctIds(members)
    requires FromView(cert.envelope.slot, v, members, attestKey) == Some(ctx.commitment)
    requires CertificateVerifies(ctx, cert)
    ensures 3 * RegisteredStake(v.registrations, SignerSet(cert.attestations)) > 2 * Bar(v)
  {
    var signers := SignerSet(cert.attestations);
    SoundIsVerified(ctx, cert.envelope, cert.attestations);
    CommitmentIsRegistered(cert.envelope.slot, v, members, attestKey, signers);
    assert ctx.commitment.members != [];
    BarIsSet(cert.envelope.slot, v, members, attestKey);
  }

  /**
   * `verify_registered`: whatever draws the certificate chooses to show, a Verified verdict means that the registered
   * stake of its signers passes two thirds of a bar that only the registered validators set.
   */
  method VerifyRegistered(crypto: Crypto, chain: ChainBinding, cert: Certificate, v: View, seed: Bytes32, tau: u64,
                          attestKey: u64 -> Option<PublicKey>)
    returns (verdict: Verdict, ghost members: seq<Member>)
    ensures Formed(crypto.hashes, v, seed, cert.envelope.slot, PublishedWith(cert), members)
    ensures |CommittedIds(v, members)| <= MAX_MEMBERS
    ensures verdict == match FromView(cert.envelope.slot, v, members, attestKey)
      case None => Rejected(BadCommitment)
      case Some(c) => Judge(Context(crypto, chain, c, seed, tau), cert.envelope, cert.attestations)
    ensures verdict.Verified? ==> 3 * RegisteredStake(v.registrations, SignerSet(cert.attestations)) > 2 * Bar(v)
  {
    var committee := FormCommittee(crypto.hashes, v, seed, cert.envelope.slot, PublishedWith(cert));
    members := committee;
    EligibleIsSmall(v);
    var commitment := FromView(cert.envelope.slot, v, committee, attestKey);
    if commitment.None? {
      return Rejected(BadCommitment), members;
    }
    var ctx := Context(crypto, chain, commitment.value, seed, tau);
    verdict := VerifyBody(ctx, cert.envelope, cert.attestations);
    if verdict.Verified? {
      VerifiedBeatsBar(ctx, cert, v, members, attestKey);
    }
  }
}
