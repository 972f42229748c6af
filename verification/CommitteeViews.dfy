/**
 * The registered validators of an epoch: who is active, at what weight, who may sit on a slot's committee, and whose
 * turn it is to lead.
 */
module CommitteeViews {
  import opened Wrappers
  import opened Bytes
  import opened IdSets
  import opened Sorting
  import opened OneTime
  import opened Sortition

  const MIN_SELF_STAKE: u64 := 2000
  const MAX_ACTIVE_VALIDATORS: nat := 100
  const STAKE_CAP_MULTIPLE: nat := 10

  datatype Registration = Registration(id: u64, root: Root, weight: u64)

  ghost predicate DistinctRegistrations(rs: seq<Registration>) {
    forall i, j :: 0 <= i < j < |rs| ==> rs[i].id != rs[j].id
  }

  datatype ViewData = ViewData(registrations: seq<Registration>, budget: u64, floor: u64, mode: DrawMode)

  /** A view as its constructor leaves it. */
  type View = v: ViewData | DistinctRegistrations(v.registrations) && |v.registrations| <= MAX_MEMBERS
    witness ViewData([], 0, 0, Full)

  // ---- registration ----

  function CountId(rs: seq<Registration>, id: u64): nat {
    if rs == [] then 0 else (if rs[0].id == id then 1 else 0) + CountId(rs[1..], id)
  }

  /** The registrations among `rs` whose id is registered once in `all`. */
  function SingleIn(rs: seq<Registration>, all: seq<Registration>): (r: seq<Registration>)
    ensures |r| <= |rs|
    ensures forall x :: x in r <==> x in rs && CountId(all, x.id) == 1
  {
    if rs == [] then [] else (if CountId(all, rs[0].id) == 1 then [rs[0]] else []) + SingleIn(rs[1..], all)
  }

  lemma {:induction false} CountHolds(rs: seq<Registration>, id: u64)
    ensures CountId(rs, id) == 0 <==> forall x :: x in rs ==> x.id != id
  {
    if rs != [] {
      CountHolds(rs[1..], id);
      assert rs == [rs[0]] + rs[1..];
    }
  }

  lemma {:induction false} SinglesDiffer(rs: seq<Registration>, all: seq<Registration>)
    requires forall id :: CountId(rs, id) <= CountId(all, id)
    ensures DistinctRegistrations(SingleIn(rs, all))
  {
    if rs != [] {
      forall id ensures CountId(rs[1..], id) <= CountId(all, id) {
        assert CountId(rs[1..], id) <= CountId(rs, id);
      }
      SinglesDiffer(rs[1..], all);
      if CountId(all, rs[0].id) == 1 {
        assert CountId(rs, rs[0].id) <= 1;
        CountHolds(rs[1..], rs[0].id);
      }
    }
  }

  /** `new`: an id registered twice is not registered at all. */
  function NewView(rs: seq<Registration>): ViewData {
    ViewData(SingleIn(rs, rs), COMMITTEE_BUDGET, MIN_SELF_STAKE, Full)
  }

  lemma NewViewIsDistinct(rs: seq<Registration>)
    ensures DistinctRegistrations(NewView(rs).registrations)
  {
    SinglesDiffer(rs, rs);
  }

  lemma {:induction false} CountTwice(rs: seq<Registration>, i: nat, j: nat)
    requires i < j < |rs| && rs[i].id == rs[j].id
    ensures CountId(rs, rs[i].id) >= 2
  {
    if i > 0 {
      CountTwice(rs[1..], i - 1, j - 1);
    } else {
      assert rs[1..][j - 1] == rs[j];
      CountHolds(rs[1..], rs[j].id);
    }
  }

  lemma {:induction false} CountOnce(rs: seq<Registration>, i: nat)
    requires i < |rs| && forall j :: 0 <= j < |rs| && j != i ==> rs[j].id != rs[i].id
    ensures CountId(rs, rs[i].id) == 1
  {
    assert forall j :: 0 <= j < |rs| - 1 ==> rs[1..][j] == rs[j + 1];
    if i > 0 {
      CountOnce(rs[1..], i - 1);
    } else {
      CountHolds(rs[1..], rs[0].id);
    }
  }

  /** Registered is exactly whoever was given under an id that nobody else was given under. */
  lemma RegisteredOnce(rs: seq<Registration>, r: Registration)
    ensures r in NewView(rs).registrations <==>
      exists i :: 0 <= i < |rs| && rs[i] == r && forall j :: 0 <= j < |rs| && j != i ==> rs[j].id != r.id
  {
    if r in NewView(rs).registrations {
      var i :| 0 <= i < |rs| && rs[i] == r;
      forall j | 0 <= j < |rs| && j != i ensures rs[j].id != r.id {
        if rs[j].id == r.id {
          CountTwice(rs, if i < j then i else j, if i < j then j else i);
        }
      }
    }
    if i :| 0 <= i < |rs| && rs[i] == r && forall j :: 0 <= j < |rs| && j != i ==> rs[j].id != r.id {
      CountOnce(rs, i);
    }
  }

  function FindRegistration(rs: seq<Registration>, id: u64): (r: Option<Registration>)
    ensures r.Some? ==> r.value in rs && r.value.id == id
    ensures r.None? ==> forall x :: x in rs ==> x.id != id
  {
    if rs == [] then None else if rs[0].id == id then Some(rs[0]) else FindRegistration(rs[1..], id)
  }

  // ---- the active set ----

  /** The indices below `n` of registrations that meet the floor, ascending. */
  function Meeting(rs: seq<Registration>, floor: u64, n: nat): (chosen: seq<nat>)
    requires n <= |rs|
    ensures forall i: nat :: i in chosen <==> i < n && rs[i].weight >= floor
    ensures forall i, j :: 0 <= i < j < |chosen| ==> chosen[i] < chosen[j]
    ensures |chosen| <= n
  {
    if n == 0 then []
    else
      var init := Meeting(rs, floor, n - 1);
      assert forall i :: 0 <= i < |init| ==> init[i] in init;
      init + if rs[n - 1].weight >= floor then [n - 1] else []
  }

  /** Higher weight first, then lower id. */
  predicate Outranks(rs: seq<Registration>, a: nat, b: nat)
    requires a < |rs| && b < |rs|
  {
    var x, y := rs[a], rs[b];
    x.weight > y.weight || (x.weight == y.weight && x.id <= y.id)
  }

  function ByRank(rs: seq<Registration>): (nat, nat) -> bool {
    (a: nat, b: nat) => if a < |rs| && b < |rs| then Outranks(rs, a, b) else a < |rs| || b >= |rs|
  }

  function ByIndex(): (nat, nat) -> bool {
    (a: nat, b: nat) => a <= b
  }

  predicate Crowded(rs: seq<Registration>, floor: u64, mode: DrawMode) {
    mode == Full && |Meeting(rs, floor, |rs|)| > MAX_ACTIVE_VALIDATORS
  }

  /** `active`: everyone meeting the floor, or in a full draw the hundred that rank highest. */
  function Active(rs: seq<Registration>, floor: u64, mode: DrawMode): seq<nat> {
    var chosen := Meeting(rs, floor, |rs|);
    if Crowded(rs, floor, mode) then
      SortKeeps(ByRank(rs), chosen);
      SortBy(ByIndex(), SortBy(ByRank(rs), chosen)[..MAX_ACTIVE_VALIDATORS])
    else chosen
  }

  lemma RankIsTotal(rs: seq<Registration>)
    ensures TotalOrder(ByRank(rs)) && TotalOrder(ByIndex())
  {
  }

  /** The active indices ascend without repeats, so that a binary search finds every one. */
  lemma ActiveAscends(rs: seq<Registration>, floor: u64, mode: DrawMode)
    ensures forall i, j :: 0 <= i < j < |Active(rs, floor, mode)| ==>
      Active(rs, floor, mode)[i] < Active(rs, floor, mode)[j]
  {
    var chosen := Meeting(rs, floor, |rs|);
    if Crowded(rs, floor, mode) {
      var ranked := SortBy(ByRank(rs), chosen);
      SortKeeps(ByRank(rs), chosen);
      var top := ranked[..MAX_ACTIVE_VALIDATORS];
      SortKeeps(ByIndex(), top);
      RankIsTotal(rs);
      SortSorts(ByIndex(), top);
      assert forall i, j :: 0 <= i < j < |top| ==> ByIndex()(Active(rs, floor, mode)[i], Active(rs, floor, mode)[j]);
    }
  }

  lemma TopHolds(ranked: seq<nat>, n: nat, a: nat)
    requires n <= |ranked|
    ensures |SortBy(ByIndex(), ranked[..n])| == n
    ensures a in SortBy(ByIndex(), ranked[..n]) <==> a in ranked[..n]
    ensures a in ranked[..n] ==> a in ranked
  {
    SortKeeps(ByIndex(), ranked[..n]);
  }

  /**
   * The active are registrations that meet the floor: all of them, except that a full draw stops at a hundred, and then
   * whoever is active ranks no lower than whoever meets the floor and is not.
   */
  lemma ActiveExactly(rs: seq<Registration>, floor: u64, mode: DrawMode, a: nat)
    ensures a in Active(rs, floor, mode) ==> a < |rs| && rs[a].weight >= floor
    ensures mode != Full || |Meeting(rs, floor, |rs|)| <= 100 ==>
      (a in Active(rs, floor, mode) <==> a < |rs| && rs[a].weight >= floor)
    ensures mode == Full && |Meeting(rs, floor, |rs|)| > 100 ==> |Active(rs, floor, mode)| == 100
    ensures forall b: nat ::
      a in Active(rs, floor, mode) && b !in Active(rs, floor, mode) && b < |rs| && rs[b].weight >= floor
      ==> a < |rs|
          && (rs[a].weight > rs[b].weight || (rs[a].weight == rs[b].weight && rs[a].id <= rs[b].id))
  {
    var chosen := Meeting(rs, floor, |rs|);
    if Crowded(rs, floor, mode) {
      var ranked := SortBy(ByRank(rs), chosen);
      SortKeeps(ByRank(rs), chosen);
      TopHolds(ranked, MAX_ACTIVE_VALIDATORS, a);
      assert a in Active(rs, floor, mode) ==> a in chosen;
      RankIsTotal(rs);
      SortSorts(ByRank(rs), chosen);
      forall b: nat | a in Active(rs, floor, mode) && b !in Active(rs, floor, mode) && b < |rs| && rs[b].weight >= floor
        ensures a < |rs| && (rs[a].weight > rs[b].weight || (rs[a].weight == rs[b].weight && rs[a].id <= rs[b].id))
      {
        TopHolds(ranked, MAX_ACTIVE_VALIDATORS, b);
        TopOutranks(rs, ranked, a, b);
      }
    }
  }

  lemma TopOutranks(rs: seq<Registration>, ranked: seq<nat>, a: nat, b: nat)
    requires SortedBy(ByRank(rs), ranked) && |ranked| > MAX_ACTIVE_VALIDATORS
    requires a in ranked[..MAX_ACTIVE_VALIDATORS] && b in ranked && b !in ranked[..MAX_ACTIVE_VALIDATORS]
    ensures ByRank(rs)(a, b)
  {
    var i :| 0 <= i < MAX_ACTIVE_VALIDATORS && ranked[i] == a;
    var j :| 0 <= j < |ranked| && ranked[j] == b;
    assert forall k :: 0 <= k < MAX_ACTIVE_VALIDATORS ==> ranked[k] == ranked[..MAX_ACTIVE_VALIDATORS][k];
  }

  function ActiveIn(v: ViewData): seq<nat> {
    Active(v.registrations, v.floor, v.mode)
  }

  predicate IsActive(v: ViewData, id: u64) {
    exists i :: i in ActiveIn(v) && i < |v.registrations| && v.registrations[i].id == id
  }

  function At(rs: seq<Registration>, chosen: seq<nat>): (r: seq<Registration>)
    requires forall i :: i in chosen ==> i < |rs|
    ensures |r| == |chosen|
  {
    seq(|chosen|, k requires 0 <= k < |chosen| => assert chosen[k] in chosen; rs[chosen[k]])
  }

  function Eligible(v: ViewData): (rs: seq<Registration>)
    ensures |rs| == |ActiveIn(v)|
  {
    assert forall i :: i in ActiveIn(v) ==> i < |v.registrations| by {
      forall i | i in ActiveIn(v) ensures i < |v.registrations| { ActiveExactly(v.registrations, v.floor, v.mode, i); }
    }
    At(v.registrations, ActiveIn(v))
  }

  lemma EligibleIsSmall(v: ViewData)
    ensures |Eligible(v)| <= |v.registrations|
  {
    var rs := v.registrations;
    var chosen := Meeting(rs, v.floor, |rs|);
    if Crowded(rs, v.floor, v.mode) {
      SortKeeps(ByRank(rs), chosen);
      TopHolds(SortBy(ByRank(rs), chosen), MAX_ACTIVE_VALIDATORS, 0);
    }
  }

  ghost predicate PicksId(rs: seq<Registration>, chosen: seq<nat>, id: u64) {
    exists i :: i in chosen && i < |rs| && rs[i].id == id
  }

  lemma AtHolds(rs: seq<Registration>, chosen: seq<nat>)
    requires DistinctRegistrations(rs) && Distinct(chosen) && forall i :: i in chosen ==> i < |rs|
    ensures DistinctRegistrations(At(rs, chosen))
    ensures forall r :: r in At(rs, chosen) ==> r in rs && PicksId(rs, chosen, r.id)
    ensures forall r :: r in rs && PicksId(rs, chosen, r.id) ==> r in At(rs, chosen)
  {
    var at := At(rs, chosen);
    assert forall k :: 0 <= k < |chosen| ==> chosen[k] in chosen && at[k] == rs[chosen[k]];
    forall r | r in rs && PicksId(rs, chosen, r.id) ensures r in at {
      var i :| i in chosen && i < |rs| && rs[i].id == r.id;
      var k :| 0 <= k < |chosen| && chosen[k] == i;
      assert at[k] == r;
    }
  }

  lemma EligibleHolds(v: ViewData)
    requires DistinctRegistrations(v.registrations)
    ensures DistinctRegistrations(Eligible(v))
    ensures forall r :: r in Eligible(v) ==> r in v.registrations && r.weight >= v.floor
    ensures forall r :: r in v.registrations ==> (IsActive(v, r.id) <==> r in Eligible(v))
  {
    ActiveAscends(v.registrations, v.floor, v.mode);
    forall i | i in ActiveIn(v) ensures i < |v.registrations| && v.registrations[i].weight >= v.floor {
      ActiveExactly(v.registrations, v.floor, v.mode, i);
    }
    AtHolds(v.registrations, ActiveIn(v));
    assert forall id :: IsActive(v, id) <==> PicksId(v.registrations, ActiveIn(v), id);
  }

  // ---- weights ----

  function RawWeights(rs: seq<Registration>): nat {
    if rs == [] then 0 else rs[0].weight + RawWeights(rs[1..])
  }

  /** The weight of the registrations that meet the floor. */
  function WeightMeeting(rs: seq<Registration>, floor: u64): nat {
    if rs == [] then 0 else (if rs[0].weight >= floor then rs[0].weight else 0) + WeightMeeting(rs[1..], floor)
  }

  /** A tenth of the weight that meets the floor, but no less than the floor. */
  function StakeCap(rs: seq<Registration>, floor: u64): u64 {
    var total := WeightMeeting(rs, floor);
    if total == 0 then floor
    else
      var share: u64 := if total / STAKE_CAP_MULTIPLE > U64_MAX then U64_MAX else total / STAKE_CAP_MULTIPLE;
      if share < floor then floor else share
  }

  function EffectiveWeight(v: ViewData, weight: u64): u64 {
    if weight < v.floor then 0
    else if v.mode == Full || weight < StakeCap(v.registrations, v.floor) then weight
    else StakeCap(v.registrations, v.floor)
  }

  lemma {:induction false} RawWeightsAppend(rs: seq<Registration>, r: Registration)
    ensures RawWeights(rs + [r]) == RawWeights(rs) + r.weight
  {
    if rs != [] {
      assert (rs + [r])[1..] == rs[1..] + [r];
      RawWeightsAppend(rs[1..], r);
    }
  }

  lemma {:induction false} WeightMeetingAppend(rs: seq<Registration>, r: Registration, floor: u64)
    ensures WeightMeeting(rs + [r], floor)
      == WeightMeeting(rs, floor) + if r.weight >= floor then r.weight else 0
  {
    if rs != [] {
      assert (rs + [r])[1..] == rs[1..] + [r];
      WeightMeetingAppend(rs[1..], r, floor);
    }
  }

  lemma MeetingNext(rs: seq<Registration>, floor: u64, n: nat)
    requires 0 < n <= |rs|
    ensures Meeting(rs, floor, n) == Meeting(rs, floor, n - 1) + if rs[n - 1].weight >= floor then [n - 1] else []
  {
  }

  lemma AtAppend(rs: seq<Registration>, chosen: seq<nat>, i: nat)
    requires i < |rs| && forall k :: k in chosen ==> k < |rs|
    ensures At(rs, chosen + [i]) == At(rs, chosen) + [rs[i]]
  {
    assert forall k :: k in chosen + [i] ==> k < |rs|;
  }

  lemma WeightStep(rs: seq<Registration>, floor: u64, n: nat, init: seq<nat>)
    requires 0 < n <= |rs| && (forall k :: k in init ==> k < |rs|)
    ensures WeightMeeting(rs[..n], floor) - WeightMeeting(rs[..n - 1], floor)
      == RawWeights(At(rs, init + if rs[n - 1].weight >= floor then [n - 1] else [])) - RawWeights(At(rs, init))
  {
    hide WeightMeeting, RawWeights;
    assert rs[..n] == rs[..n - 1] + [rs[n - 1]];
    WeightMeetingAppend(rs[..n - 1], rs[n - 1], floor);
    if rs[n - 1].weight >= floor {
      AtAppend(rs, init, n - 1);
      RawWeightsAppend(At(rs, init), rs[n - 1]);
    } else {
      assert init + [] == init;
    }
  }

  lemma {:induction false} WeightOfMeeting(rs: seq<Registration>, floor: u64, n: nat)
    requires n <= |rs|
    ensures WeightMeeting(rs[..n], floor) == RawWeights(At(rs, Meeting(rs, floor, n)))
  {
    if n == 0 {
      assert Meeting(rs, floor, 0) == [] && At(rs, []) == [];
    } else {
      hide WeightMeeting, RawWeights, Meeting, At;
      WeightOfMeeting(rs, floor, n - 1);
      MeetingNext(rs, floor, n);
      WeightStep(rs, floor, n, Meeting(rs, floor, n - 1));
    }
  }

  /**
   * The cap is the floor, or above it a tenth of the weight that meets the floor, rounded down, as far as 64 bits hold.
   */
  lemma CapExactly(rs: seq<Registration>, floor: u64)
    ensures StakeCap(rs, floor) >= floor
    ensures var meeting := RawWeights(At(rs, Meeting(rs, floor, |rs|)));
      && (StakeCap(rs, floor) > floor ==> 10 * StakeCap(rs, floor) <= meeting)
      && (meeting < 10 * (StakeCap(rs, floor) + 1) || StakeCap(rs, floor) == U64_MAX)
  {
    WeightOfMeeting(rs, floor, |rs|);
    assert rs[..|rs|] == rs;
  }

  /** A validator counts with nothing below the floor, else its stake, which in sampled modes the cap bounds. */
  lemma EffectiveExactly(v: ViewData, weight: u64)
    ensures weight < v.floor ==> EffectiveWeight(v, weight) == 0
    ensures weight >= v.floor && (v.mode == Full || weight <= StakeCap(v.registrations, v.floor)) ==>
      EffectiveWeight(v, weight) == weight
    ensures weight >= v.floor && v.mode != Full && weight >= StakeCap(v.registrations, v.floor) ==>
      EffectiveWeight(v, weight) == StakeCap(v.registrations, v.floor)
  {
  }

  /** Effective weight keeps the order of stakes, never exceeds the stake, and in sampled modes never the cap. */
  lemma EffectiveWeightBounds(v: ViewData, weight: u64, more: u64)
    requires weight <= more
    ensures EffectiveWeight(v, weight) <= EffectiveWeight(v, more)
    ensures EffectiveWeight(v, weight) <= weight
    ensures v.mode != Full ==> EffectiveWeight(v, weight) <= StakeCap(v.registrations, v.floor)
    ensures v.floor > 0 ==> (EffectiveWeight(v, weight) > 0 <==> weight >= v.floor)
  {
    CapExactly(v.registrations, v.floor);
  }

  function EffectiveWeights(v: ViewData, rs: seq<Registration>): (ws: seq<u64>)
    ensures |ws| == |rs|
  {
    seq(|rs|, i requires 0 <= i < |rs| => EffectiveWeight(v, rs[i].weight))
  }

  function SaturatingSum(ws: seq<u64>): u64 {
    if ws == [] then 0
    else
      var w := SaturatingSum(ws[..|ws| - 1]) + ws[|ws| - 1];
      if w > U64_MAX then U64_MAX else w
  }

  function TotalWeight(v: ViewData): u64 {
    SaturatingSum(EffectiveWeights(v, Eligible(v)))
  }

  /** What these registrations count with together. */
  function EffectiveSum(v: ViewData, rs: seq<Registration>): nat {
    if rs == [] then 0 else EffectiveSum(v, rs[..|rs| - 1]) + EffectiveWeight(v, rs[|rs| - 1].weight)
  }

  lemma {:induction false} EffectiveSumSaturates(v: ViewData, rs: seq<Registration>)
    ensures SaturatingSum(EffectiveWeights(v, rs))
      == if EffectiveSum(v, rs) > U64_MAX then U64_MAX else EffectiveSum(v, rs)
  {
    if rs != [] {
      EffectiveSumSaturates(v, rs[..|rs| - 1]);
      assert EffectiveWeights(v, rs)[..|rs| - 1] == EffectiveWeights(v, rs[..|rs| - 1]);
    }
  }

  /** The total is what all eligible validators count with, as far as 64 bits hold. */
  lemma TotalExactly(v: ViewData)
    ensures TotalWeight(v) == if EffectiveSum(v, Eligible(v)) > U64_MAX then U64_MAX else EffectiveSum(v, Eligible(v))
  {
    EffectiveSumSaturates(v, Eligible(v));
  }

  /** The sums of up to 2^53 weights that the source takes in `u128` do not overflow it. */
  lemma {:induction false} WeightsFit(rs: seq<Registration>, floor: u64)
    ensures WeightMeeting(rs, floor) <= RawWeights(rs) <= |rs| * U64_MAX
    ensures |rs| <= MAX_MEMBERS ==> RawWeights(rs) <= U128_MAX
  {
    if rs != [] {
      WeightsFit(rs[1..], floor);
      assert |rs| * U64_MAX == |rs[1..]| * U64_MAX + U64_MAX;
    }
  }

  // ---- the view and its caches ----

  /** A view as the node holds it: every derived quantity is computed once and kept. */
  class CommitteeView {
    const registrations: seq<Registration>
    var budget: u64
    var floor: u64
    var mode: DrawMode
    var cap: Option<u64>
    var total: Option<u64>
    var active: Option<seq<nat>>

    function Data(): ViewData
      reads this
    {
      ViewData(registrations, budget, floor, mode)
    }

    /** What is kept is what computing it again would give. */
    ghost predicate Valid()
      reads this
    {
      && DistinctRegistrations(registrations)
      && (cap.Some? ==> cap.value == StakeCap(registrations, floor))
      && (total.Some? ==> total.value == TotalWeight(Data()))
      && (active.Some? ==> active.value == ActiveIn(Data()))
    }

    constructor (rs: seq<Registration>)
      ensures Valid() && Data() == NewView(rs)
      ensures cap.None? && total.None? && active.None?
    {
      registrations, budget, floor, mode := SingleIn(rs, rs), COMMITTEE_BUDGET, MIN_SELF_STAKE, Full;
      cap, total, active := None, None, None;
      new;
      NewViewIsDistinct(rs);
    }

    /** The weight cap does not depend on the mode, so it is kept. */
    method WithMode(m: DrawMode)
      requires Valid()
      modifies this
      ensures Valid() && Data() == old(Data()).(mode := m)
    {
      mode := m;
      total, active := None, None;
    }

    /** Nothing that is kept depends on the budget. */
    method WithBudget(b: u64)
      requires Valid()
      modifies this
      ensures Valid() && Data() == old(Data()).(budget := b)
    {
      ghost var before := Data();
      budget := b;
      BudgetChangesNothing(before, b);
    }

    method WithFloor(f: u64)
      requires Valid()
      modifies this
      ensures Valid() && Data() == old(Data()).(floor := f)
      ensures cap.None? && total.None? && active.None?
    {
      floor := f;
      cap, total, active := None, None, None;
    }

    method GetActive() returns (chosen: seq<nat>)
      requires Valid()
      modifies this`active
      ensures Valid() && Data() == old(Data()) && chosen == ActiveIn(Data())
    {
      if active.None? {
        active := Some(ActiveIn(Data()));
      }
      chosen := active.value;
    }

    method GetStakeCap() returns (w: u64)
      requires Valid()
      modifies this`cap
      ensures Valid() && Data() == old(Data()) && w == StakeCap(registrations, floor)
    {
      if cap.None? {
        cap := Some(StakeCap(registrations, floor));
      }
      w := cap.value;
    }

    method GetTotalWeight() returns (w: u64)
      requires Valid()
      modifies this`total
      ensures Valid() && Data() == old(Data()) && w == TotalWeight(Data())
    {
      if total.None? {
        total := Some(TotalWeight(Data()));
      }
      w := total.value;
    }
  }

  lemma BudgetChangesNothing(v: ViewData, b: u64)
    ensures var w := v.(budget := b); ActiveIn(w) == ActiveIn(v) && TotalWeight(w) == TotalWeight(v)
  {
    var w := v.(budget := b);
    assert EffectiveWeights(w, Eligible(w)) == EffectiveWeights(v, Eligible(v));
  }
}
