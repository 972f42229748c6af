/** Forming a slot's committee from published draws, and choosing who leads it. */
module CommitteeFormation {
  import opened Wrappers
  import opened Bytes
  import opened Sorting
  import opened OneTime
  import opened LeaderLog
  import opened Sortition
  import opened CommitteeViews

  // ---- admission ----

  /** `admits`: the id is registered and active, and its draw for the slot verifies at its weight. */
  predicate Admits(h: Hashing, v: View, seed: Bytes32, slot: u64, id: u64, c: Credential) {
    match FindRegistration(v.registrations, id)
    case None => false
    case Some(reg) =>
      && reg.weight >= v.floor && IsActive(v, id)
      && VerifyDraw(h, v.mode, reg.root, id, seed, slot, EffectiveWeight(v, reg.weight), TotalWeight(v), v.budget, c)
  }

  function Relevant(v: View, published: seq<PublishedReveal>): nat {
    if published == [] then 0
    else
      Relevant(v, published[..|published| - 1])
      + if v.mode != Full || IsActive(v, published[|published| - 1].id) then 1 else 0
  }

  predicate DistinctPublished(published: seq<PublishedReveal>) {
    forall i, j :: 0 <= i < j < |published| ==> published[i].id != published[j].id
  }

  /** Admitted are exactly the eligible whose draw verifies at what they count with, of the total. */
  lemma AdmitsExactly(h: Hashing, v: View, seed: Bytes32, slot: u64, id: u64, c: Credential)
    ensures Admits(h, v, seed, slot, id, c) <==>
      exists r :: r in Eligible(v) && r.id == id
        && VerifyDraw(h, v.mode, r.root, id, seed, slot, EffectiveWeight(v, r.weight), TotalWeight(v), v.budget, c)
  {
    hide VerifyDraw, EffectiveWeight, TotalWeight, Eligible, IsActive;
    EligibleHolds(v);
    var found := FindRegistration(v.registrations, id);
    if found.Some? {
      forall r | r in Eligible(v) && r.id == id ensures found == Some(r) {
        FindDistinct(v.registrations, r);
      }
      assert IsActive(v, id) <==> found.value in Eligible(v);
    }
  }

  /** The published draws that count against the limit: in a full draw only those of active validators. */
  ghost function Counting(v: View, published: seq<PublishedReveal>): set<nat> {
    set i: nat | i < |published| && (v.mode == Full ==> IsActive(v, published[i].id))
  }

  lemma {:induction false} RelevantCounts(v: View, published: seq<PublishedReveal>)
    ensures Relevant(v, published) == |Counting(v, published)|
  {
    hide IsActive;
    if published != [] {
      var n: nat := |published| - 1;
      assert forall i :: 0 <= i < n ==> published[..n][i] == published[i];
      RelevantCounts(v, published[..n]);
      if n in Counting(v, published) {
        assert Counting(v, published) == Counting(v, published[..n]) + {n};
      } else {
        assert Counting(v, published) == Counting(v, published[..n]);
      }
    }
  }

  ghost predicate SeatFrom(h: Hashing, v: View, seed: Bytes32, slot: u64, r: PublishedReveal, m: Member) {
    && Admits(h, v, seed, slot, r.id, r.credential)
    && m == Member(r.id, EffectiveWeight(v, FindRegistration(v.registrations, r.id).value.weight), r.credential)
  }

  ghost predicate Seated(h: Hashing, v: View, seed: Bytes32, slot: u64, published: seq<PublishedReveal>, m: Member) {
    exists r :: r in published && SeatFrom(h, v, seed, slot, r, m)
  }

  /**
   * What a committee is: nobody when more draws are published than there are eligible validators, or an id twice, and
   * else exactly the admitted draws, each at its validator's effective weight, in ascending order of ids.
   */
  ghost predicate Formed(h: Hashing, v: View, seed: Bytes32, slot: u64, published: seq<PublishedReveal>,
                         members: seq<Member>) {
    var twice := exists i, j :: 0 <= i < j < |published| && published[i].id == published[j].id;
    && (twice || |Counting(v, published)| > |Eligible(v)| ==> members == [])
    && (!twice && |Counting(v, published)| <= |Eligible(v)| ==>
          forall m :: m in members <==> Seated(h, v, seed, slot, published, m))
    && (forall i, j :: 0 <= i < j < |members| ==> members[i].id < members[j].id)
    && (v.mode != Full ==> |members| <= |Eligible(v)|)
  }

  lemma {:induction false} AllRelevant(v: View, published: seq<PublishedReveal>)
    requires v.mode != Full
    ensures Relevant(v, published) == |published|
  {
    if published != [] {
      AllRelevant(v, published[..|published| - 1]);
    }
  }

  function ByMember(): (Member, Member) -> bool {
    (a: Member, b: Member) => a.id <= b.id
  }

  /** The seat a published draw takes, given the total weight. */
  function Seat(h: Hashing, v: View, seed: Bytes32, slot: u64, total: u64, r: PublishedReveal): (seat: Option<Member>)
    requires total == TotalWeight(v)
    ensures forall m :: SeatFrom(h, v, seed, slot, r, m) <==> seat == Some(m)
    ensures seat.Some? ==> seat.value.id == r.id
  {
    match FindRegistration(v.registrations, r.id)
    case None => None
    case Some(reg) =>
      var weight := EffectiveWeight(v, reg.weight);
      if reg.weight >= v.floor && IsActive(v, r.id)
         && VerifyDraw(h, v.mode, reg.root, r.id, seed, slot, weight, total, v.budget, r.credential)
      then Some(Member(r.id, weight, r.credential))
      else None
  }

  method FormCommittee(h: Hashing, v: View, seed: Bytes32, slot: u64, published: seq<PublishedReveal>)
    returns (members: seq<Member>)
    ensures Formed(h, v, seed, slot, published, members)
  {
    hide SeatFrom, IsActive, Counting, Eligible;
    if v.mode != Full {
      AllRelevant(v, published);
    }
    RelevantCounts(v, published);
    if Relevant(v, published) > |Eligible(v)| {
      return [];
    }
    if !DistinctPublished(published) {
      return [];
    }
    var total := TotalWeight(v);
    members := [];
    for i := 0 to |published|
      invariant forall m :: m in members <==> Seated(h, v, seed, slot, published[..i], m)
      invariant DistinctIds(members) && |members| <= i
    {
      var r := published[i];
      TakeOneMore(published, i);
      ghost var before := members;
      var seat := Seat(h, v, seed, slot, total, r);
      if seat.Some? {
        NewId(h, v, seed, slot, published, i, members);
        members := members + [seat.value];
      }
      SeatsGrow(h, v, seed, slot, published[..i], r, before, members);
    }
    assert published[..|published|] == published;
    members := SortMembers(members);
  }

  lemma SeatsGrow(h: Hashing, v: View, seed: Bytes32, slot: u64, published: seq<PublishedReveal>, r: PublishedReveal,
                  before: seq<Member>, after: seq<Member>)
    requires forall m :: m in before <==> Seated(h, v, seed, slot, published, m)
    requires forall m :: m in after <==> m in before || SeatFrom(h, v, seed, slot, r, m)
    ensures forall m :: m in after <==> Seated(h, v, seed, slot, published + [r], m)
  {
    forall m ensures Seated(h, v, seed, slot, published + [r], m) <==>
      Seated(h, v, seed, slot, published, m) || SeatFrom(h, v, seed, slot, r, m) {
      if Seated(h, v, seed, slot, published, m) {
        var q :| q in published && SeatFrom(h, v, seed, slot, q, m);
        assert q in published + [r];
      }
      if SeatFrom(h, v, seed, slot, r, m) {
        assert r in published + [r];
      }
    }
  }

  lemma NewId(h: Hashing, v: View, seed: Bytes32, slot: u64, published: seq<PublishedReveal>, i: nat,
              members: seq<Member>)
    requires i < |published| && DistinctPublished(published)
    requires forall m :: m in members ==> Seated(h, v, seed, slot, published[..i], m)
    ensures forall k :: 0 <= k < |members| ==> members[k].id != published[i].id
  {
    forall k | 0 <= k < |members| ensures members[k].id != published[i].id {
      assert members[k] in members;
      var r :| r in published[..i] && SeatFrom(h, v, seed, slot, r, members[k]);
      var j :| 0 <= j < i && published[j] == r;
    }
  }

  /** `sort_by_key` on the id. */
  function SortMembers(members: seq<Member>): (r: seq<Member>)
    requires DistinctIds(members)
    ensures |r| == |members| && forall m :: m in r <==> m in members
    ensures forall i, j :: 0 <= i < j < |r| ==> r[i].id < r[j].id
  {
    SortedMembers(members);
    SortBy(ByMember(), members)
  }

  lemma SortedMembers(members: seq<Member>)
    requires DistinctIds(members)
    ensures var r := SortBy(ByMember(), members);
      && |r| == |members| && (forall m :: m in r <==> m in members)
      && forall i, j :: 0 <= i < j < |r| ==> r[i].id < r[j].id
  {
    var r := SortBy(ByMember(), members);
    SortKeeps(ByMember(), members);
    SortSorts(ByMember(), members);
    var key := (m: Member) => m.id;
    KeysStayApart(ByMember(), key, members);
    forall i, j | 0 <= i < j < |r| ensures r[i].id < r[j].id {
      assert ByMember()(r[i], r[j]) && key(r[i]) != key(r[j]);
    }
  }

  // ---- the leader of the slot ----

  function BoundLeaderOutput(h: Hashing, v: View, seed: Bytes32, slot: u64): Member -> Option<Bytes32> {
    (m: Member) =>
      match FindRegistration(v.registrations, m.id)
      case None => None
      case Some(reg) => Some(BoundSortitionOutput(h, m.id, reg.root, m.credential.preimage, seed, DomainLeader(), slot))
  }

  /** The view's `elect_leader`, by its mode. */
  method ElectSlotLeader(h: Hashing, v: View, members: seq<Member>, seed: Bytes32, slot: u64)
    returns (leader: Option<Member>)
    ensures v.mode == Full ==> leader == None
    ensures v.mode == Unbound && leader.Some? ==>
      IsLeader(LEADER_SCORE_FRAC_BITS, LeaderOutput(h, seed, slot), members, leader.value)
    ensures v.mode == Bound && leader.Some? ==>
      IsLeader(LEADER_SCORE_FRAC_BITS, BoundLeaderOutput(h, v, seed, slot), members, leader.value)
    ensures v.mode == Unbound ==> (leader.None? <==> members == [])
    ensures v.mode == Bound ==>
      (leader.None? <==> members == [] || exists m :: m in members && FindRegistration(v.registrations, m.id).None?)
  {
    match v.mode {
      case Unbound =>
        leader := ElectLeader(h, members, seed, slot);
      case Full =>
        leader := None;
      case Bound =>
        var output := BoundLeaderOutput(h, v, seed, slot);
        leader := Race(LEADER_SCORE_FRAC_BITS, output, members);
        assert forall m :: output(m).None? <==> FindRegistration(v.registrations, m.id).None?;
    }
  }

  // ---- rotation ----

  function FromLittleEndian(bytes: seq<u8>): nat {
    if bytes == [] then 0 else bytes[0] + 256 * FromLittleEndian(bytes[1..])
  }

  function RotationInput(epoch: u64, slot: u64): seq<u8> {
    Ascii("QORUS/leader/rotation/v1") + LittleEndian(epoch, 8) + LittleEndian(slot, 8)
  }

  /** No two slots of any epochs share a rotation input. */
  lemma RotationInputInjective(epoch: u64, slot: u64, epoch': u64, slot': u64)
    requires RotationInput(epoch, slot) == RotationInput(epoch', slot')
    ensures epoch == epoch' && slot == slot'
  {
    var d := Ascii("QORUS/leader/rotation/v1");
    SplitConcat(d + LittleEndian(epoch, 8), LittleEndian(slot, 8), d + LittleEndian(epoch', 8), LittleEndian(slot', 8));
    SplitConcat(d, LittleEndian(epoch, 8), d, LittleEndian(epoch', 8));
    U64Injective(epoch, epoch');
    U64Injective(slot, slot');
  }

  /** Sixteen bytes of output are the first sixteen of a longer one. */
  function RotationDraw(h: Hashing, epoch: u64, slot: u64): nat {
    FromLittleEndian(h.shake(RotationInput(epoch, slot))[..16])
  }

  function ByRegistration(): (Registration, Registration) -> bool {
    (a: Registration, b: Registration) => a.id <= b.id
  }

  function Rotation(v: View): seq<Registration> {
    SortBy(ByRegistration(), Eligible(v))
  }

  /** Whose stretch of the line a position falls in, each validator's as long as its weight. */
  function Pick(rs: seq<Registration>, position: nat): Option<u64> {
    if rs == [] then None
    else if position < rs[0].weight then Some(rs[0].id)
    else Pick(rs[1..], position - rs[0].weight)
  }

  /** The walk along the line. */
  method WalkTo(line: seq<Registration>, start: nat) returns (leader: Option<u64>)
    ensures leader == Pick(line, start)
  {
    var position: nat := start;
    for i := 0 to |line|
      invariant Pick(line[i..], position) == Pick(line, start)
    {
      assert line[i..][1..] == line[i + 1..];
      if position < line[i].weight {
        return Some(line[i].id);
      }
      position := position - line[i].weight;
    }
    return None;
  }

  /** Whom the rotation names for a slot. */
  function RotationPick(h: Hashing, v: View, epoch: u64, slot: u64): Option<u64> {
    var line := Rotation(v);
    if RawWeights(line) == 0 then None else Pick(line, RotationDraw(h, epoch, slot) % RawWeights(line))
  }

  /** The weight of the registrations with an id below this. */
  function WeightBelow(rs: seq<Registration>, id: nat): nat {
    if rs == [] then 0 else (if rs[0].id < id then rs[0].weight else 0) + WeightBelow(rs[1..], id)
  }

  /** The leader's stretch, which follows those of the eligible validators with lower ids, holds the position drawn. */
  ghost predicate InStretch(rs: seq<Registration>, id: u64, position: nat) {
    exists r :: r in rs && r.id == id && WeightBelow(rs, id) <= position < WeightBelow(rs, id) + r.weight
  }

  /**
   * Nobody leads exactly when no eligible validator has weight. Otherwise the hash of the epoch and the slot, modulo
   * the eligible weight, falls in the leader's stretch, and in nobody else's.
   */
  method RotationLeader(h: Hashing, v: View, epoch: u64, slot: u64) returns (leader: Option<u64>)
    ensures leader == RotationPick(h, v, epoch, slot)
    ensures leader.None? <==> RawWeights(Eligible(v)) == 0
    ensures leader.None? <==> forall r :: r in Eligible(v) ==> r.weight == 0
    ensures leader.Some? ==>
      var drawn := FromLittleEndian(h.shake(RotationInput(epoch, slot))[..16]);
      forall id: u64 :: InStretch(Eligible(v), id, drawn % RawWeights(Eligible(v))) <==> leader == Some(id)
  {
    hide InStretch, WeightBelow, Eligible;
    var line := Rotation(v);
    WeightlessLine(Eligible(v));
    SortKeepsWeight(Eligible(v));
    var total := RawWeights(line);
    if total == 0 {
      return None;
    }
    var position := RotationDraw(h, epoch, slot) % total;
    PickFinds(line, position);
    leader := WalkTo(line, position);
    forall id: u64 ensures InStretch(Eligible(v), id, position) <==> leader == Some(id) {
      PickInStretch(v, id, position);
    }
  }

  lemma {:induction false} InsertKeepsWeight(x: Registration, rs: seq<Registration>, id: nat)
    ensures WeightBelow(InsertBy(ByRegistration(), x, rs), id) == WeightBelow([x] + rs, id)
  {
    if rs != [] && !ByRegistration()(x, rs[0]) {
      InsertKeepsWeight(x, rs[1..], id);
    }
  }

  lemma {:induction false} SortKeepsWeightBelow(rs: seq<Registration>, id: nat)
    ensures WeightBelow(SortBy(ByRegistration(), rs), id) == WeightBelow(rs, id)
  {
    if rs != [] {
      SortKeepsWeightBelow(rs[1..], id);
      InsertKeepsWeight(rs[0], SortBy(ByRegistration(), rs[1..]), id);
    }
  }

  lemma {:induction false} AllBelow(rs: seq<Registration>, id: nat)
    requires forall r :: r in rs ==> r.id < id
    ensures WeightBelow(rs, id) == RawWeights(rs)
  {
    if rs != [] {
      AllBelow(rs[1..], id);
    }
  }

  lemma SortKeepsWeight(rs: seq<Registration>)
    ensures RawWeights(SortBy(ByRegistration(), rs)) == RawWeights(rs)
  {
    AllBelow(rs, U64_MAX + 1);
    AllBelow(SortBy(ByRegistration(), rs), U64_MAX + 1);
    SortKeepsWeightBelow(rs, U64_MAX + 1);
  }

  ghost predicate AscendingRegistrations(rs: seq<Registration>) {
    forall i, j :: 0 <= i < j < |rs| ==> rs[i].id < rs[j].id
  }

  lemma LineAscends(v: View)
    ensures AscendingRegistrations(Rotation(v))
  {
    var line := Rotation(v);
    LineIsDistinct(v);
    SortSorts(ByRegistration(), Eligible(v));
    forall i, j | 0 <= i < j < |line| ensures line[i].id < line[j].id {
      assert ByRegistration()(line[i], line[j]);
    }
  }

  /** In an ascending line a stretch starts where the lower ids end. */
  lemma {:induction false} StartIsBelow(rs: seq<Registration>, id: u64)
    requires AscendingRegistrations(rs) && FindRegistration(rs, id).Some?
    ensures Start(rs, id) == WeightBelow(rs, id)
  {
    assert forall i :: 0 <= i < |rs[1..]| ==> rs[1..][i] == rs[i + 1];
    if rs[0].id == id {
      NoneBelow(rs[1..], id);
    } else {
      StartIsBelow(rs[1..], id);
      assert FindRegistration(rs, id).value in rs[1..];
    }
  }

  lemma {:induction false} NoneBelow(rs: seq<Registration>, id: u64)
    requires forall r :: r in rs ==> r.id > id
    ensures WeightBelow(rs, id) == 0
  {
    if rs != [] {
      NoneBelow(rs[1..], id);
    }
  }

  lemma PickInStretch(v: View, id: u64, position: nat)
    ensures InStretch(Eligible(v), id, position) <==> Pick(Rotation(v), position) == Some(id)
  {
    var line := Rotation(v);
    LineIsDistinct(v);
    LineAscends(v);
    PickIsStretch(line, id, position);
    SortKeeps(ByRegistration(), Eligible(v));
    SortKeepsWeightBelow(Eligible(v), id);
    var found := FindRegistration(line, id);
    if found.Some? {
      StartIsBelow(line, id);
      assert found.value in Eligible(v);
      forall r | r in Eligible(v) && r.id == id ensures r == found.value {
        FindDistinct(line, r);
      }
    }
  }

  // ---- every slot draws anew ----

  lemma {:induction false} LittleEndianRead(x: nat, n: nat)
    requires x < Pow256(n)
    ensures FromLittleEndian(LittleEndian(x, n)) == x
  {
    if n > 0 {
      assert LittleEndian(x, n)[1..] == LittleEndian(x / 256, n - 1);
      LittleEndianRead(x / 256, n - 1);
    }
  }

  /** Thirty-two bytes whose first sixteen read as this number. */
  function Drawing(position: u128): Bytes32 {
    LittleEndian(position, 16) + seq(16, _ => 0)
  }

  lemma DrawingReads(position: u128)
    ensures FromLittleEndian(Drawing(position)[..16]) == position
  {
    WidthsFit();
    LittleEndianRead(position, 16);
    assert Drawing(position)[..16] == LittleEndian(position, 16);
  }

  /** A hash under which the first slot draws one position and every other slot another. */
  function DrawingHash(epoch: u64, slot: u64, position: u128, other: u128): Hashing {
    Hashing(_ => Drawing(0), x => if x == RotationInput(epoch, slot) then Drawing(position) else Drawing(other))
  }

  /** Slots draw apart: at two of them, of one epoch or two, any two eligible validators with weight may lead. */
  lemma SlotsDrawApart(v: View, epoch: u64, slot: u64, x: Registration, epoch': u64, slot': u64, y: Registration)
    returns (h: Hashing)
    requires epoch != epoch' || slot != slot'
    requires x in Eligible(v) && y in Eligible(v) && x.weight > 0 && y.weight > 0
    ensures RotationPick(h, v, epoch, slot) == Some(x.id)
    ensures RotationPick(h, v, epoch', slot') == Some(y.id)
  {
    hide Rotation, Pick, Eligible, RotationInput, Drawing;
    var p := StartInLine(v, x);
    var q := StartInLine(v, y);
    h := DrawingHash(epoch, slot, p, q);
    DrawnAt(v, epoch, slot, h, p);
    DrawnAt(v, epoch', slot', h, q);
    if RotationInput(epoch, slot) == RotationInput(epoch', slot') {
      RotationInputInjective(epoch, slot, epoch', slot');
    }
  }

  /** A position drawn within the line picks whom the line holds there. */
  lemma DrawnAt(v: View, epoch: u64, slot: u64, h: Hashing, p: u128)
    ensures h.shake(RotationInput(epoch, slot)) == Drawing(p) && p < RawWeights(Rotation(v)) ==>
      RotationPick(h, v, epoch, slot) == Pick(Rotation(v), p)
  {
    hide Rotation, Pick, RotationInput, Drawing, FromLittleEndian, RawWeights;
    DrawingReads(p);
    if h.shake(RotationInput(epoch, slot)) == Drawing(p) && p < RawWeights(Rotation(v)) {
      assert RotationDraw(h, epoch, slot) == p;
      Remains(p, RawWeights(Rotation(v)));
    }
  }

  lemma Remains(p: nat, n: nat)
    requires p < n
    ensures p % n == p
  {
  }

  lemma StartInLine(v: View, x: Registration) returns (p: u128)
    requires x in Eligible(v) && x.weight > 0
    ensures p < RawWeights(Rotation(v)) && Pick(Rotation(v), p) == Some(x.id)
  {
    var line := Rotation(v);
    SortKeeps(ByRegistration(), Eligible(v));
    LineIsDistinct(v);
    FindDistinct(line, x);
    EligibleIsSmall(v);
    WeightsFit(line, 0);
    PickIsStretch(line, x.id, Start(line, x.id));
    p := Start(line, x.id);
  }

  lemma {:induction false} WeightlessLine(rs: seq<Registration>)
    ensures RawWeights(rs) == 0 <==> forall r :: r in rs ==> r.weight == 0
  {
    if rs != [] {
      WeightlessLine(rs[1..]);
      assert rs == [rs[0]] + rs[1..];
    }
  }

  lemma {:induction false} PickFinds(rs: seq<Registration>, position: nat)
    ensures Pick(rs, position).Some? <==> position < RawWeights(rs)
  {
    if rs != [] && position >= rs[0].weight {
      PickFinds(rs[1..], position - rs[0].weight);
    }
  }

  /** The positions below `n` that pick the id. */
  ghost function PositionsOf(rs: seq<Registration>, id: u64, n: nat): set<nat> {
    set p: nat | p < n && Pick(rs, p) == Some(id)
  }

  /** Where an id's stretch begins. */
  function Start(rs: seq<Registration>, id: u64): nat {
    if rs == [] || rs[0].id == id then 0 else rs[0].weight + Start(rs[1..], id)
  }

  lemma {:induction false} PickIsStretch(rs: seq<Registration>, id: u64, position: nat)
    requires DistinctRegistrations(rs)
    ensures Pick(rs, position) == Some(id) <==>
      FindRegistration(rs, id).Some?
        && Start(rs, id) <= position < Start(rs, id) + FindRegistration(rs, id).value.weight
    ensures FindRegistration(rs, id).Some? ==> Start(rs, id) + FindRegistration(rs, id).value.weight <= RawWeights(rs)
  {
    if rs != [] {
      assert forall i :: 0 <= i < |rs[1..]| ==> rs[1..][i] == rs[i + 1];
      PickIsStretch(rs[1..], id, if position < rs[0].weight then 0 else position - rs[0].weight);
      assert FindRegistration(rs[1..], rs[0].id).None?;
    }
  }

  ghost function Stretch(low: nat, size: nat): (ps: set<nat>)
    ensures |ps| == size && forall p: nat :: p in ps <==> low <= p < low + size
  {
    if size == 0 then {} else Stretch(low, size - 1) + {low + (size - 1)}
  }

  /** The positions that pick an id of the line number its weight. */
  lemma StretchIsWeight(rs: seq<Registration>, id: u64)
    requires DistinctRegistrations(rs)
    ensures |PositionsOf(rs, id, RawWeights(rs))|
      == match FindRegistration(rs, id) case Some(r) => r.weight case None => 0
  {
    var positions := PositionsOf(rs, id, RawWeights(rs));
    forall p: nat ensures p in positions <==>
      FindRegistration(rs, id).Some? && Start(rs, id) <= p < Start(rs, id) + FindRegistration(rs, id).value.weight {
      PickIsStretch(rs, id, p);
    }
    assert positions == if FindRegistration(rs, id).Some?
      then Stretch(Start(rs, id), FindRegistration(rs, id).value.weight) else {};
  }

  /**
   * Exact shares: of all positions, an eligible validator is picked at as many as its weight, and nobody else at any.
   */
  lemma RotationShare(v: View, id: u64)
    ensures var line := Rotation(v);
      |PositionsOf(line, id, RawWeights(line))| ==
        match FindRegistration(v.registrations, id)
        case Some(r) => if IsActive(v, id) then r.weight else 0
        case None => 0
  {
    LineIsDistinct(v);
    StretchIsWeight(Rotation(v), id);
    FoundInLine(v, id);
  }

  lemma LineIsDistinct(v: View)
    ensures DistinctRegistrations(Rotation(v))
  {
    var line, key := SortBy(ByRegistration(), Eligible(v)), (r: Registration) => r.id;
    EligibleHolds(v);
    KeysStayApart(ByRegistration(), key, Eligible(v));
    assert KeysApart(key, line);
    forall i, j | 0 <= i < j < |line| ensures line[i].id != line[j].id {
      assert key(line[i]) != key(line[j]);
    }
  }

  lemma FoundInLine(v: View, id: u64)
    ensures var line, reg := Rotation(v), FindRegistration(v.registrations, id);
      FindRegistration(line, id) == if reg.Some? && IsActive(v, id) then reg else None
  {
    var line := Rotation(v);
    EligibleHolds(v);
    SortKeeps(ByRegistration(), Eligible(v));
    if FindRegistration(line, id).Some? {
      var r := FindRegistration(line, id).value;
      assert r in v.registrations && r in Eligible(v);
      FindDistinct(v.registrations, r);
    } else if FindRegistration(v.registrations, id).Some? {
      var r := FindRegistration(v.registrations, id).value;
      assert r !in line;
    }
  }

  lemma {:induction false} FindDistinct(rs: seq<Registration>, r: Registration)
    requires DistinctRegistrations(rs) && r in rs
    ensures FindRegistration(rs, r.id) == Some(r)
  {
    if rs[0] != r {
      assert r in rs[1..];
      var i :| 0 <= i < |rs[1..]| && rs[1..][i] == r;
      assert rs[i + 1] == r;
      assert forall k :: 0 <= k < |rs[1..]| ==> rs[1..][k] == rs[k + 1];
      FindDistinct(rs[1..], r);
    }
  }
}
