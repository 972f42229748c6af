/** Building committee commitments from lists of members: one entry an id, none if keys are shared, no stake lost. */
module CommitmentBuilding {
  import opened Wrappers
  import opened Bytes
  import opened Sorting
  import opened Sortition
  import opened Commitments

  // ---- constructing a commitment ----

  function ByKeyId(): (MemberKey, MemberKey) -> bool {
    (a: MemberKey, b: MemberKey) => a.id <= b.id
  }

  /** `dedup_by_key`: the first of every run of equal ids. */
  function Dedup(ms: seq<MemberKey>): (r: seq<MemberKey>)
    ensures |r| <= |ms| && (ms != [] ==> r != [] && r[0] == ms[0])
    ensures forall m :: m in r ==> m in ms
    decreases |ms|
  {
    if |ms| < 2 then ms
    else if ms[0].id == ms[1].id then Dedup([ms[0]] + ms[2..])
    else [ms[0]] + Dedup(ms[1..])
  }

  ghost predicate NonDescending(ms: seq<MemberKey>) {
    forall i, j :: 0 <= i < j < |ms| ==> ms[i].id <= ms[j].id
  }

  lemma {:induction false} DedupAscends(ms: seq<MemberKey>)
    requires NonDescending(ms)
    ensures Ascending(Dedup(ms))
    decreases |ms|
  {
    if |ms| >= 2 {
      if ms[0].id == ms[1].id {
        var fewer := [ms[0]] + ms[2..];
        assert forall i :: 0 < i < |fewer| ==> fewer[i] == ms[i + 1];
        DedupAscends(fewer);
      } else {
        DedupAscends(ms[1..]);
        var rest := Dedup(ms[1..]);
        forall j | 0 <= j < |rest| ensures ms[0].id < rest[j].id {
          assert rest[j] in ms[1..];
        }
      }
    }
  }

  lemma {:induction false} DedupFinds(ms: seq<MemberKey>, id: u64)
    ensures Find(Dedup(ms), id) == Find(ms, id)
    decreases |ms|
  {
    if |ms| >= 2 {
      if ms[0].id == ms[1].id {
        DedupFinds([ms[0]] + ms[2..], id);
        assert ms[1..][1..] == ms[2..];
        assert ([ms[0]] + ms[2..])[1..] == ms[2..];
      } else {
        DedupFinds(ms[1..], id);
      }
    }
  }

  lemma {:induction false} InsertFinds(m: MemberKey, ms: seq<MemberKey>, id: u64)
    ensures Find(InsertBy(ByKeyId(), m, ms), id) == if m.id == id then Some(m) else Find(ms, id)
  {
    if ms != [] {
      InsertFinds(m, ms[1..], id);
    }
  }

  lemma {:induction false} SortFinds(ms: seq<MemberKey>, id: u64)
    ensures Find(SortBy(ByKeyId(), ms), id) == Find(ms, id)
  {
    if ms != [] {
      SortFinds(ms[1..], id);
      InsertFinds(ms[0], SortBy(ByKeyId(), ms[1..]), id);
    }
  }

  predicate SharesKey(ms: seq<MemberKey>) {
    exists i, j :: 0 <= i < j < |ms| && ms[i].attestPk == ms[j].attestPk
  }

  lemma ArrangedFinds(ms: seq<MemberKey>)
    ensures forall id :: Find(Dedup(SortBy(ByKeyId(), ms)), id) == Find(ms, id)
  {
    forall id ensures Find(Dedup(SortBy(ByKeyId(), ms)), id) == Find(ms, id) {
      SortFinds(ms, id);
      DedupFinds(SortBy(ByKeyId(), ms), id);
    }
  }

  /** One entry an id, the first given, in ascending order. */
  function Arranged(ms: seq<MemberKey>): (r: seq<MemberKey>)
    ensures Ascending(r) && |r| <= |ms|
    ensures forall id :: Find(r, id) == Find(ms, id)
  {
    ArrangedFinds(ms);
    SortKeeps(ByKeyId(), ms);
    IdsTotal();
    SortSorts(ByKeyId(), ms);
    InOrderOfIds(SortBy(ByKeyId(), ms));
    DedupAscends(SortBy(ByKeyId(), ms));
    Dedup(SortBy(ByKeyId(), ms))
  }

  lemma IdsTotal()
    ensures TotalOrder(ByKeyId())
  {
  }

  lemma InOrderOfIds(ms: seq<MemberKey>)
    requires SortedBy(ByKeyId(), ms)
    ensures NonDescending(ms)
  {
    forall i, j | 0 <= i < j < |ms| ensures ms[i].id <= ms[j].id {
      assert ByKeyId()(ms[i], ms[j]);
    }
  }

  function FromMemberKeysWithTotal(slot: u64, ms: seq<MemberKey>, budget: u64, total: u64,
                                   mode: DrawMode): CommitteeCommitment
    requires |ms| <= MAX_MEMBERS
  {
    var members := Arranged(ms);
    CommitmentData(slot, total, budget, if SharesKey(members) then [] else members, 0, mode)
  }

  function SumWeights(ms: seq<MemberKey>): nat {
    if ms == [] then 0 else ms[0].weight + SumWeights(ms[1..])
  }

  function FromMemberKeys(slot: u64, ms: seq<MemberKey>, budget: u64, mode: DrawMode): CommitteeCommitment
    requires |ms| <= MAX_MEMBERS
  {
    var members := Arranged(ms);
    if SumWeights(members) <= U64_MAX then FromMemberKeysWithTotal(slot, members, budget, SumWeights(members), mode)
    else FromMemberKeysWithTotal(slot, [], budget, 0, mode)
  }

  /** A commitment holds the first entry given for each id, or nobody when two entries it would hold share a key. */
  lemma HoldsFirstEntries(slot: u64, ms: seq<MemberKey>, budget: u64, total: u64, mode: DrawMode, id: u64)
    requires |ms| <= MAX_MEMBERS
    ensures var c := FromMemberKeysWithTotal(slot, ms, budget, total, mode);
      MemberOf(c, id) == if SharesKey(Arranged(ms)) then None else Find(ms, id)
  {
  }

  lemma {:induction false} SumWeightsAppend(ms: seq<MemberKey>, m: MemberKey)
    ensures SumWeights(ms + [m]) == SumWeights(ms) + m.weight
  {
    if ms != [] {
      assert (ms + [m])[1..] == ms[1..] + [m];
      SumWeightsAppend(ms[1..], m);
    }
  }

  lemma {:induction false} WeightBelowSum(ms: seq<MemberKey>)
    ensures CommitteeWeight(ms) <= SumWeights(ms)
  {
    if ms != [] {
      var init, last := ms[..|ms| - 1], ms[|ms| - 1];
      WeightBelowSum(init);
      SumWeightsAppend(init, last);
      assert ms == init + [last];
    }
  }

  lemma ArrangedStays(ms: seq<MemberKey>)
    requires Ascending(ms)
    ensures Arranged(ms) == ms
  {
    assert SortedBy(ByKeyId(), ms);
    SortedStays(ByKeyId(), ms);
    DedupStays(ms);
  }

  /**
   * A commitment that adds up its own total passes the verifier's check of it: the arranged members with the exact
   * sum of their weights, or nobody when keys are shared or the sum overflows 64 bits.
   */
  lemma TotalCovers(slot: u64, ms: seq<MemberKey>, budget: u64, mode: DrawMode)
    requires |ms| <= MAX_MEMBERS
    ensures var c := FromMemberKeys(slot, ms, budget, mode);
      && c.totalWeight >= CommitteeWeight(c.members)
      && c.members == (if SharesKey(Arranged(ms)) || SumWeights(Arranged(ms)) > U64_MAX then [] else Arranged(ms))
      && c.totalWeight == (if SumWeights(Arranged(ms)) > U64_MAX then 0 else SumWeights(Arranged(ms)))
      && c.slot == slot && c.budget == budget && c.mode == mode && c.absentStake == 0
  {
    ArrangedStays(Arranged(ms));
    ArrangedStays([]);
    WeightBelowSum(Arranged(ms));
  }

  // ---- stake is kept ----

  lemma {:induction false} InsertStake(m: MemberKey, ms: seq<MemberKey>, ids: set<u64>)
    ensures StakeIn(InsertBy(ByKeyId(), m, ms), ids) == StakeIn([m] + ms, ids)
  {
    assert ([m] + ms)[1..] == ms;
    if ms != [] && m.id > ms[0].id {
      InsertStake(m, ms[1..], ids);
      assert ([m] + ms[1..])[1..] == ms[1..];
    }
  }

  lemma {:induction false} SortStake(ms: seq<MemberKey>, ids: set<u64>)
    ensures StakeIn(SortBy(ByKeyId(), ms), ids) == StakeIn(ms, ids)
  {
    if ms != [] {
      SortStake(ms[1..], ids);
      InsertStake(ms[0], SortBy(ByKeyId(), ms[1..]), ids);
      assert StakeIn([ms[0]] + SortBy(ByKeyId(), ms[1..]), ids)
        == (if ms[0].id in ids then ms[0].stake else 0) + StakeIn(SortBy(ByKeyId(), ms[1..]), ids) by {
        assert ([ms[0]] + SortBy(ByKeyId(), ms[1..]))[1..] == SortBy(ByKeyId(), ms[1..]);
      }
    }
  }

  function IdOf(): MemberKey -> u64 {
    (m: MemberKey) => m.id
  }

  lemma {:induction false} DedupStays(ms: seq<MemberKey>)
    requires Ascending(ms)
    ensures Dedup(ms) == ms
  {
    if |ms| >= 2 {
      assert forall i :: 0 <= i < |ms[1..]| ==> ms[1..][i] == ms[i + 1];
      DedupStays(ms[1..]);
      assert ms == [ms[0]] + ms[1..];
    }
  }

  /** Entries with different ids are all kept, with all their stake. */
  lemma ArrangedKeepsStake(ms: seq<MemberKey>)
    requires KeysApart(IdOf(), ms)
    ensures Sum(Stakes(Arranged(ms))) == Sum(Stakes(ms))
  {
    var sorted := SortBy(ByKeyId(), ms);
    KeysStayApart(ByKeyId(), IdOf(), ms);
    IdsTotal();
    SortSorts(ByKeyId(), ms);
    InOrderOfIds(sorted);
    forall i, j | 0 <= i < j < |sorted| ensures sorted[i].id < sorted[j].id {
      assert IdOf()(sorted[i]) != IdOf()(sorted[j]);
    }
    DedupStays(sorted);
    SortKeeps(ByKeyId(), ms);
    var ids := AllIds(ms);
    assert AllIds(sorted) <= ids;
    SortStake(ms, ids);
    StakeInAll(ms, ids);
    StakeInAll(sorted, ids);
  }
}
