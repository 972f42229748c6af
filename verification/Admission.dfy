/**
 * The builder's two phases, for any test of which attestations are wanted and which are genuine: sorting the wanted
 * ones into one bucket a member, then admitting one genuine attestation a member, round by round, within a budget.
 */
module Admission {
  import opened Bytes
  import opened IdSets
  import opened Attestations

  const MAX_CANDIDATES_PER_MEMBER: nat := 4

  // ---- candidates ----

  /** A nonempty bucket has room for `a` and holds no other attestation with its signature. */
  predicate Fresh(bucket: seq<Attestation>, a: Attestation, cap: nat) {
    |bucket| < cap && forall held :: held in bucket ==> held.sig != a.sig
  }

  function KeptWith(wanted: Attestation -> bool, bucket: seq<Attestation>, id: u64, a: Attestation,
                    cap: nat): seq<Attestation> {
    if wanted(a) && a.from == id && (bucket == [] || Fresh(bucket, a, cap)) then bucket + [a] else bucket
  }

  /** What one member's bucket keeps: its first candidate, then up to `cap` with signatures not held yet. */
  function Kept(wanted: Attestation -> bool, atts: seq<Attestation>, id: u64, cap: nat): (bucket: seq<Attestation>)
    ensures forall a :: a in bucket ==> a in atts && a.from == id && wanted(a)
  {
    if atts == [] then [] else KeptWith(wanted, Kept(wanted, atts[..|atts| - 1], id, cap), id, atts[|atts| - 1], cap)
  }

  /** One member's candidates, each with a signature of its own; a bucket keeps the first of them. */
  function CandidatesOf(wanted: Attestation -> bool, atts: seq<Attestation>, id: u64): (bucket: seq<Attestation>)
    ensures forall a :: a in bucket ==> a in atts && a.from == id && wanted(a)
    ensures forall i, j :: 0 <= i < j < |bucket| ==> bucket[i].sig != bucket[j].sig
  {
    if atts == [] then []
    else
      var bucket, a := CandidatesOf(wanted, atts[..|atts| - 1], id), atts[|atts| - 1];
      if wanted(a) && a.from == id && forall held :: held in bucket ==> held.sig != a.sig then bucket + [a] else bucket
  }

  function Take(bucket: seq<Attestation>, cap: nat): seq<Attestation> {
    if cap < |bucket| then bucket[..cap] else bucket
  }

  lemma {:induction false} KeptIsFirst(wanted: Attestation -> bool, atts: seq<Attestation>, id: u64, cap: nat)
    requires cap >= 1
    ensures Kept(wanted, atts, id, cap) == Take(CandidatesOf(wanted, atts, id), cap)
  {
    if atts != [] {
      KeptIsFirst(wanted, atts[..|atts| - 1], id, cap);
    }
  }

  /** The members with candidates, in order of appearance. */
  function Order(wanted: Attestation -> bool, atts: seq<Attestation>): (order: seq<u64>)
    ensures Distinct(order)
    ensures forall a :: a in atts && wanted(a) ==> a.from in order
    ensures forall id :: id in order ==> exists a :: a in atts && wanted(a) && a.from == id
  {
    if atts == [] then []
    else
      var init, a := Order(wanted, atts[..|atts| - 1]), atts[|atts| - 1];
      assert atts == atts[..|atts| - 1] + [a];
      if wanted(a) && a.from !in init then init + [a.from] else init
  }

  /** The members with candidates in order of appearance, and each one's bucket. */
  datatype Groups = Groups(order: seq<u64>, buckets: map<u64, seq<Attestation>>)

  ghost predicate WellFormed(g: Groups) {
    && Distinct(g.order)
    && (forall id :: id in g.order <==> id in g.buckets)
    && (forall id :: id in g.buckets ==> g.buckets[id] != [])
  }

  ghost predicate Grouped(wanted: Attestation -> bool, atts: seq<Attestation>, cap: nat, g: Groups) {
    && WellFormed(g) && g.order == Order(wanted, atts)
    && forall id :: Kept(wanted, atts, id, cap) == BucketIn(g, id)
  }

  lemma KeptNext(wanted: Attestation -> bool, atts: seq<Attestation>, n: nat, id: u64, cap: nat)
    requires n < |atts|
    ensures Kept(wanted, atts[..n + 1], id, cap) == KeptWith(wanted, Kept(wanted, atts[..n], id, cap), id, atts[n], cap)
  {
    assert atts[..n + 1][..n] == atts[..n];
  }

  function Filed(g: Groups, a: Attestation, cap: nat): Groups
  {
    if a.from in g.buckets then
      var bucket := g.buckets[a.from];
      if bucket == [] || Fresh(bucket, a, cap) then g.(buckets := g.buckets[a.from := bucket + [a]]) else g
    else Groups(g.order + [a.from], g.buckets[a.from := [a]])
  }

  lemma FiledWellFormed(g: Groups, a: Attestation, cap: nat)
    requires WellFormed(g)
    ensures WellFormed(Filed(g, a, cap))
  {
    if a.from !in g.buckets { assert a.from !in g.order; }
  }

  function BucketIn(g: Groups, id: u64): seq<Attestation> {
    if id in g.buckets then g.buckets[id] else []
  }

  lemma FiledBucket(wanted: Attestation -> bool, g: Groups, a: Attestation, cap: nat, id: u64)
    requires WellFormed(g)
    ensures KeptWith(wanted, BucketIn(g, id), id, a, cap) == BucketIn(if wanted(a) then Filed(g, a, cap) else g, id)
  {
  }

  lemma FiledGroups(wanted: Attestation -> bool, atts: seq<Attestation>, n: nat, cap: nat, g: Groups, next: Groups)
    requires n < |atts| && Grouped(wanted, atts[..n], cap, g)
    requires next == if wanted(atts[n]) then Filed(g, atts[n], cap) else g
    ensures Grouped(wanted, atts[..n + 1], cap, next)
  {
    FiledWellFormed(g, atts[n], cap);
    assert atts[..n + 1][..n] == atts[..n];
    forall id ensures Kept(wanted, atts[..n + 1], id, cap) == BucketIn(next, id) {
      KeptNext(wanted, atts, n, id, cap);
      FiledBucket(wanted, g, atts[n], cap, id);
    }
  }

  method GroupCandidates(wanted: Attestation -> bool, atts: seq<Attestation>, cap: nat) returns (g: Groups)
    ensures Grouped(wanted, atts, cap, g)
  {
    g := Groups([], map[]);
    for n := 0 to |atts|
      invariant Grouped(wanted, atts[..n], cap, g)
    {
      ghost var before := g;
      if wanted(atts[n]) {
        g := Filed(g, atts[n], cap);
      }
      FiledGroups(wanted, atts, n, cap, before, g);
    }
    assert atts[..|atts|] == atts;
  }

  // ---- the checks a walk makes ----

  function Min(a: nat, b: nat): nat {
    if a < b then a else b
  }

  /** Where the first genuine candidate stands; past the end if there is none. */
  function FirstGenuine(genuine: Attestation -> bool, bucket: seq<Attestation>): (k: nat)
    ensures k <= |bucket| && (k < |bucket| ==> genuine(bucket[k]))
    ensures forall i :: 0 <= i < k ==> !genuine(bucket[i])
  {
    if bucket == [] || genuine(bucket[0]) then 0 else 1 + FirstGenuine(genuine, bucket[1..])
  }

  /** The checks a bucket takes, if nothing cuts them short: up to its first genuine candidate, or all. */
  function Needed(genuine: Attestation -> bool, bucket: seq<Attestation>): nat {
    Min(FirstGenuine(genuine, bucket) + 1, |bucket|)
  }

  /**
   * The checks made when `round` whole rounds are done and the next has passed the first n members, where member j
   * takes `needs[j]` checks in all, one a round.
   */
  function Spent(needs: seq<nat>, round: nat, n: nat): nat {
    if needs == [] then 0
    else
      var j := |needs| - 1;
      Spent(needs[..j], round, n) + Min(if j < n then round + 1 else round, needs[j])
  }

  function Total(needs: seq<nat>): nat {
    if needs == [] then 0 else Total(needs[..|needs| - 1]) + needs[|needs| - 1]
  }

  lemma {:induction false} SpentNext(needs: seq<nat>, round: nat, n: nat)
    ensures Spent(needs, round, n + 1) == Spent(needs, round, n) + if n < |needs| && needs[n] > round then 1 else 0
  {
    if needs != [] {
      SpentNext(needs[..|needs| - 1], round, n);
    }
  }

  lemma {:induction false} SpentRound(needs: seq<nat>, round: nat, n: nat)
    requires |needs| <= n
    ensures Spent(needs, round, n) == Spent(needs, round + 1, 0)
  {
    if needs != [] {
      SpentRound(needs[..|needs| - 1], round, n);
    }
  }

  lemma {:induction false} NothingSpent(needs: seq<nat>)
    ensures Spent(needs, 0, 0) == 0
  {
    if needs != [] {
      NothingSpent(needs[..|needs| - 1]);
    }
  }

  /** The walk reaches place n of a round before, or no later than, place m of another. */
  predicate Before(round: nat, n: nat, later: nat, m: nat) {
    round < later || (round == later && n < m)
  }

  lemma {:induction false} SpentGrows(needs: seq<nat>, round: nat, n: nat, later: nat, m: nat)
    requires !Before(later, m, round, n)
    ensures Spent(needs, round, n) <= Spent(needs, later, m)
  {
    if needs != [] {
      SpentGrows(needs[..|needs| - 1], round, n, later, m);
    }
  }

  lemma {:induction false} SpentInTotal(needs: seq<nat>, round: nat, n: nat)
    ensures Spent(needs, round, n) <= Total(needs)
    ensures (forall j :: 0 <= j < |needs| ==> needs[j] <= round) ==> Spent(needs, round, n) == Total(needs)
  {
    if needs != [] {
      var init := needs[..|needs| - 1];
      SpentInTotal(init, round, n);
      assert forall j :: 0 <= j < |init| ==> init[j] == needs[j];
    }
  }

  /** No member has been checked more than once a round. */
  lemma {:induction false} SpentAtMost(needs: seq<nat>, round: nat, n: nat)
    ensures Spent(needs, round, n) <= round * |needs| + Min(n, |needs|)
  {
    if needs != [] {
      SpentAtMost(needs[..|needs| - 1], round, n);
      assert round * |needs| == round * (|needs| - 1) + round;
    }
  }

  lemma {:induction false} SpentOnOne(needs: seq<nat>, round: nat, n: nat, j: nat)
    requires j < |needs|
    ensures Spent(needs, round, n) >= Min(round, needs[j])
  {
    if j < |needs| - 1 {
      SpentOnOne(needs[..|needs| - 1], round, n, j);
    }
  }

  // ---- admission ----

  /** `admitted` lists genuine candidates, one for each signer in `seen`. */
  ghost predicate Admitted(genuine: Attestation -> bool, g: Groups, seen: seq<u64>, admitted: seq<Attestation>) {
    && Distinct(seen) && |seen| == |admitted|
    && forall i :: 0 <= i < |seen| ==> AdmittedAs(genuine, g, admitted[i], seen[i])
  }

  predicate AdmittedAs(genuine: Attestation -> bool, g: Groups, a: Attestation, id: u64) {
    a.from == id && id in g.buckets && a in g.buckets[id] && genuine(a)
  }

  ghost predicate Candidates(g: Groups) {
    WellFormed(g) && forall id, a :: id in g.buckets && a in g.buckets[id] ==> a.from == id
  }

  function BucketAt(g: Groups, j: nat): seq<Attestation>
    requires j < |g.order|
  {
    BucketIn(g, g.order[j])
  }

  function NeedsIn(genuine: Attestation -> bool, g: Groups): (needs: seq<nat>)
    ensures |needs| == |g.order|
  {
    seq(|g.order|, j requires 0 <= j < |g.order| => Needed(genuine, BucketAt(g, j)))
  }

  /** Member j has a genuine candidate, and the walk has passed it. */
  ghost predicate Reached(genuine: Attestation -> bool, g: Groups, round: nat, n: nat, j: nat)
    requires j < |g.order|
  {
    var k := FirstGenuine(genuine, BucketAt(g, j));
    k < |BucketAt(g, j)| && Before(k, j, round, n)
  }

  /** The walk stands at place n of a round: what it has spent, and whom it has admitted. */
  ghost predicate At(genuine: Attestation -> bool, g: Groups, round: nat, n: nat, seen: seq<u64>, used: nat) {
    && used == Spent(NeedsIn(genuine, g), round, n)
    && (forall id :: id in seen ==> id in g.order)
    && forall j :: 0 <= j < |g.order| ==> (g.order[j] in seen <==> Reached(genuine, g, round, n, j))
  }

  lemma PlaceChecked(genuine: Attestation -> bool, g: Groups, round: nat, n: nat, seen: seq<u64>, used: nat)
    requires Candidates(g) && n < |g.order| && At(genuine, g, round, n, seen, used)
    ensures var bucket, id := BucketAt(g, n), g.order[n];
      var checked := id !in seen && round < |bucket|;
      && (checked <==> NeedsIn(genuine, g)[n] > round)
      && At(genuine, g, round, n + 1, if checked && genuine(bucket[round]) then seen + [id] else seen,
            if checked then used + 1 else used)
  {
    SpentNext(NeedsIn(genuine, g), round, n);
    assert Reached(genuine, g, round, n, n) <==> g.order[n] in seen;
    forall j | 0 <= j < |g.order| && j != n
      ensures Reached(genuine, g, round, n + 1, j) <==> Reached(genuine, g, round, n, j)
    {
    }
  }

  ghost predicate SomeNeeds(needs: seq<nat>, n: nat, round: nat)
    requires n <= |needs|
  {
    exists j :: 0 <= j < n && needs[j] > round
  }

  lemma OneMoreNeeds(needs: seq<nat>, n: nat, round: nat)
    requires n < |needs|
    ensures SomeNeeds(needs, n + 1, round) <==> SomeNeeds(needs, n, round) || needs[n] > round
  {
  }

  lemma AdmitOne(genuine: Attestation -> bool, g: Groups, seen: seq<u64>, admitted: seq<Attestation>, id: u64,
                 a: Attestation)
    requires Admitted(genuine, g, seen, admitted) && id !in seen && AdmittedAs(genuine, g, a, id)
    ensures Admitted(genuine, g, seen + [id], admitted + [a])
  {
  }

  /**
   * One member's turn: checks its candidate at index `round`, unless it is admitted, has none left or the cap is hit.
   */
  method AdmitPlace(genuine: Attestation -> bool, g: Groups, round: nat, n: nat, cap: nat,
                    seen0: seq<u64>, admitted0: seq<Attestation>, used0: nat)
    returns (seen: seq<u64>, admitted: seq<Attestation>, used: nat, offered: bool)
    requires Candidates(g) && Admitted(genuine, g, seen0, admitted0) && n < |g.order|
    requires At(genuine, g, round, n, seen0, used0) && used0 <= cap
    ensures Admitted(genuine, g, seen, admitted)
    ensures (offered <==> NeedsIn(genuine, g)[n] > round) && (used0 == cap ==> used == cap)
    ensures At(genuine, g, round, if offered && used0 == cap then n else n + 1, seen, used) && used <= cap
  {
    var id := g.order[n];
    assert id in g.order;
    var bucket := g.buckets[id];
    seen, admitted, used := seen0, admitted0, used0;
    PlaceChecked(genuine, g, round, n, seen, used);
    offered := id !in seen && round < |bucket|;
    if !offered || used >= cap {
      return;
    }
    used := used + 1;
    var a := bucket[round];
    assert a in bucket;
    if genuine(a) {
      AdmitOne(genuine, g, seen, admitted, id, a);
      seen, admitted := seen + [id], admitted + [a];
    }
  }

  /** One pass over the members, checking the candidate at index `round` of each one not admitted yet. */
  method AdmitRound(genuine: Attestation -> bool, g: Groups, round: nat, cap: nat,
                    seen0: seq<u64>, admitted0: seq<Attestation>, used0: nat)
    returns (seen: seq<u64>, admitted: seq<Attestation>, used: nat, progressed: bool, ghost stop: nat)
    requires Candidates(g) && Admitted(genuine, g, seen0, admitted0)
    requires At(genuine, g, round, 0, seen0, used0) && used0 <= cap
    ensures Admitted(genuine, g, seen, admitted) && stop <= |g.order|
    ensures At(genuine, g, round, stop, seen, used) && used <= cap
    ensures stop < |g.order| ==> used == cap && progressed
    ensures progressed <==> SomeNeeds(NeedsIn(genuine, g), |g.order|, round)
  {
    hide At, Admitted, Candidates, NeedsIn;
    seen, admitted, used, progressed, stop := seen0, admitted0, used0, false, 0;
    ghost var needs := NeedsIn(genuine, g);
    for n := 0 to |g.order|
      invariant stop == n && used <= cap
      invariant Admitted(genuine, g, seen, admitted) && At(genuine, g, round, n, seen, used)
      invariant progressed <==> SomeNeeds(needs, n, round)
    {
      var full := used == cap;
      var offered;
      seen, admitted, used, offered := AdmitPlace(genuine, g, round, n, cap, seen, admitted, used);
      OneMoreNeeds(needs, n, round);
      progressed := progressed || offered;
      if offered && full {
        break;
      }
      stop := n + 1;
    }
  }

  lemma {:induction false} LongestNeed(needs: seq<nat>) returns (m: nat)
    ensures forall j :: 0 <= j < |needs| ==> needs[j] <= m
  {
    m := 0;
    if needs != [] {
      var rest := LongestNeed(needs[..|needs| - 1]);
      m := if needs[|needs| - 1] > rest then needs[|needs| - 1] else rest;
      forall j | 0 <= j < |needs| ensures needs[j] <= m {
        assert j < |needs| - 1 ==> needs[..|needs| - 1][j] == needs[j];
      }
    }
  }

  lemma RoundDone(genuine: Attestation -> bool, g: Groups, round: nat, seen: seq<u64>, used: nat)
    requires At(genuine, g, round, |g.order|, seen, used)
    ensures At(genuine, g, round + 1, 0, seen, used)
  {
    SpentRound(NeedsIn(genuine, g), round, |g.order|);
    forall j | 0 <= j < |g.order| ensures Reached(genuine, g, round + 1, 0, j) <==>
      Reached(genuine, g, round, |g.order|, j) {
    }
  }

  /** Within the cap, the walk gets to member j's first genuine candidate. */
  ghost predicate WithinReach(genuine: Attestation -> bool, g: Groups, cap: nat, j: nat)
    requires j < |g.order|
  {
    var k := FirstGenuine(genuine, BucketAt(g, j));
    k < |BucketAt(g, j)| && Spent(NeedsIn(genuine, g), k, j) < cap
  }

  /** A walk that stopped at its cap, or had nothing left to check, has admitted exactly whom the cap lets it reach. */
  lemma WalkEnds(genuine: Attestation -> bool, g: Groups, cap: nat, round: nat, n: nat, seen: seq<u64>, used: nat)
    requires At(genuine, g, round, n, seen, used) && used <= cap
    requires used == cap || forall j :: 0 <= j < |g.order| ==> NeedsIn(genuine, g)[j] <= round
    ensures used == Min(cap, Total(NeedsIn(genuine, g)))
    ensures forall j :: 0 <= j < |g.order| ==> (g.order[j] in seen <==> WithinReach(genuine, g, cap, j))
  {
    var needs := NeedsIn(genuine, g);
    SpentInTotal(needs, round, n);
    forall j | 0 <= j < |g.order| ensures g.order[j] in seen <==> WithinReach(genuine, g, cap, j) {
      var k := FirstGenuine(genuine, BucketAt(g, j));
      SpentNext(needs, k, j);
      SpentInTotal(needs, k, j + 1);
      if Before(k, j, round, n) {
        SpentGrows(needs, k, j + 1, round, n);
      } else {
        SpentGrows(needs, round, n, k, j);
      }
    }
  }

  /** The round loop: it ends, and within the cap admits exactly the members it can reach. */
  method Admit(genuine: Attestation -> bool, g: Groups, cap: nat)
    returns (seen: seq<u64>, admitted: seq<Attestation>, used: nat)
    requires Candidates(g)
    ensures Admitted(genuine, g, seen, admitted)
    ensures forall id :: id in seen ==> id in g.order
    ensures forall j :: 0 <= j < |g.order| ==> (g.order[j] in seen <==> WithinReach(genuine, g, cap, j))
    ensures used == Min(cap, Total(NeedsIn(genuine, g)))
  {
    seen, admitted, used := [], [], 0;
    var round := 0;
    var progressed := true;
    ghost var needs := NeedsIn(genuine, g);
    ghost var longest := LongestNeed(needs);
    ghost var last, stop := 0, 0;
    NothingSpent(needs);
    while progressed && used < cap
      invariant Admitted(genuine, g, seen, admitted) && used <= cap
      invariant At(genuine, g, last, stop, seen, used)
      invariant used < cap ==> last == round && stop == 0
      invariant round <= longest + 1 && (progressed ==> round <= longest)
      invariant !progressed ==> forall j :: 0 <= j < |g.order| ==> needs[j] <= last
      decreases longest + 1 - round
    {
      seen, admitted, used, progressed, stop := AdmitRound(genuine, g, round, cap, seen, admitted, used);
      last := round;
      if stop == |g.order| {
        RoundDone(genuine, g, round, seen, used);
        last, stop := round + 1, 0;
      }
      round := round + 1;
    }
    WalkEnds(genuine, g, cap, last, stop, seen, used);
  }

  // ---- the same in terms of the list alone ----

  function NeedsOf(wanted: Attestation -> bool, genuine: Attestation -> bool, atts: seq<Attestation>): (needs: seq<nat>)
    ensures |needs| == |Order(wanted, atts)|
  {
    var order := Order(wanted, atts);
    seq(|order|, j requires 0 <= j < |order| => Needed(genuine, CandidatesOf(wanted, atts, order[j])))
  }

  /** The checks the list would take, given enough of them. */
  function Cost(wanted: Attestation -> bool, genuine: Attestation -> bool, atts: seq<Attestation>): nat {
    Total(NeedsOf(wanted, genuine, atts))
  }

  /** The walk within `cap` checks gets to the first genuine candidate of the member at place j. */
  predicate Reachable(wanted: Attestation -> bool, genuine: Attestation -> bool, atts: seq<Attestation>, cap: nat,
                      j: nat)
    requires j < |Order(wanted, atts)|
  {
    var bucket := CandidatesOf(wanted, atts, Order(wanted, atts)[j]);
    var k := FirstGenuine(genuine, bucket);
    k < |bucket| && Spent(NeedsOf(wanted, genuine, atts), k, j) < cap
  }

  predicate IsAdmitted(wanted: Attestation -> bool, genuine: Attestation -> bool, atts: seq<Attestation>, cap: nat,
                       id: u64) {
    exists j :: 0 <= j < |Order(wanted, atts)| && Order(wanted, atts)[j] == id
      && Reachable(wanted, genuine, atts, cap, j)
  }

  /** Who is admitted from the list within `cap` checks. */
  function AdmittedIds(wanted: Attestation -> bool, genuine: Attestation -> bool, atts: seq<Attestation>,
                       cap: nat): set<u64> {
    set id | id in Order(wanted, atts) && IsAdmitted(wanted, genuine, atts, cap, id)
  }

  lemma {:induction false} FirstInTake(genuine: Attestation -> bool, bucket: seq<Attestation>, cap: nat)
    ensures FirstGenuine(genuine, Take(bucket, cap)) == Min(FirstGenuine(genuine, bucket), |Take(bucket, cap)|)
    ensures Needed(genuine, Take(bucket, cap)) == Min(cap, Needed(genuine, bucket))
    decreases bucket
  {
    if bucket != [] && cap > 0 && !genuine(bucket[0]) {
      FirstInTake(genuine, bucket[1..], cap - 1);
      assert Take(bucket, cap)[1..] == Take(bucket[1..], cap - 1);
    }
  }

  lemma {:induction false} SpentCut(needs: seq<nat>, cut: seq<nat>, cap: nat, round: nat, n: nat)
    requires |cut| == |needs| && round < cap
    requires forall j :: 0 <= j < |needs| ==> cut[j] == Min(cap, needs[j])
    ensures Spent(cut, round, n) == Spent(needs, round, n)
  {
    if needs != [] {
      SpentCut(needs[..|needs| - 1], cut[..|needs| - 1], cap, round, n);
    }
  }

  lemma {:induction false} TotalCut(needs: seq<nat>, cut: seq<nat>, cap: nat)
    requires |cut| == |needs|
    requires forall j :: 0 <= j < |needs| ==> cut[j] == Min(cap, needs[j])
    ensures Min(cap, Total(cut)) == Min(cap, Total(needs))
  {
    if needs != [] {
      TotalCut(needs[..|needs| - 1], cut[..|needs| - 1], cap);
    }
  }

  lemma NeedsAreCut(wanted: Attestation -> bool, genuine: Attestation -> bool, atts: seq<Attestation>, cap: nat,
                    g: Groups)
    requires Grouped(wanted, atts, cap, g) && cap >= 1
    ensures var needs, cut := NeedsOf(wanted, genuine, atts), NeedsIn(genuine, g);
      |cut| == |needs| && forall j :: 0 <= j < |needs| ==> cut[j] == Min(cap, needs[j])
    ensures forall j :: 0 <= j < |g.order| ==> BucketAt(g, j) == Take(CandidatesOf(wanted, atts, g.order[j]), cap)
  {
    forall j | 0 <= j < |g.order|
      ensures BucketAt(g, j) == Take(CandidatesOf(wanted, atts, g.order[j]), cap)
      ensures NeedsIn(genuine, g)[j] == Min(cap, NeedsOf(wanted, genuine, atts)[j])
    {
      var id := g.order[j];
      assert Kept(wanted, atts, id, cap) == BucketIn(g, id);
      KeptIsFirst(wanted, atts, id, cap);
      FirstInTake(genuine, CandidatesOf(wanted, atts, id), cap);
    }
  }

  /** That buckets stop at the cap changes nobody's admission. */
  lemma CutKeepsReach(wanted: Attestation -> bool, genuine: Attestation -> bool, atts: seq<Attestation>, cap: nat,
                      g: Groups, j: nat)
    requires Grouped(wanted, atts, cap, g) && j < |g.order|
    ensures WithinReach(genuine, g, cap, j) <==> Reachable(wanted, genuine, atts, cap, j)
  {
    var bucket := CandidatesOf(wanted, atts, g.order[j]);
    var k := FirstGenuine(genuine, bucket);
    var needs, cut := NeedsOf(wanted, genuine, atts), NeedsIn(genuine, g);
    if cap >= 1 {
      NeedsAreCut(wanted, genuine, atts, cap, g);
      FirstInTake(genuine, bucket, cap);
      CutSpends(genuine, bucket, needs, cut, cap, j);
    }
  }

  /** A first genuine candidate within the cap is got to after as many checks; one beyond it, never. */
  lemma CutSpends(genuine: Attestation -> bool, bucket: seq<Attestation>, needs: seq<nat>, cut: seq<nat>,
                  cap: nat, j: nat)
    requires |cut| == |needs| && j < |needs| && cap >= 1
    requires forall i :: 0 <= i < |needs| ==> cut[i] == Min(cap, needs[i])
    requires needs[j] == Needed(genuine, bucket)
    ensures var k := FirstGenuine(genuine, bucket);
      && (k < cap ==> Spent(cut, k, j) == Spent(needs, k, j))
      && (k >= cap && k < |bucket| ==> Spent(needs, k, j) >= cap)
  {
    var k := FirstGenuine(genuine, bucket);
    if k < cap {
      SpentCut(needs, cut, cap, k, j);
    } else if k < |bucket| {
      SpentOnOne(needs, k, j, j);
    }
  }

  lemma GroupedAreCandidates(wanted: Attestation -> bool, atts: seq<Attestation>, cap: nat, g: Groups)
    requires Grouped(wanted, atts, cap, g)
    ensures Candidates(g)
  {
    forall id | id in g.buckets ensures g.buckets[id] == Kept(wanted, atts, id, cap) {
      assert Kept(wanted, atts, id, cap) == BucketIn(g, id);
    }
  }

  lemma AdmittedExactly(wanted: Attestation -> bool, genuine: Attestation -> bool, atts: seq<Attestation>, cap: nat,
                        g: Groups, seen: seq<u64>)
    requires Grouped(wanted, atts, cap, g)
    requires forall id :: id in seen ==> id in g.order
    requires forall j :: 0 <= j < |g.order| ==> (g.order[j] in seen <==> WithinReach(genuine, g, cap, j))
    ensures IdSet(seen) == AdmittedIds(wanted, genuine, atts, cap)
  {
    forall j | 0 <= j < |g.order| ensures g.order[j] in seen <==> Reachable(wanted, genuine, atts, cap, j) {
      CutKeepsReach(wanted, genuine, atts, cap, g, j);
    }
    forall id | id in g.order ensures id in seen <==> IsAdmitted(wanted, genuine, atts, cap, id) {
      var j :| 0 <= j < |g.order| && g.order[j] == id;
    }
  }

  /** The whole building phase: exactly who is admitted, on what, and at what cost. */
  method Build(wanted: Attestation -> bool, genuine: Attestation -> bool, atts: seq<Attestation>, cap: nat)
    returns (seen: seq<u64>, admitted: seq<Attestation>, used: nat)
    ensures Distinct(seen) && |seen| == |admitted|
    ensures forall i :: 0 <= i < |seen| ==>
      admitted[i].from == seen[i] && admitted[i] in atts && wanted(admitted[i]) && genuine(admitted[i])
    ensures IdSet(seen) == AdmittedIds(wanted, genuine, atts, cap)
    ensures used == Min(cap, Cost(wanted, genuine, atts))
  {
    var g := GroupCandidates(wanted, atts, cap);
    GroupedAreCandidates(wanted, atts, cap, g);
    seen, admitted, used := Admit(genuine, g, cap);
    if cap >= 1 {
      NeedsAreCut(wanted, genuine, atts, cap, g);
      TotalCut(NeedsOf(wanted, genuine, atts), NeedsIn(genuine, g), cap);
    }
    AdmittedExactly(wanted, genuine, atts, cap, g, seen);
    forall i | 0 <= i < |seen| ensures admitted[i] in atts && wanted(admitted[i]) {
      assert AdmittedAs(genuine, g, admitted[i], seen[i]);
      assert Kept(wanted, atts, seen[i], cap) == BucketIn(g, seen[i]);
    }
  }

  // ---- who is heard, and what it costs ----

  /** A genuine attestation is among the member's first four candidates. */
  predicate Heard(wanted: Attestation -> bool, genuine: Attestation -> bool, atts: seq<Attestation>, id: u64) {
    var bucket := CandidatesOf(wanted, atts, id);
    FirstGenuine(genuine, bucket) < Min(MAX_CANDIDATES_PER_MEMBER, |bucket|)
  }

  lemma SpentWithinFour(needs: seq<nat>, k: nat, j: nat)
    requires k < MAX_CANDIDATES_PER_MEMBER && j < |needs|
    ensures Spent(needs, k, j) < MAX_CANDIDATES_PER_MEMBER * |needs|
  {
    SpentAtMost(needs, k, j);
    assert k * |needs| <= 3 * |needs|;
  }

  /**
   * Four checks for every member with candidates are enough to admit all who are heard, whatever else is in the list.
   */
  lemma HeardAreAdmitted(wanted: Attestation -> bool, genuine: Attestation -> bool, atts: seq<Attestation>, cap: nat,
                         id: u64)
    requires Heard(wanted, genuine, atts, id)
    requires MAX_CANDIDATES_PER_MEMBER * |Order(wanted, atts)| <= cap
    ensures id in AdmittedIds(wanted, genuine, atts, cap)
  {
    var order, bucket := Order(wanted, atts), CandidatesOf(wanted, atts, id);
    assert bucket[0] in bucket;
    assert id in order;
    var j :| 0 <= j < |order| && order[j] == id;
    var k := FirstGenuine(genuine, bucket);
    SpentWithinFour(NeedsOf(wanted, genuine, atts), k, j);
    assert Reachable(wanted, genuine, atts, cap, j);
  }

  /** Candidates count as different when their signers or their signatures are. */
  function DifferentCandidates(wanted: Attestation -> bool, atts: seq<Attestation>): set<(u64, seq<u8>)> {
    set a | a in atts && wanted(a) :: (a.from, a.sig)
  }

  ghost function Image<T, U>(f: T -> U, s: seq<T>): set<U> {
    set x | x in s :: f(x)
  }

  lemma {:induction false} ApartCount<T, U>(f: T -> U, s: seq<T>)
    requires forall i, j :: 0 <= i < j < |s| ==> f(s[i]) != f(s[j])
    ensures |Image(f, s)| == |s|
  {
    if s != [] {
      var init, last := s[..|s| - 1], s[|s| - 1];
      ApartCount(f, init);
      assert s == init + [last];
      assert Image(f, s) == Image(f, init) + {f(last)};
    }
  }

  function SignedAs(): Attestation -> (u64, seq<u8>) {
    (a: Attestation) => (a.from, a.sig)
  }

  ghost function SigsOf(bucket: seq<Attestation>): set<(u64, seq<u8>)> {
    Image(SignedAs(), bucket)
  }

  lemma AddApart<S>(before: set<(u64, S)>, sigs: set<(u64, S)>, ids: seq<u64>, id: u64)
    requires id !in ids && (forall p :: p in before ==> p.0 in ids) && (forall p :: p in sigs ==> p.0 == id)
    ensures |before + sigs| == |before| + |sigs|
  {
    assert before !! sigs;
  }

  ghost function Union<T>(sets: seq<set<T>>): set<T> {
    if sets == [] then {} else Union(sets[..|sets| - 1]) + sets[|sets| - 1]
  }

  lemma {:induction false} UnionIds<S(!new)>(sets: seq<set<(u64, S)>>, ids: seq<u64>)
    requires |sets| == |ids| && forall j :: 0 <= j < |ids| ==> OwnedBy(sets[j], ids[j])
    ensures forall p :: p in Union(sets) ==> p.0 in ids
  {
    if ids != [] {
      var j := |ids| - 1;
      UnionIds(sets[..j], ids[..j]);
      assert ids == ids[..j] + [ids[j]];
      assert Union(sets) == Union(sets[..j]) + sets[j];
      assert OwnedBy(sets[j], ids[j]);
    }
  }

  ghost predicate OwnedBy<S(!new)>(s: set<(u64, S)>, id: u64) {
    forall p :: p in s ==> p.0 == id
  }

  lemma {:induction false} NeedsFit<S(!new)>(needs: seq<nat>, sets: seq<set<(u64, S)>>, ids: seq<u64>)
    requires |needs| == |sets| == |ids| && Distinct(ids)
    requires forall j :: 0 <= j < |ids| ==> needs[j] <= |sets[j]| && OwnedBy(sets[j], ids[j])
    ensures Total(needs) <= |Union(sets)|
  {
    if ids != [] {
      var j := |ids| - 1;
      NeedsFit(needs[..j], sets[..j], ids[..j]);
      UnionIds(sets[..j], ids[..j]);
      assert OwnedBy(sets[j], ids[j]);
      AddApart(Union(sets[..j]), sets[j], ids[..j], ids[j]);
      assert Union(sets) == Union(sets[..j]) + sets[j];
      assert Total(needs) == Total(needs[..j]) + needs[j];
    }
  }

  lemma {:induction false} UnionWithin<T>(sets: seq<set<T>>, all: set<T>)
    requires forall j :: 0 <= j < |sets| ==> sets[j] <= all
    ensures Union(sets) <= all
  {
    if sets != [] {
      UnionWithin(sets[..|sets| - 1], all);
    }
  }

  ghost function SigSets(wanted: Attestation -> bool, atts: seq<Attestation>): (sets: seq<set<(u64, seq<u8>)>>)
    ensures |sets| == |Order(wanted, atts)|
  {
    var order := Order(wanted, atts);
    seq(|order|, j requires 0 <= j < |order| => SigsOf(CandidatesOf(wanted, atts, order[j])))
  }

  lemma SigSetOf(wanted: Attestation -> bool, genuine: Attestation -> bool, atts: seq<Attestation>, j: nat)
    requires j < |Order(wanted, atts)|
    ensures var set' := SigSets(wanted, atts)[j];
      && NeedsOf(wanted, genuine, atts)[j] <= |set'| && OwnedBy(set', Order(wanted, atts)[j])
      && set' <= DifferentCandidates(wanted, atts)
  {
    ApartCount(SignedAs(), CandidatesOf(wanted, atts, Order(wanted, atts)[j]));
  }

  /** The checks of a list never exceed its different candidates. */
  lemma CostIsBounded(wanted: Attestation -> bool, genuine: Attestation -> bool, atts: seq<Attestation>)
    ensures Cost(wanted, genuine, atts) <= |DifferentCandidates(wanted, atts)|
  {
    var order, all, sets := Order(wanted, atts), DifferentCandidates(wanted, atts), SigSets(wanted, atts);
    forall j | 0 <= j < |order|
      ensures NeedsOf(wanted, genuine, atts)[j] <= |sets[j]| && OwnedBy(sets[j], order[j]) && sets[j] <= all
    {
      SigSetOf(wanted, genuine, atts, j);
    }
    NeedsFit(NeedsOf(wanted, genuine, atts), sets, order);
    UnionWithin(sets, all);
    SubsetCount(Union(sets), all);
  }
}
