/** Lists of votes: what candidates, needs and costs they have, for any test of which are wanted and which genuine. */
module VoteLists {
  import opened Bytes
  import opened Attestations
  import opened Admission

  lemma OneMore(wanted: Attestation -> bool, atts: seq<Attestation>, a: Attestation, id: u64)
    requires wanted(a)
    ensures var bucket := CandidatesOf(wanted, atts, id);
      CandidatesOf(wanted, atts + [a], id)
      == if a.from == id && (forall held :: held in bucket ==> held.sig != a.sig) then bucket + [a] else bucket
    ensures var order := Order(wanted, atts);
      Order(wanted, atts + [a]) == if a.from in order then order else order + [a.from]
  {
    assert (atts + [a])[..|atts|] == atts;
  }

  /** One member's votes, each with a signature of its own. */
  ghost predicate OwnVotes(wanted: Attestation -> bool, votes: seq<Attestation>, from: u64) {
    && (forall a :: a in votes ==> wanted(a) && a.from == from)
    && forall i, j :: 0 <= i < j < |votes| ==> votes[i].sig != votes[j].sig
  }

  lemma OwnVotesInit(wanted: Attestation -> bool, votes: seq<Attestation>, from: u64)
    requires votes != [] && OwnVotes(wanted, votes, from)
    ensures OwnVotes(wanted, votes[..|votes| - 1], from)
    ensures forall held :: held in votes[..|votes| - 1] ==> held.sig != votes[|votes| - 1].sig
  {
    var init := votes[..|votes| - 1];
    forall held | held in init ensures held in votes && held.sig != votes[|votes| - 1].sig {
      var i :| 0 <= i < |init| && init[i] == held;
      assert votes[i] == held;
    }
    assert forall i :: 0 <= i < |init| ==> init[i] == votes[i];
  }

  lemma SplitLast<T>(a: seq<T>, b: seq<T>)
    requires b != []
    ensures b == b[..|b| - 1] + [b[|b| - 1]] && a + b == (a + b[..|b| - 1]) + [b[|b| - 1]]
    ensures b[|b| - 1] in b
  {
  }

  lemma NoneAdded<T>(a: seq<T>)
    ensures a + [] == a
  {
  }

  /** The votes of a member that had no candidates become its candidates, all of them. */
  lemma {:induction false} VotesJoin(wanted: Attestation -> bool, atts: seq<Attestation>, votes: seq<Attestation>,
                                     from: u64)
    requires OwnVotes(wanted, votes, from) && CandidatesOf(wanted, atts, from) == []
    ensures CandidatesOf(wanted, atts + votes, from) == votes
    decreases |votes|
  {
    if votes == [] {
      NoneAdded(atts);
    } else {
      var init, last := votes[..|votes| - 1], votes[|votes| - 1];
      OwnVotesInit(wanted, votes, from);
      SplitLast(atts, votes);
      VotesJoin(wanted, atts, init, from);
      OneMore(wanted, atts + init, last, from);
    }
  }

  lemma {:induction false} OthersStay(wanted: Attestation -> bool, atts: seq<Attestation>, votes: seq<Attestation>,
                                      from: u64, id: u64)
    requires OwnVotes(wanted, votes, from) && id != from
    ensures CandidatesOf(wanted, atts + votes, id) == CandidatesOf(wanted, atts, id)
    decreases |votes|
  {
    if votes == [] {
      NoneAdded(atts);
    } else {
      OwnVotesInit(wanted, votes, from);
      SplitLast(atts, votes);
      OthersStay(wanted, atts, votes[..|votes| - 1], from, id);
      OneMore(wanted, atts + votes[..|votes| - 1], votes[|votes| - 1], id);
    }
  }

  lemma CandidatesAfter(wanted: Attestation -> bool, atts: seq<Attestation>, votes: seq<Attestation>, from: u64,
                        id: u64)
    requires OwnVotes(wanted, votes, from) && CandidatesOf(wanted, atts, from) == []
    ensures CandidatesOf(wanted, atts + votes, id) == if id == from then votes else CandidatesOf(wanted, atts, id)
  {
    if id == from {
      VotesJoin(wanted, atts, votes, from);
    } else {
      OthersStay(wanted, atts, votes, from, id);
    }
  }

  /** The member comes last in the order. */
  lemma {:induction false} OrderJoins(wanted: Attestation -> bool, atts: seq<Attestation>, votes: seq<Attestation>,
                                      from: u64)
    requires OwnVotes(wanted, votes, from) && from !in Order(wanted, atts)
    ensures Order(wanted, atts + votes) == if votes == [] then Order(wanted, atts) else Order(wanted, atts) + [from]
    decreases |votes|
  {
    if votes == [] {
      NoneAdded(atts);
    } else {
      OwnVotesInit(wanted, votes, from);
      SplitLast(atts, votes);
      OrderJoins(wanted, atts, votes[..|votes| - 1], from);
      OneMore(wanted, atts + votes[..|votes| - 1], votes[|votes| - 1], from);
    }
  }

  function Ids(m: u64): (ids: seq<u64>)
    ensures |ids| == m && forall i :: 0 <= i < m ==> ids[i] == i
  {
    seq(m, i requires 0 <= i < m => i)
  }

  lemma IdsNext(m: u64)
    requires m > 0
    ensures Ids(m) == Ids(m - 1) + [m - 1] && (m - 1) !in Ids(m - 1)
  {
  }

  lemma {:induction false} NoGenuine(genuine: Attestation -> bool, atts: seq<Attestation>)
    requires forall a :: a in atts ==> !genuine(a)
    ensures FirstGenuine(genuine, atts) == |atts|
  {
  }

  lemma {:induction false} GenuineLast(genuine: Attestation -> bool, atts: seq<Attestation>, a: Attestation)
    requires (forall b :: b in atts ==> !genuine(b)) && genuine(a)
    ensures FirstGenuine(genuine, atts + [a]) == |atts|
  {
    assert forall i :: 0 <= i < |atts| ==> (atts + [a])[i] == atts[i] && atts[i] in atts;
    assert (atts + [a])[|atts|] == a;
  }

  // ---- one member's votes alone ----

  lemma VotesAlone(wanted: Attestation -> bool, votes: seq<Attestation>, from: u64)
    requires OwnVotes(wanted, votes, from)
    ensures CandidatesOf(wanted, votes, from) == votes && Order(wanted, votes) == if votes == [] then [] else [from]
  {
    VotesJoin(wanted, [], votes, from);
    OrderJoins(wanted, [], votes, from);
    NoneBefore(votes);
  }

  lemma ForgedNeeds(wanted: Attestation -> bool, genuine: Attestation -> bool, votes: seq<Attestation>, from: u64)
    requires OwnVotes(wanted, votes, from) && forall a :: a in votes ==> !genuine(a)
    ensures NeedsOf(wanted, genuine, votes) == if votes == [] then [] else [|votes|]
  {
    NoGenuine(genuine, votes);
    VotesAlone(wanted, votes, from);
    if votes != [] {
      NeedsOfOne(wanted, genuine, votes, from);
    }
  }

  lemma NeedsOfOne(wanted: Attestation -> bool, genuine: Attestation -> bool, atts: seq<Attestation>, id: u64)
    requires Order(wanted, atts) == [id]
    ensures NeedsOf(wanted, genuine, atts) == [Needed(genuine, CandidatesOf(wanted, atts, id))]
  {
  }

  lemma NoneBefore<T>(a: seq<T>)
    ensures [] + a == a
  {
  }

  /** Forgeries of one member take a check each, and are that many different candidates. */
  lemma ForgedCost(wanted: Attestation -> bool, genuine: Attestation -> bool, votes: seq<Attestation>, from: u64)
    requires OwnVotes(wanted, votes, from) && forall a :: a in votes ==> !genuine(a)
    ensures Cost(wanted, genuine, votes) == |votes| == |DifferentCandidates(wanted, votes)|
  {
    ForgedNeeds(wanted, genuine, votes, from);
    var needs := NeedsOf(wanted, genuine, votes);
    assert votes != [] ==> needs[..0] == [] && Total(needs) == Total(needs[..0]) + needs[0];
    assert DifferentCandidates(wanted, votes) == Image(SignedAs(), votes);
    ApartCount(SignedAs(), votes);
  }

  lemma NobodyAdmitted(wanted: Attestation -> bool, genuine: Attestation -> bool, atts: seq<Attestation>, cap: nat)
    requires forall a :: a in atts ==> !genuine(a)
    ensures AdmittedIds(wanted, genuine, atts, cap) == {}
  {
    forall id ensures FirstGenuine(genuine, CandidatesOf(wanted, atts, id)) == |CandidatesOf(wanted, atts, id)| {
      NoGenuine(genuine, CandidatesOf(wanted, atts, id));
    }
  }

  // ---- a crowd ----

  /** The tries of members 0 to m, one member after the other. */
  function Crowd(tries: u64 -> seq<Attestation>, m: u64): seq<Attestation> {
    if m == 0 then [] else Crowd(tries, m - 1) + tries(m - 1)
  }

  /** Votes of one member, its one genuine vote behind `bad` forgeries. */
  ghost predicate OwnTries(wanted: Attestation -> bool, genuine: Attestation -> bool, votes: seq<Attestation>,
                           bad: nat, id: u64) {
    OwnVotes(wanted, votes, id) && FirstGenuine(genuine, votes) == bad && |votes| == bad + 1
  }

  ghost predicate EachTries(wanted: Attestation -> bool, genuine: Attestation -> bool, tries: u64 -> seq<Attestation>,
                            bad: nat, m: u64) {
    forall id: u64 :: id < m ==> OwnTries(wanted, genuine, tries(id), bad, id)
  }

  /** The list holds the tries of just the first m members, in their order. */
  ghost predicate HoldsTries(wanted: Attestation -> bool, atts: seq<Attestation>, tries: u64 -> seq<Attestation>,
                             m: u64) {
    && Order(wanted, atts) == Ids(m)
    && (forall id: u64 :: id < m ==> CandidatesOf(wanted, atts, id) == tries(id))
    && forall id: u64 :: id >= m ==> CandidatesOf(wanted, atts, id) == []
  }

  lemma NextTries(wanted: Attestation -> bool, atts: seq<Attestation>, votes: seq<Attestation>,
                  tries: u64 -> seq<Attestation>, m: u64)
    requires m >= 1 && HoldsTries(wanted, atts, tries, m - 1)
    requires votes == tries(m - 1) && OwnVotes(wanted, votes, m - 1) && votes != []
    ensures HoldsTries(wanted, atts + votes, tries, m)
  {
    IdsNext(m);
    OrderJoins(wanted, atts, votes, m - 1);
    forall id: u64 ensures CandidatesOf(wanted, atts + votes, id) == if id == m - 1 then votes
      else CandidatesOf(wanted, atts, id) {
      CandidatesAfter(wanted, atts, votes, m - 1, id);
    }
  }

  lemma {:induction false} CrowdHolds(wanted: Attestation -> bool, genuine: Attestation -> bool,
                                      tries: u64 -> seq<Attestation>,
                                      bad: nat, m: u64)
    requires EachTries(wanted, genuine, tries, bad, m)
    ensures HoldsTries(wanted, Crowd(tries, m), tries, m)
    decreases m
  {
    if m != 0 {
      CrowdHolds(wanted, genuine, tries, bad, m - 1);
      assert OwnTries(wanted, genuine, tries(m - 1), bad, m - 1);
      NextTries(wanted, Crowd(tries, m - 1), tries(m - 1), tries, m);
    }
  }

  /** Members 0 to m have candidates, in this order, each with its first genuine one behind `bad` others. */
  ghost predicate Crowded(wanted: Attestation -> bool, genuine: Attestation -> bool, atts: seq<Attestation>, bad: nat,
                          m: u64) {
    && Order(wanted, atts) == Ids(m)
    && forall id: u64 :: id < m ==>
         var bucket := CandidatesOf(wanted, atts, id); FirstGenuine(genuine, bucket) == bad && |bucket| == bad + 1
  }

  lemma CrowdIsCrowded(wanted: Attestation -> bool, genuine: Attestation -> bool, tries: u64 -> seq<Attestation>,
                       bad: nat, m: u64)
    requires EachTries(wanted, genuine, tries, bad, m)
    ensures Crowded(wanted, genuine, Crowd(tries, m), bad, m)
  {
    CrowdHolds(wanted, genuine, tries, bad, m);
    forall id: u64 | id < m
      ensures var bucket := CandidatesOf(wanted, Crowd(tries, m), id);
        FirstGenuine(genuine, bucket) == bad && |bucket| == bad + 1
    {
      assert OwnTries(wanted, genuine, tries(id), bad, id);
    }
  }

  lemma {:induction false} SpentEvenly(needs: seq<nat>, round: nat, n: nat)
    requires forall j :: 0 <= j < |needs| ==> needs[j] == round + 1
    ensures Spent(needs, round, n) == round * |needs| + Min(n, |needs|)
  {
    if needs != [] {
      SpentEvenly(needs[..|needs| - 1], round, n);
      assert round * |needs| == round * (|needs| - 1) + round;
    }
  }

  lemma AllButLast(needs: seq<nat>, round: nat, m: nat)
    requires |needs| == m >= 1 && forall j :: 0 <= j < |needs| ==> needs[j] == round + 1
    ensures Spent(needs, round, m - 1) == (round + 1) * m - 1
  {
    SpentEvenly(needs, round, m - 1);
    assert (round + 1) * m == round * m + m;
  }

  lemma CrowdNeeds(wanted: Attestation -> bool, genuine: Attestation -> bool, atts: seq<Attestation>, bad: nat, m: u64)
    requires Crowded(wanted, genuine, atts, bad, m)
    ensures var needs := NeedsOf(wanted, genuine, atts); |needs| == m && forall j :: 0 <= j < m ==> needs[j] == bad + 1
  {
    forall j: u64 | j < m ensures NeedsOf(wanted, genuine, atts)[j] == bad + 1 {
      assert Order(wanted, atts)[j] == j;
    }
  }

  /** Hearing all of a crowd takes each of its tries: with fewer checks its last member is not admitted. */
  lemma LastIsMissed(wanted: Attestation -> bool, genuine: Attestation -> bool, atts: seq<Attestation>, bad: nat,
                     m: u64, cap: nat)
    requires Crowded(wanted, genuine, atts, bad, m) && m >= 1 && cap < (bad + 1) * m
    ensures (m - 1) !in AdmittedIds(wanted, genuine, atts, cap)
  {
    CrowdNeeds(wanted, genuine, atts, bad, m);
    AllButLast(NeedsOf(wanted, genuine, atts), bad, m);
    assert Order(wanted, atts)[m - 1] == m - 1;
    assert !Reachable(wanted, genuine, atts, cap, m - 1);
  }

  /** With fewer than four forgeries in front, its last member is heard. */
  lemma LastIsHeard(wanted: Attestation -> bool, genuine: Attestation -> bool, atts: seq<Attestation>, bad: nat, m: u64)
    requires Crowded(wanted, genuine, atts, bad, m) && m >= 1 && bad < MAX_CANDIDATES_PER_MEMBER
    ensures Heard(wanted, genuine, atts, m - 1) && exists a :: a in atts && a.from == m - 1
  {
    var bucket := CandidatesOf(wanted, atts, m - 1);
    assert bucket[0] in bucket;
  }
}
