/** Where the equivocation scan stops short: pools it covers, and forgeries that keep it from a proven equivocator. */
module ScanLimits {
  import opened Bytes
  import opened Blocks
  import opened OneTime
  import opened Sortition
  import opened Attestations
  import opened Equivocation
  import opened ScanWalks

  // ---- pools the budget covers ----

  lemma BucketGrows(atts: seq<Attestation>, a: Attestation, key: Key)
    ensures |Bucket(atts + [a], key)| <= |Bucket(atts, key)| + if KeyOf(a) == key then 1 else 0
  {
    assert (atts + [a])[..|atts|] == atts;
  }

  lemma {:induction false} VotesGrow(atts: seq<Attestation>, a: Attestation, keys: seq<Key>, n: nat)
    requires n <= |keys| && forall i, j :: 0 <= i < j < |keys| ==> keys[i] != keys[j]
    ensures VotesUnder(atts + [a], keys, n) <= VotesUnder(atts, keys, n) + if KeyOf(a) in keys[..n] then 1 else 0
  {
    if n > 0 {
      VotesGrow(atts, a, keys, n - 1);
      BucketGrows(atts, a, keys[n - 1]);
      assert keys[..n] == keys[..n - 1] + [keys[n - 1]];
      assert keys[n - 1] !in keys[..n - 1];
    }
  }

  lemma {:induction false} NoVotes(keys: seq<Key>, n: nat)
    requires n <= |keys|
    ensures VotesUnder([], keys, n) == 0
  {
    if n > 0 {
      NoVotes(keys, n - 1);
    }
  }

  lemma {:induction false} FiledOnce(atts: seq<Attestation>, keys: seq<Key>)
    requires forall i, j :: 0 <= i < j < |keys| ==> keys[i] != keys[j]
    ensures VotesUnder(atts, keys, |keys|) <= |atts|
  {
    if atts == [] {
      NoVotes(keys, |keys|);
    } else {
      var init, a := atts[..|atts| - 1], atts[|atts| - 1];
      FiledOnce(init, keys);
      VotesGrow(init, a, keys, |keys|);
      assert atts == init + [a];
    }
  }

  /** The budget covers every pool of at most 2000 votes, so there the scan flags exactly the convicted ids. */
  lemma SmallPoolIsAmple(atts: seq<Attestation>, keys: seq<Key>)
    requires KeysOf(atts, keys) && |atts| <= MAX_EQUIVOCATION_CANDIDATES
    ensures Ample(atts, keys)
  {
    FiledOnce(atts, keys);
  }

  // ---- four forgeries under lower keys ----

  lemma {:induction false} ForgedMonotone(atts: seq<Attestation>, signed: Attestation -> bool, keys: seq<Key>,
                                          n: nat, m: nat, id: u64)
    requires n <= m <= |keys|
    ensures ForgedUnder(atts, signed, keys, n, id) <= ForgedUnder(atts, signed, keys, m, id)
    decreases m
  {
    if n < m {
      ForgedMonotone(atts, signed, keys, n, m - 1, id);
    }
  }

  /** Once four of an id's forgeries are filed below, no later key convicts it, whatever is filed there. */
  lemma FourForgeriesShield(atts: seq<Attestation>, signed: Attestation -> bool, keys: seq<Key>, n: nat, id: u64)
    requires n <= |keys| && !Convicted(atts, signed, keys, n, id)
    requires ForgedUnder(atts, signed, keys, n, id) >= MAX_FAILED_VERIFIES_PER_VALIDATOR
    ensures !Convicted(atts, signed, keys, |keys|, id)
  {
    forall m | 0 <= m < |keys| ensures !ConvictedAt(atts, signed, keys, m, id) {
      if m >= n {
        ForgedMonotone(atts, signed, keys, n, m, id);
      }
    }
  }

  /** Member 7's vote at height 1 for the k-th block, with this signature. */
  function Ballot(view: u64, k: u8, sig: seq<u8>): Attestation {
    var block := Block(1, seq(32, _ => k), Genesis, 0);
    Attestation(7, Subject(1, 0, view, seq(32, _ => 0), block), Credential(0, seq(32, _ => 0), MerklePath([])), sig)
  }

  function BallotKey(view: u64): Key {
    Key(7, 1, view)
  }

  /** The test that only the empty signature passes. */
  function EmptyOnly(): Attestation -> bool {
    (a: Attestation) => a.sig == []
  }

  lemma BallotsDiffer(view: u64, j: u8, k: u8, sig: seq<u8>, other: seq<u8>)
    requires j != k
    ensures Ballot(view, j, sig).subject.block != Ballot(view, k, other).subject.block
    ensures Conflict(Ballot(view, j, sig), Ballot(view, k, other))
  {
    assert Ballot(view, j, sig).subject.block.val[0] == j && Ballot(view, k, other).subject.block.val[0] == k;
  }

  lemma {:induction false} NoneValid(signed: Attestation -> bool, votes: seq<Attestation>)
    requires forall a :: a in votes ==> !signed(a)
    ensures Valid(signed, votes) == 0 && Forged(signed, votes) == |votes|
  {
    if votes != [] {
      NoneValid(signed, votes[..|votes| - 1]);
    }
  }

  lemma NotConvicting(signed: Attestation -> bool, votes: seq<Attestation>, failed: nat)
    requires forall a :: a in votes ==> !signed(a)
    ensures !Convicts(signed, votes, failed)
  {
    forall j | 0 <= j <= |votes| ensures Valid(signed, votes[..j]) == 0 {
      NoneValid(signed, votes[..j]);
    }
  }

  /** Four forgeries in view 0, and two genuine votes for different blocks in view 1. */
  function ShieldedPool(): seq<Attestation> {
    [Ballot(0, 1, [0]), Ballot(0, 2, [0]), Ballot(0, 3, [0]), Ballot(0, 4, [0]), Ballot(1, 1, []), Ballot(1, 2, [])]
  }

  lemma FourFiled(bucket: seq<Attestation>, b1: Block, b2: Block, b3: Block, b4: Block)
    requires HasBlock(bucket, b1) && HasBlock(bucket, b2) && HasBlock(bucket, b3) && HasBlock(bucket, b4)
    requires b1 != b2 && b1 != b3 && b1 != b4 && b2 != b3 && b2 != b4 && b3 != b4
    ensures |bucket| >= 4
  {
    var i1 :| 0 <= i1 < |bucket| && bucket[i1].subject.block == b1;
    var i2 :| 0 <= i2 < |bucket| && bucket[i2].subject.block == b2;
    var i3 :| 0 <= i3 < |bucket| && bucket[i3].subject.block == b3;
    var i4 :| 0 <= i4 < |bucket| && bucket[i4].subject.block == b4;
  }

  lemma BallotFiled(atts: seq<Attestation>, bucket: seq<Attestation>, k: u8)
    requires Filed(atts, BallotKey(0), bucket) && Ballot(0, k, [0]) in atts
    ensures HasBlock(bucket, Ballot(0, k, [0]).subject.block)
  {
  }

  lemma LowBallots(a: Attestation)
    requires a in ShieldedPool() && KeyOf(a) == BallotKey(0)
    ensures a.sig == [0]
  {
  }

  lemma LowBallotsFiled(bucket: seq<Attestation>)
    requires Filed(ShieldedPool(), BallotKey(0), bucket)
    ensures HasBlock(bucket, Ballot(0, 1, [0]).subject.block) && HasBlock(bucket, Ballot(0, 2, [0]).subject.block)
    ensures HasBlock(bucket, Ballot(0, 3, [0]).subject.block) && HasBlock(bucket, Ballot(0, 4, [0]).subject.block)
    ensures forall a :: a in bucket ==> a.sig == [0]
  {
    BallotFiled(ShieldedPool(), bucket, 1);
    BallotFiled(ShieldedPool(), bucket, 2);
    BallotFiled(ShieldedPool(), bucket, 3);
    BallotFiled(ShieldedPool(), bucket, 4);
    forall a | a in bucket ensures a.sig == [0] {
      LowBallots(a);
    }
  }

  lemma LowKeyIsForged()
    ensures var bucket := Bucket(ShieldedPool(), BallotKey(0));
      |bucket| >= 4 && forall a :: a in bucket ==> !EmptyOnly()(a)
  {
    var bucket := Bucket(ShieldedPool(), BallotKey(0));
    BucketFiles(ShieldedPool(), BallotKey(0));
    LowBallotsFiled(bucket);
    BallotsDiffer(0, 1, 2, [0], [0]);
    BallotsDiffer(0, 1, 3, [0], [0]);
    BallotsDiffer(0, 1, 4, [0], [0]);
    BallotsDiffer(0, 2, 3, [0], [0]);
    BallotsDiffer(0, 2, 4, [0], [0]);
    BallotsDiffer(0, 3, 4, [0], [0]);
    FourFiled(bucket, Ballot(0, 1, [0]).subject.block, Ballot(0, 2, [0]).subject.block,
              Ballot(0, 3, [0]).subject.block, Ballot(0, 4, [0]).subject.block);
  }

  lemma ForgedIncludes(atts: seq<Attestation>, signed: Attestation -> bool, keys: seq<Key>, i: nat, m: nat, id: u64)
    requires i < m <= |keys| && keys[i].id == id
    ensures ForgedUnder(atts, signed, keys, m, id) >= Forged(signed, Bucket(atts, keys[i]))
  {
    ForgedMonotone(atts, signed, keys, i + 1, m, id);
  }

  lemma OnlyTwoKeys(key: Key)
    requires |Bucket(ShieldedPool(), key)| >= 2
    ensures key == BallotKey(0) || key == BallotKey(1)
  {
    BucketFiles(ShieldedPool(), key);
    assert Bucket(ShieldedPool(), key)[0] in Bucket(ShieldedPool(), key);
  }

  lemma LowForgeriesShield(atts: seq<Attestation>, signed: Attestation -> bool, keys: seq<Key>, low: nat, id: u64)
    requires low < |keys| && keys[low].id == id && |Bucket(atts, keys[low])| >= MAX_FAILED_VERIFIES_PER_VALIDATOR
    requires forall a :: a in Bucket(atts, keys[low]) ==> !signed(a)
    requires forall m :: 0 <= m < low ==> keys[m].id != id
    ensures !Convicted(atts, signed, keys, |keys|, id)
  {
    NoneValid(signed, Bucket(atts, keys[low]));
    ForgedIncludes(atts, signed, keys, low, low + 1, id);
    NotConvicting(signed, Bucket(atts, keys[low]), ForgedUnder(atts, signed, keys, low, id));
    FourForgeriesShield(atts, signed, keys, low + 1, id);
  }

  lemma LowIsFirst(keys: seq<Key>, low: nat)
    requires KeysOf(ShieldedPool(), keys) && low < |keys| && keys[low] == BallotKey(0)
    ensures low == 0
  {
    if low > 0 {
      assert keys[0] in keys && KeyBelow(keys[0], keys[low]);
      OnlyTwoKeys(keys[0]);
    }
  }

  lemma SixthConflicts()
    ensures Proven(ShieldedPool(), EmptyOnly(), 7)
  {
    var atts := ShieldedPool();
    BallotsDiffer(1, 1, 2, [], []);
    assert atts[4] in atts && atts[5] in atts;
  }

  /** So a proven equivocator goes unflagged: four of its forgeries stand under a lower key. */
  lemma ShieldedInstance(keys: seq<Key>)
    requires KeysOf(ShieldedPool(), keys)
    ensures Proven(ShieldedPool(), EmptyOnly(), 7) && Ample(ShieldedPool(), keys)
    ensures !Convicted(ShieldedPool(), EmptyOnly(), keys, |keys|, 7)
  {
    SixthConflicts();
    SmallPoolIsAmple(ShieldedPool(), keys);
    LowKeyIsForged();
    var low :| 0 <= low < |keys| && keys[low] == BallotKey(0);
    LowIsFirst(keys, low);
    LowForgeriesShield(ShieldedPool(), EmptyOnly(), keys, low, 7);
  }

  // ---- one forgery in front ----

  /** A forgery stands in the pool before the genuine vote for the same block. */
  function ShadowedPool(): seq<Attestation> {
    [Ballot(0, 1, [0]), Ballot(0, 1, []), Ballot(0, 2, [])]
  }

  lemma ShadowedBucket(key: Key)
    ensures Bucket(ShadowedPool(), key) == if key == BallotKey(0) then [Ballot(0, 1, [0]), Ballot(0, 2, [])] else []
  {
    var atts := ShadowedPool();
    var first, second, third := atts[..0], atts[..1], atts[..2];
    BallotsDiffer(0, 1, 2, [0], []);
    assert third[..1] == second && second[..0] == first && atts[..3] == atts;
    assert Bucket(first, key) == [];
    assert Bucket(second, key) == if key == BallotKey(0) then [Ballot(0, 1, [0])] else [];
    assert Bucket(third, key) == Bucket(second, key);
  }

  /**
   * A bucket keeps the first vote for a block, so that one forgery in front leaves a proven equivocator unflagged too.
   */
  lemma ShadowedInstance(keys: seq<Key>)
    requires KeysOf(ShadowedPool(), keys)
    ensures Proven(ShadowedPool(), EmptyOnly(), 7) && Ample(ShadowedPool(), keys)
    ensures !Convicted(ShadowedPool(), EmptyOnly(), keys, |keys|, 7)
  {
    var atts, signed := ShadowedPool(), EmptyOnly();
    BallotsDiffer(0, 1, 2, [], []);
    assert atts[1] in atts && atts[2] in atts;
    SmallPoolIsAmple(atts, keys);
    forall m | 0 <= m < |keys| ensures !ConvictedAt(atts, signed, keys, m, 7) {
      ShadowedBucket(keys[m]);
      OneSigned(signed, Bucket(atts, keys[m]), ForgedUnder(atts, signed, keys, m, 7));
    }
  }

  lemma OneSigned(signed: Attestation -> bool, bucket: seq<Attestation>, failed: nat)
    requires bucket == [] || (|bucket| == 2 && !signed(bucket[0]))
    ensures !Convicts(signed, bucket, failed)
  {
    forall j | 0 <= j <= |bucket| ensures Valid(signed, bucket[..j]) < 2 {
      ValidGrows(signed, bucket[..j], if j == 0 then 0 else 1);
      assert j > 0 ==> bucket[..j][..1] == [bucket[0]] && [bucket[0]][..0] == [];
    }
  }

  // ---- a budget that others spend ----

  lemma {:induction false} ConcatGrows(walk: seq<seq<Attestation>>, n: nat, m: nat)
    requires n <= m <= |walk|
    ensures |Concat(walk[..n])| <= |Concat(walk[..m])|
    decreases m
  {
    if n < m {
      ConcatGrows(walk, n, m - 1);
      assert walk[..m][..m - 1] == walk[..m - 1];
    }
  }

  /** Once the budget is spent, nobody else is found. */
  lemma SpentFindsNobody(atts: seq<Attestation>, known: u64 -> bool, signed: Attestation -> bool,
                         keys: seq<Key>, walk: seq<seq<Attestation>>, n: nat, id: u64)
    requires WalkOf(atts, known, signed, keys, walk) && n <= |walk|
    requires |Concat(walk[..n])| == MAX_EQUIVOCATION_CANDIDATES && !FoundIn(signed, keys, walk[..n], id)
    ensures !FoundIn(signed, keys, walk, id)
  {
    forall i | 0 <= i < |walk| && keys[i].id == id ensures Valid(signed, walk[i]) < 2 {
      if i < n {
        assert walk[..n][i] == walk[i];
      } else {
        ConcatGrows(walk, n, i);
        assert VisitsAt(atts, known, signed, keys, walk, i);
        SpentChecksNothing(known, signed, id, Bucket(atts, keys[i]), Concat(walk[..i]),
                           FoundIn(signed, keys, walk[..i], id), walk[i]);
      }
    }
  }

  lemma SpentChecksNothing(known: u64 -> bool, signed: Attestation -> bool, id: u64, bucket: seq<Attestation>,
                           done: seq<Attestation>, found: bool, votes: seq<Attestation>)
    requires Visits(known, signed, id, bucket, done, found, votes) && |done| >= MAX_EQUIVOCATION_CANDIDATES
    ensures votes == []
  {
    if !found && known(id) {
      WentWithin(signed, bucket, MAX_EQUIVOCATION_CANDIDATES - |done|, Failures(signed, done, id), |votes|);
    }
  }

  /** Votes under one key, for different blocks. */
  ghost predicate OwnBallots(votes: seq<Attestation>, key: Key) {
    && (forall a :: a in votes ==> VotesOnABlock(a.subject.block) && KeyOf(a) == key)
    && forall i, j :: 0 <= i < j < |votes| ==> votes[i].subject.block != votes[j].subject.block
  }

  lemma BucketNext(atts: seq<Attestation>, a: Attestation, key: Key)
    ensures var bucket := Bucket(atts, key);
      Bucket(atts + [a], key)
      == if VotesOnABlock(a.subject.block) && KeyOf(a) == key && !HasBlock(bucket, a.subject.block)
         then bucket + [a] else bucket
  {
    assert (atts + [a])[..|atts|] == atts;
  }

  lemma OwnBallotsInit(votes: seq<Attestation>, key: Key)
    requires votes != [] && OwnBallots(votes, key)
    ensures OwnBallots(votes[..|votes| - 1], key) && !HasBlock(votes[..|votes| - 1], votes[|votes| - 1].subject.block)
  {
    var init := votes[..|votes| - 1];
    forall b | b in init ensures b in votes && b.subject.block != votes[|votes| - 1].subject.block {
      var i :| 0 <= i < |init| && init[i] == b;
      assert votes[i] == b;
    }
    assert forall i :: 0 <= i < |init| ==> init[i] == votes[i];
  }

  /** The votes of a key that had none become its bucket, and no other bucket changes. */
  lemma {:induction false} BallotsJoin(atts: seq<Attestation>, votes: seq<Attestation>, own: Key, key: Key)
    requires OwnBallots(votes, own) && Bucket(atts, own) == []
    ensures Bucket(atts + votes, key) == if key == own then votes else Bucket(atts, key)
    decreases |votes|
  {
    if votes == [] {
      assert atts + votes == atts;
    } else {
      var init, last := votes[..|votes| - 1], votes[|votes| - 1];
      OwnBallotsInit(votes, own);
      assert last in votes && init + [last] == votes;
      BallotsJoin(atts, init, own, key);
      BucketNext(atts + init, last, key);
      Appended(atts, init, last);
    }
  }

  lemma Appended<T>(a: seq<T>, b: seq<T>, x: T)
    ensures a + (b + [x]) == (a + b) + [x]
  {
  }

  /** Member `id`'s vote at height 1 for the k-th block, with this signature. */
  function BallotOf(id: u64, k: u8, sig: seq<u8>): Attestation {
    Ballot(0, k, sig).(from := id)
  }

  function KeyNumber(id: u64): Key {
    Key(id, 1, 0)
  }

  function FourForged(id: u64): seq<Attestation> {
    [BallotOf(id, 1, [0]), BallotOf(id, 2, [0]), BallotOf(id, 3, [0]), BallotOf(id, 4, [0])]
  }

  function TwoGenuine(id: u64): seq<Attestation> {
    [BallotOf(id, 1, []), BallotOf(id, 2, [])]
  }

  /** Four forgeries of each of the first n members. */
  function Flood(n: u64): seq<Attestation> {
    if n == 0 then [] else Flood(n - 1) + FourForged(n - 1)
  }

  /** They take the whole budget; the member behind them has two genuine votes for different blocks. */
  function FloodedPool(): seq<Attestation> {
    Flood(COMMITTEE_BUDGET) + TwoGenuine(COMMITTEE_BUDGET)
  }

  lemma BlocksOf(id: u64, k: u8, sig: seq<u8>)
    ensures BallotOf(id, k, sig).subject.block.val[0] == k && KeyOf(BallotOf(id, k, sig)) == KeyNumber(id)
    ensures VotesOnABlock(BallotOf(id, k, sig).subject.block)
  {
  }

  lemma ForgedAreOwn(id: u64)
    ensures OwnBallots(FourForged(id), KeyNumber(id)) && forall a :: a in FourForged(id) ==> !EmptyOnly()(a)
  {
    BlocksOf(id, 1, [0]);
    BlocksOf(id, 2, [0]);
    BlocksOf(id, 3, [0]);
    BlocksOf(id, 4, [0]);
  }

  lemma GenuineAreOwn(id: u64)
    ensures OwnBallots(TwoGenuine(id), KeyNumber(id))
    ensures Conflict(TwoGenuine(id)[0], TwoGenuine(id)[1])
  {
    BlocksOf(id, 1, []);
    BlocksOf(id, 2, []);
  }

  lemma {:induction false} FloodBuckets(n: u64, key: Key)
    ensures Bucket(Flood(n), key) == if key == KeyNumber(key.id) && key.id < n then FourForged(key.id) else []
    decreases n
  {
    if n != 0 {
      FloodBuckets(n - 1, key);
      FloodBuckets(n - 1, KeyNumber(n - 1));
      ForgedAreOwn(n - 1);
      BallotsJoin(Flood(n - 1), FourForged(n - 1), KeyNumber(n - 1), key);
    }
  }

  lemma PoolBuckets(key: Key)
    ensures key == KeyNumber(key.id) && key.id < COMMITTEE_BUDGET ==> Bucket(FloodedPool(), key) == FourForged(key.id)
    ensures key == KeyNumber(COMMITTEE_BUDGET) ==> Bucket(FloodedPool(), key) == TwoGenuine(COMMITTEE_BUDGET)
    ensures key != KeyNumber(key.id) || key.id > COMMITTEE_BUDGET ==> Bucket(FloodedPool(), key) == []
  {
    FloodBuckets(COMMITTEE_BUDGET, key);
    FloodBuckets(COMMITTEE_BUDGET, KeyNumber(COMMITTEE_BUDGET));
    GenuineAreOwn(COMMITTEE_BUDGET);
    BallotsJoin(Flood(COMMITTEE_BUDGET), TwoGenuine(COMMITTEE_BUDGET), KeyNumber(COMMITTEE_BUDGET), key);
  }

  /** The keys 0 to n, once each, in order. */
  lemma {:induction false} KeysAre(keys: seq<Key>, n: u64, i: u64)
    requires forall key :: key in keys <==> key == KeyNumber(key.id) && key.id < n
    requires forall i, j :: 0 <= i < j < |keys| ==> KeyBelow(keys[i], keys[j])
    ensures |keys| == n && (i < n ==> keys[i] == KeyNumber(i))
    decreases n
  {
    assert keys != [] ==> keys[0] in keys;
    if n != 0 {
      assert KeyNumber(n - 1) in keys;
      var last := |keys| - 1;
      assert keys[last] in keys;
      var j :| 0 <= j < |keys| && keys[j] == KeyNumber(n - 1);
      assert j == last;
      KeysInit(keys, n);
      KeysAre(keys[..last], n - 1, i);
    }
  }

  lemma KeysInit(keys: seq<Key>, n: u64)
    requires keys != [] && n > 0 && keys[|keys| - 1] == KeyNumber(n - 1)
    requires forall key :: key in keys <==> key == KeyNumber(key.id) && key.id < n
    requires forall i, j :: 0 <= i < j < |keys| ==> KeyBelow(keys[i], keys[j])
    ensures forall key :: key in keys[..|keys| - 1] <==> key == KeyNumber(key.id) && key.id < n - 1
  {
    var init := keys[..|keys| - 1];
    assert keys == init + [KeyNumber(n - 1)];
    forall key | key in init ensures key in keys && key != KeyNumber(n - 1) {
      var i :| 0 <= i < |init| && init[i] == key;
      assert keys[i] == key;
    }
  }

  lemma PoolKeys(keys: seq<Key>, i: u64)
    requires KeysOf(FloodedPool(), keys)
    ensures |keys| == COMMITTEE_BUDGET + 1 && (i <= COMMITTEE_BUDGET ==> keys[i] == KeyNumber(i))
  {
    forall key ensures key in keys <==> key == KeyNumber(key.id) && key.id < COMMITTEE_BUDGET + 1 {
      PoolBuckets(key);
    }
    KeysAre(keys, COMMITTEE_BUDGET + 1, i);
  }

  function Everyone(): u64 -> bool {
    (id: u64) => true
  }

  /** A bucket of four forgeries of a member without failures takes four checks. */
  lemma ForgedVisit(id: u64, done: seq<Attestation>, votes: seq<Attestation>)
    requires Visits(Everyone(), EmptyOnly(), id, FourForged(id), done, false, votes)
    requires Failures(EmptyOnly(), done, id) == 0 && |done| + 4 <= MAX_EQUIVOCATION_CANDIDATES
    ensures votes == FourForged(id)
  {
    var bucket, n, budget := FourForged(id), |votes|, MAX_EQUIVOCATION_CANDIDATES - |done|;
    ForgedAreOwn(id);
    forall k | 0 <= k < 4 ensures GoesOn(EmptyOnly(), bucket, budget, 0, k) {
      NoneValid(EmptyOnly(), bucket[..k]);
    }
    assert n == 4 && bucket[..4] == bucket;
  }

  /** So far each member has cost four checks, nobody is found, and the members ahead have no failures. */
  ghost predicate Flooding(walk: seq<seq<Attestation>>) {
    && |Concat(walk)| == 4 * |walk| && (forall id: u64 :: id >= |walk| ==> Failures(EmptyOnly(), Concat(walk), id) == 0)
    && forall i :: 0 <= i < |walk| ==> Valid(EmptyOnly(), walk[i]) == 0
  }

  lemma FloodingNext(walk: seq<seq<Attestation>>, id: u64)
    requires Flooding(walk) && id == |walk| && Concat(walk + [FourForged(id)]) == Concat(walk) + FourForged(id)
    ensures Flooding(walk + [FourForged(id)])
  {
    ForgedAreOwn(id);
    NoneValid(EmptyOnly(), FourForged(id));
    forall other: u64 | other > id ensures Failures(EmptyOnly(), Concat(walk) + FourForged(id), other) == 0 {
      VotesFail(EmptyOnly(), Concat(walk), FourForged(id), id, other);
    }
  }

  lemma {:induction false} FloodWalk(keys: seq<Key>, walk: seq<seq<Attestation>>)
    requires KeysOf(FloodedPool(), keys) && WalkOf(FloodedPool(), Everyone(), EmptyOnly(), keys, walk)
    requires |walk| <= COMMITTEE_BUDGET
    ensures Flooding(walk)
  {
    if walk != [] {
      var n: u64 := |walk| - 1;
      WalkLast(FloodedPool(), Everyone(), EmptyOnly(), keys, walk, n);
      FloodWalk(keys, walk[..n]);
      PoolKeys(keys, n);
      PoolBuckets(KeyNumber(n));
      ForgedVisit(n, Concat(walk[..n]), walk[n]);
      FloodingNext(walk[..n], n);
    }
  }

  /** A budget that others' forgeries spend leaves a proven equivocator unflagged, whose own votes are all genuine. */
  lemma FloodedInstance(keys: seq<Key>, walk: seq<seq<Attestation>>)
    requires KeysOf(FloodedPool(), keys) && |walk| == |keys|
    requires WalkOf(FloodedPool(), Everyone(), EmptyOnly(), keys, walk)
    ensures Proven(FloodedPool(), EmptyOnly(), COMMITTEE_BUDGET)
    ensures !FoundIn(EmptyOnly(), keys, walk, COMMITTEE_BUDGET)
  {
    var n := COMMITTEE_BUDGET;
    PoolKeys(keys, n);
    GenuineAreOwn(n);
    assert TwoGenuine(n)[0] in FloodedPool() && TwoGenuine(n)[1] in FloodedPool();
    WalkInit(FloodedPool(), Everyone(), EmptyOnly(), keys, walk, n);
    FloodWalk(keys, walk[..n]);
    assert !FoundIn(EmptyOnly(), keys, walk[..n], n);
    SpentFindsNobody(FloodedPool(), Everyone(), EmptyOnly(), keys, walk, n, n);
  }
}
