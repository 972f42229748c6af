/**
 * What the budgeted scan for equivocators checks and whom it finds: a pool determines the walk over its buckets, and
 * the walk the ids found.
 */
module ScanWalks {
  import opened Bytes
  import opened IdSets
  import opened Blocks
  import opened Sortition
  import opened Attestations
  import opened Equivocation

  const MAX_EQUIVOCATION_CANDIDATES: nat := 4 * COMMITTEE_BUDGET
  const MAX_FAILED_VERIFIES_PER_VALIDATOR: nat := 4

  datatype Key = Key(id: u64, height: u64, view: u64)

  function KeyOf(a: Attestation): Key {
    Key(a.from, a.subject.height, a.subject.view)
  }

  predicate KeyLeq(a: Key, b: Key) {
    a.id < b.id || (a.id == b.id && (a.height < b.height || (a.height == b.height && a.view <= b.view)))
  }

  /** The votes filed under a key: the first one for each different block. */
  function Bucket(atts: seq<Attestation>, key: Key): seq<Attestation> {
    if atts == [] then []
    else
      var bucket, a := Bucket(atts[..|atts| - 1], key), atts[|atts| - 1];
      if VotesOnABlock(a.subject.block) && KeyOf(a) == key && !HasBlock(bucket, a.subject.block)
      then bucket + [a] else bucket
  }

  predicate HasBlock(bucket: seq<Attestation>, block: Block) {
    exists b :: b in bucket && b.subject.block == block
  }

  ghost predicate Filed(atts: seq<Attestation>, key: Key, bucket: seq<Attestation>) {
    && (forall b :: b in bucket ==> b in atts && VotesOnABlock(b.subject.block) && KeyOf(b) == key)
    && (forall i, j :: 0 <= i < j < |bucket| ==> bucket[i].subject.block != bucket[j].subject.block)
    && (forall a :: a in atts && VotesOnABlock(a.subject.block) && KeyOf(a) == key ==>
        HasBlock(bucket, a.subject.block))
  }

  lemma {:induction false} BucketFiles(atts: seq<Attestation>, key: Key)
    ensures Filed(atts, key, Bucket(atts, key))
  {
    if atts != [] {
      var init, a := atts[..|atts| - 1], atts[|atts| - 1];
      assert atts == init + [a];
      BucketFiles(init, key);
      var bucket, next := Bucket(init, key), Bucket(atts, key);
      forall b | b in atts && VotesOnABlock(b.subject.block) && KeyOf(b) == key
        ensures HasBlock(next, b.subject.block)
      {
        if b in init {
          assert HasBlock(bucket, b.subject.block);
        }
      }
    }
  }

  /** The ids with two votes for different blocks at one height and view. */
  ghost predicate Equivocates(atts: seq<Attestation>, id: u64) {
    exists a, b :: a in atts && b in atts && a.from == id && Conflict(a, b)
  }

  ghost function EquivocatorSet(atts: seq<Attestation>): set<u64> {
    set a | a in atts && Equivocates(atts, a.from) :: a.from
  }

  ghost predicate Proven(atts: seq<Attestation>, signed: Attestation -> bool, id: u64) {
    exists a, b :: a in atts && b in atts && a.from == id && Conflict(a, b) && signed(a) && signed(b)
  }

  lemma BucketOfTwoConflicts(atts: seq<Attestation>, key: Key)
    ensures |Bucket(atts, key)| >= 2 ==> Equivocates(atts, key.id)
  {
    var bucket := Bucket(atts, key);
    BucketFiles(atts, key);
    if |bucket| >= 2 {
      assert bucket[0] in bucket && bucket[1] in bucket;
      assert Conflict(bucket[0], bucket[1]);
    }
  }

  lemma ConflictFillsBucket(atts: seq<Attestation>, id: u64) returns (key: Key)
    requires Equivocates(atts, id)
    ensures key.id == id && |Bucket(atts, key)| >= 2
  {
    var a, b :| a in atts && b in atts && a.from == id && Conflict(a, b);
    key := KeyOf(a);
    BucketFiles(atts, key);
    var bucket := Bucket(atts, key);
    assert HasBlock(bucket, a.subject.block) && HasBlock(bucket, b.subject.block);
  }

  // ---- the budgeted checks ----

  ghost function Failures(signed: Attestation -> bool, checks: seq<Attestation>, id: u64): nat {
    if checks == [] then 0
    else
      var a := checks[|checks| - 1];
      Failures(signed, checks[..|checks| - 1], id)
      + if a.from == id && !signed(a) then 1 else 0
  }

  ghost predicate AllSigned(signed: Attestation -> bool, bucket: seq<Attestation>) {
    forall a :: a in bucket ==> signed(a)
  }

  ghost predicate TwoSigned(signed: Attestation -> bool, bucket: seq<Attestation>) {
    exists i, j :: 0 <= i < j < |bucket| && signed(bucket[i]) && signed(bucket[j])
  }

  /** The votes among these whose signature holds. */
  ghost function Valid(signed: Attestation -> bool, votes: seq<Attestation>): nat {
    if votes == [] then 0
    else Valid(signed, votes[..|votes| - 1]) + if signed(votes[|votes| - 1]) then 1 else 0
  }

  lemma {:induction false} ValidGrows(signed: Attestation -> bool, votes: seq<Attestation>, j: nat)
    requires j <= |votes|
    ensures Valid(signed, votes[..j]) <= Valid(signed, votes) <= Valid(signed, votes[..j]) + |votes| - j
    decreases |votes|
  {
    if j == |votes| {
      assert votes[..j] == votes;
    } else {
      ValidGrows(signed, votes[..|votes| - 1], j);
      assert votes[..|votes| - 1][..j] == votes[..j];
    }
  }

  /** The votes among these whose signature fails. */
  ghost function Forged(signed: Attestation -> bool, votes: seq<Attestation>): nat {
    ValidGrows(signed, votes, 0);
    |votes| - Valid(signed, votes)
  }

  /** The walk over a bucket goes on at vote n: checks are left, fewer than two hold, fewer than four have failed. */
  ghost predicate GoesOn(signed: Attestation -> bool, bucket: seq<Attestation>, budget: nat, failed: nat, n: nat)
    requires n < |bucket|
  {
    && n < budget && Valid(signed, bucket[..n]) < 2
    && failed + Forged(signed, bucket[..n]) < MAX_FAILED_VERIFIES_PER_VALIDATOR
  }

  /** The walk checks the first n votes of the bucket and no more. */
  ghost predicate StopsAt(signed: Attestation -> bool, bucket: seq<Attestation>, budget: nat, failed: nat, n: nat) {
    && WentOn(signed, bucket, budget, failed, n)
    && (n < |bucket| ==> !GoesOn(signed, bucket, budget, failed, n))
  }

  ghost predicate WentOn(signed: Attestation -> bool, bucket: seq<Attestation>, budget: nat, failed: nat, n: nat) {
    n <= |bucket| && forall k :: 0 <= k < n ==> GoesOn(signed, bucket, budget, failed, k)
  }

  lemma WentOnNext(signed: Attestation -> bool, bucket: seq<Attestation>, budget: nat, failed: nat, n: nat)
    requires WentOn(signed, bucket, budget, failed, n) && n < |bucket| && GoesOn(signed, bucket, budget, failed, n)
    ensures WentOn(signed, bucket, budget, failed, n + 1)
  {
  }

  lemma NextVote(signed: Attestation -> bool, bucket: seq<Attestation>, n: nat)
    requires n < |bucket|
    ensures Valid(signed, bucket[..n + 1]) == Valid(signed, bucket[..n]) + if signed(bucket[n]) then 1 else 0
    ensures Forged(signed, bucket[..n + 1]) == Forged(signed, bucket[..n]) + if signed(bucket[n]) then 0 else 1
  {
    assert bucket[..n + 1][..n] == bucket[..n];
  }

  lemma {:induction false} OneValid(signed: Attestation -> bool, votes: seq<Attestation>) returns (i: nat)
    requires Valid(signed, votes) >= 1
    ensures i < |votes| && signed(votes[i])
  {
    var last := |votes| - 1;
    if signed(votes[last]) {
      i := last;
    } else {
      i := OneValid(signed, votes[..last]);
    }
  }

  lemma {:induction false} TwoValid(signed: Attestation -> bool, votes: seq<Attestation>)
    requires Valid(signed, votes) >= 2
    ensures TwoSigned(signed, votes)
  {
    var last := |votes| - 1;
    if signed(votes[last]) {
      var i := OneValid(signed, votes[..last]);
      assert i < last && signed(votes[i]);
    } else {
      TwoValid(signed, votes[..last]);
      var i, j :| 0 <= i < j < last && signed(votes[..last][i]) && signed(votes[..last][j]);
      assert signed(votes[i]) && signed(votes[j]);
    }
  }

  lemma TwoValidIn(signed: Attestation -> bool, bucket: seq<Attestation>, n: nat)
    requires n <= |bucket| && Valid(signed, bucket[..n]) >= 2
    ensures TwoSigned(signed, bucket)
  {
    TwoValid(signed, bucket[..n]);
    var i, j :| 0 <= i < j < n && signed(bucket[..n][i]) && signed(bucket[..n][j]);
    assert signed(bucket[i]) && signed(bucket[j]);
  }

  /** Two of the bucket's votes hold before the signer's fourth failure. */
  ghost predicate Convicts(signed: Attestation -> bool, bucket: seq<Attestation>, failed: nat) {
    exists j :: 0 <= j <= |bucket| && Valid(signed, bucket[..j]) >= 2
                && failed + Forged(signed, bucket[..j]) < MAX_FAILED_VERIFIES_PER_VALIDATOR
  }

  lemma PrefixCounts(signed: Attestation -> bool, bucket: seq<Attestation>, j: nat, n: nat)
    requires j <= n <= |bucket|
    ensures Valid(signed, bucket[..j]) <= Valid(signed, bucket[..n])
    ensures Forged(signed, bucket[..j]) <= Forged(signed, bucket[..n]) <= Forged(signed, bucket)
  {
    ValidGrows(signed, bucket[..n], j);
    ValidGrows(signed, bucket, n);
    assert bucket[..n][..j] == bucket[..j];
  }

  /** Failures are counted up to four. */
  function Capped(failed: nat): nat {
    if failed < MAX_FAILED_VERIFIES_PER_VALIDATOR then failed else MAX_FAILED_VERIFIES_PER_VALIDATOR
  }

  /** With checks enough for the bucket, two hold exactly when it convicts; otherwise its forgeries count up to four. */
  lemma AmpleWalk(signed: Attestation -> bool, bucket: seq<Attestation>, budget: nat, failed: nat, n: nat)
    requires |bucket| <= budget && failed <= MAX_FAILED_VERIFIES_PER_VALIDATOR
    requires StopsAt(signed, bucket, budget, failed, n)
    ensures Valid(signed, bucket[..n]) >= 2 <==> Convicts(signed, bucket, failed)
    ensures !Convicts(signed, bucket, failed) ==>
              Capped(failed + Forged(signed, bucket[..n])) == Capped(failed + Forged(signed, bucket))
  {
    if Valid(signed, bucket[..n]) >= 2 {
      assert GoesOn(signed, bucket, budget, failed, n - 1);
      NextVote(signed, bucket, n - 1);
    } else {
      PrefixCounts(signed, bucket, n, |bucket|);
      assert bucket[..|bucket|] == bucket;
      forall j | 0 <= j <= |bucket| && Valid(signed, bucket[..j]) >= 2
        ensures failed + Forged(signed, bucket[..j]) >= MAX_FAILED_VERIFIES_PER_VALIDATOR
      {
        if j <= n {
          PrefixCounts(signed, bucket, j, n);
        } else {
          PrefixCounts(signed, bucket, n, j);
        }
      }
    }
  }

  // ---- genuine votes ----

  /** Every block vote carries a signature that holds under its signer's known key. */
  ghost predicate AllGenuine(atts: seq<Attestation>, known: u64 -> bool, signed: Attestation -> bool) {
    forall a :: a in atts && VotesOnABlock(a.subject.block) ==>
      known(a.from) && signed(a)
  }

  lemma BucketProves(atts: seq<Attestation>, signed: Attestation -> bool, key: Key)
    requires TwoSigned(signed, Bucket(atts, key))
    ensures Proven(atts, signed, key.id)
  {
    var bucket := Bucket(atts, key);
    BucketFiles(atts, key);
    var i, j :| 0 <= i < j < |bucket| && signed(bucket[i]) && signed(bucket[j]);
    assert bucket[i] in bucket && bucket[j] in bucket;
    assert Conflict(bucket[i], bucket[j]);
  }

  lemma InEquivocatorSet(atts: seq<Attestation>, id: u64)
    ensures id in EquivocatorSet(atts) <==> Equivocates(atts, id)
  {
  }

  // ---- walks: which votes the scan checks under each key ----

  /** The keys with two votes or more, in ascending order. */
  ghost predicate KeysOf(atts: seq<Attestation>, keys: seq<Key>) {
    && (forall key :: key in keys <==> |Bucket(atts, key)| >= 2)
    && forall i, j :: 0 <= i < j < |keys| ==> KeyBelow(keys[i], keys[j])
  }

  /** By id, then height, then view. */
  ghost predicate KeyBelow(a: Key, b: Key) {
    && a.id <= b.id && (a.id == b.id ==> a.height <= b.height)
    && (a.id == b.id && a.height == b.height ==> a.view < b.view)
  }

  /** All checks of a walk, key by key. */
  ghost function Concat(walk: seq<seq<Attestation>>): seq<Attestation> {
    if walk == [] then [] else Concat(walk[..|walk| - 1]) + walk[|walk| - 1]
  }

  /** Two of the votes checked under some key of the id hold. */
  ghost predicate FoundIn(signed: Attestation -> bool, keys: seq<Key>, walk: seq<seq<Attestation>>, id: u64) {
    exists i :: 0 <= i < |walk| && i < |keys| && keys[i].id == id && Valid(signed, walk[i]) >= 2
  }

  /**
   * After these checks, these votes of the bucket are checked: none for an id that is found already or unknown, and
   * otherwise its first ones, until two hold, the budget is spent or the signer has failed four times in all.
   */
  ghost predicate Visits(known: u64 -> bool, signed: Attestation -> bool, id: u64, bucket: seq<Attestation>,
                         done: seq<Attestation>, found: bool, votes: seq<Attestation>)
  {
    if found || !known(id) then votes == []
    else
      && |done| <= MAX_EQUIVOCATION_CANDIDATES && |votes| <= |bucket| && votes == bucket[..|votes|]
      && StopsAt(signed, bucket, MAX_EQUIVOCATION_CANDIDATES - |done|, Failures(signed, done, id), |votes|)
  }

  ghost predicate VisitsAt(atts: seq<Attestation>, known: u64 -> bool, signed: Attestation -> bool,
                           keys: seq<Key>, walk: seq<seq<Attestation>>, n: nat)
    requires n < |walk| && n < |keys|
  {
    Visits(known, signed, keys[n].id, Bucket(atts, keys[n]), Concat(walk[..n]),
           FoundIn(signed, keys, walk[..n], keys[n].id), walk[n])
  }

  /** The votes checked under the first keys, one list a key. */
  ghost predicate WalkOf(atts: seq<Attestation>, known: u64 -> bool, signed: Attestation -> bool,
                         keys: seq<Key>, walk: seq<seq<Attestation>>)
  {
    |walk| <= |keys| && forall n :: 0 <= n < |walk| ==> VisitsAt(atts, known, signed, keys, walk, n)
  }

  lemma StopIsUnique(signed: Attestation -> bool, bucket: seq<Attestation>, budget: nat, failed: nat, n: nat, m: nat)
    requires StopsAt(signed, bucket, budget, failed, n) && StopsAt(signed, bucket, budget, failed, m)
    ensures n == m
  {
  }

  /** The pool and the test determine the walk. */
  lemma {:induction false} WalkIsUnique(atts: seq<Attestation>, known: u64 -> bool, signed: Attestation -> bool,
                                        keys: seq<Key>, walk: seq<seq<Attestation>>, other: seq<seq<Attestation>>)
    requires WalkOf(atts, known, signed, keys, walk) && WalkOf(atts, known, signed, keys, other)
    requires |walk| == |other|
    ensures walk == other
  {
    if walk != [] {
      var n := |walk| - 1;
      WalkLast(atts, known, signed, keys, walk, n);
      WalkLast(atts, known, signed, keys, other, n);
      WalkIsUnique(atts, known, signed, keys, walk[..n], other[..n]);
      VisitIsUnique(known, signed, keys[n].id, Bucket(atts, keys[n]), Concat(walk[..n]),
                    FoundIn(signed, keys, walk[..n], keys[n].id), walk[n], other[n]);
    }
  }

  lemma VisitIsUnique(known: u64 -> bool, signed: Attestation -> bool, id: u64, bucket: seq<Attestation>,
                      done: seq<Attestation>, found: bool, votes: seq<Attestation>, others: seq<Attestation>)
    requires Visits(known, signed, id, bucket, done, found, votes)
    requires Visits(known, signed, id, bucket, done, found, others)
    ensures votes == others
  {
    if !found && known(id) {
      StopIsUnique(signed, bucket, MAX_EQUIVOCATION_CANDIDATES - |done|, Failures(signed, done, id), |votes|, |others|);
    }
  }

  lemma WalkInit(atts: seq<Attestation>, known: u64 -> bool, signed: Attestation -> bool,
                 keys: seq<Key>, walk: seq<seq<Attestation>>, n: nat)
    requires WalkOf(atts, known, signed, keys, walk) && n <= |walk|
    ensures WalkOf(atts, known, signed, keys, walk[..n])
  {
    forall k | 0 <= k < n ensures VisitsAt(atts, known, signed, keys, walk[..n], k) {
      assert VisitsAt(atts, known, signed, keys, walk, k);
      assert walk[..n][..k] == walk[..k];
    }
  }

  /** The last key of a walk, and the walk before it. */
  lemma WalkLast(atts: seq<Attestation>, known: u64 -> bool, signed: Attestation -> bool,
                 keys: seq<Key>, walk: seq<seq<Attestation>>, n: nat)
    requires WalkOf(atts, known, signed, keys, walk) && n + 1 == |walk|
    ensures WalkOf(atts, known, signed, keys, walk[..n]) && walk[..n] + [walk[n]] == walk
    ensures Concat(walk[..n] + [walk[n]]) == Concat(walk[..n]) + walk[n]
    ensures Visits(known, signed, keys[n].id, Bucket(atts, keys[n]), Concat(walk[..n]),
                   FoundIn(signed, keys, walk[..n], keys[n].id), walk[n])
  {
    WalkInit(atts, known, signed, keys, walk, n);
    assert VisitsAt(atts, known, signed, keys, walk, n);
    assert walk[..n] + [walk[n]] == walk;
  }

  /** One key more. */
  lemma WalkNext(atts: seq<Attestation>, known: u64 -> bool, signed: Attestation -> bool,
                 keys: seq<Key>, walk: seq<seq<Attestation>>, votes: seq<Attestation>)
    requires WalkOf(atts, known, signed, keys, walk) && |walk| < |keys|
    requires var key := keys[|walk|];
      Visits(known, signed, key.id, Bucket(atts, key), Concat(walk), FoundIn(signed, keys, walk, key.id), votes)
    ensures WalkOf(atts, known, signed, keys, walk + [votes]) && Concat(walk + [votes]) == Concat(walk) + votes
  {
    var next := walk + [votes];
    assert next[..|walk|] == walk;
    forall k | 0 <= k < |next| ensures VisitsAt(atts, known, signed, keys, next, k) {
      if k < |walk| {
        assert VisitsAt(atts, known, signed, keys, walk, k);
        assert next[..k] == walk[..k];
      }
    }
  }

  lemma FoundNext(signed: Attestation -> bool, keys: seq<Key>, walk: seq<seq<Attestation>>, votes: seq<Attestation>,
                  id: u64)
    requires |walk| < |keys|
    ensures FoundIn(signed, keys, walk + [votes], id)
            <==> FoundIn(signed, keys, walk, id) || (keys[|walk|].id == id && Valid(signed, votes) >= 2)
  {
    var next := walk + [votes];
    if FoundIn(signed, keys, walk, id) {
      var i :| 0 <= i < |walk| && i < |keys| && keys[i].id == id && Valid(signed, walk[i]) >= 2;
      assert next[i] == walk[i];
    }
    assert next[|walk|] == votes;
  }

  /** With the budget spent, nothing is checked under the keys that are left. */
  lemma {:induction false} RestIsIdle(atts: seq<Attestation>, known: u64 -> bool, signed: Attestation -> bool,
                                      keys: seq<Key>, walk: seq<seq<Attestation>>) returns (full: seq<seq<Attestation>>)
    requires WalkOf(atts, known, signed, keys, walk) && |Concat(walk)| == MAX_EQUIVOCATION_CANDIDATES
    ensures WalkOf(atts, known, signed, keys, full) && |full| == |keys| && Concat(full) == Concat(walk)
    ensures forall id :: FoundIn(signed, keys, full, id) <==> FoundIn(signed, keys, walk, id)
    decreases |keys| - |walk|
  {
    if |walk| == |keys| {
      full := walk;
    } else {
      assert Bucket(atts, keys[|walk|])[..0] == [];
      WalkNext(atts, known, signed, keys, walk, []);
      forall id ensures FoundIn(signed, keys, walk + [[]], id) <==> FoundIn(signed, keys, walk, id) {
        FoundNext(signed, keys, walk, [], id);
      }
      full := RestIsIdle(atts, known, signed, keys, walk + [[]]);
    }
  }

  // ---- failures and the budget along a walk ----

  /** Votes of one signer add their forgeries to its failures, and to nobody else's. */
  lemma {:induction false} VotesFail(signed: Attestation -> bool, done: seq<Attestation>, votes: seq<Attestation>,
                                     id: u64, other: u64)
    requires forall a :: a in votes ==> a.from == id
    ensures Failures(signed, done + votes, other)
      == Failures(signed, done, other) + if other == id then Forged(signed, votes) else 0
  {
    if votes == [] {
      assert done + votes == done;
    } else {
      var init, last := votes[..|votes| - 1], votes[|votes| - 1];
      assert last in votes && votes == init + [last];
      VotesFail(signed, done, init, id, other);
      assert (done + votes)[..|done + votes| - 1] == done + init;
    }
  }

  lemma BucketSigners(atts: seq<Attestation>, key: Key)
    ensures forall a :: a in Bucket(atts, key) ==> a.from == key.id
  {
    BucketFiles(atts, key);
  }

  lemma VisitSigners(atts: seq<Attestation>, known: u64 -> bool, signed: Attestation -> bool, key: Key,
                     done: seq<Attestation>, found: bool, votes: seq<Attestation>)
    requires Visits(known, signed, key.id, Bucket(atts, key), done, found, votes)
    ensures forall a :: a in votes ==> a.from == key.id
  {
    BucketSigners(atts, key);
  }

  lemma WentWithin(signed: Attestation -> bool, bucket: seq<Attestation>, budget: nat, failed: nat, n: nat)
    requires WentOn(signed, bucket, budget, failed, n)
    ensures n <= budget
  {
    if n > 0 {
      assert GoesOn(signed, bucket, budget, failed, n - 1);
    }
  }

  /** Neither the budget nor the limit on failures is passed, and no more than two votes hold. */
  lemma StopsWithin(signed: Attestation -> bool, bucket: seq<Attestation>, budget: nat, failed: nat, n: nat)
    requires StopsAt(signed, bucket, budget, failed, n) && failed <= MAX_FAILED_VERIFIES_PER_VALIDATOR
    ensures n <= budget && n <= |bucket| && Valid(signed, bucket[..n]) <= 2
    ensures failed + Forged(signed, bucket[..n]) <= MAX_FAILED_VERIFIES_PER_VALIDATOR
  {
    if n > 0 {
      assert GoesOn(signed, bucket, budget, failed, n - 1);
      NextVote(signed, bucket, n - 1);
    }
  }

  ghost predicate WithinLimits(signed: Attestation -> bool, checks: seq<Attestation>) {
    && |checks| <= MAX_EQUIVOCATION_CANDIDATES
    && forall id :: Failures(signed, checks, id) <= MAX_FAILED_VERIFIES_PER_VALIDATOR
  }

  lemma VisitWithin(atts: seq<Attestation>, known: u64 -> bool, signed: Attestation -> bool, key: Key,
                    done: seq<Attestation>, found: bool, votes: seq<Attestation>)
    requires Visits(known, signed, key.id, Bucket(atts, key), done, found, votes) && WithinLimits(signed, done)
    ensures WithinLimits(signed, done + votes)
  {
    VisitSigners(atts, known, signed, key, done, found, votes);
    if !found && known(key.id) {
      var budget := MAX_EQUIVOCATION_CANDIDATES - |done|;
      StopsWithin(signed, Bucket(atts, key), budget, Failures(signed, done, key.id), |votes|);
    }
    forall id ensures Failures(signed, done + votes, id) <= MAX_FAILED_VERIFIES_PER_VALIDATOR {
      VotesFail(signed, done, votes, key.id, id);
    }
  }

  /** No walk makes more than 2000 checks, or has more than four of an id fail. */
  lemma {:induction false} WalkWithinLimits(atts: seq<Attestation>, known: u64 -> bool, signed: Attestation -> bool,
                                            keys: seq<Key>, walk: seq<seq<Attestation>>)
    requires WalkOf(atts, known, signed, keys, walk)
    ensures WithinLimits(signed, Concat(walk))
  {
    if walk != [] {
      var n := |walk| - 1;
      WalkLast(atts, known, signed, keys, walk, n);
      WalkWithinLimits(atts, known, signed, keys, walk[..n]);
      var found := FoundIn(signed, keys, walk[..n], keys[n].id);
      VisitWithin(atts, known, signed, keys[n], Concat(walk[..n]), found, walk[n]);
    }
  }

  // ---- every pool: what is found is proven ----

  lemma FoundIsProven(atts: seq<Attestation>, known: u64 -> bool, signed: Attestation -> bool,
                      keys: seq<Key>, walk: seq<seq<Attestation>>, id: u64)
    requires WalkOf(atts, known, signed, keys, walk) && FoundIn(signed, keys, walk, id)
    ensures Proven(atts, signed, id)
  {
    var i :| 0 <= i < |walk| && i < |keys| && keys[i].id == id && Valid(signed, walk[i]) >= 2;
    assert VisitsAt(atts, known, signed, keys, walk, i);
    TwoValidIn(signed, Bucket(atts, keys[i]), |walk[i]|);
    BucketProves(atts, signed, keys[i]);
  }

  // ---- genuine pools: every equivocator is found ----

  lemma GenuineKey(atts: seq<Attestation>, known: u64 -> bool, signed: Attestation -> bool, key: Key)
    requires AllGenuine(atts, known, signed) && |Bucket(atts, key)| >= 2
    ensures known(key.id) && AllSigned(signed, Bucket(atts, key))
    ensures key.id in EquivocatorSet(atts)
  {
    BucketFiles(atts, key);
    BucketOfTwoConflicts(atts, key);
    InEquivocatorSet(atts, key.id);
    assert Bucket(atts, key)[0] in Bucket(atts, key);
  }

  ghost predicate Easy(atts: seq<Attestation>, known: u64 -> bool, signed: Attestation -> bool) {
    AllGenuine(atts, known, signed) && 2 * |EquivocatorSet(atts)| <= MAX_EQUIVOCATION_CANDIDATES
  }

  lemma {:induction false} EverySigned(signed: Attestation -> bool, votes: seq<Attestation>)
    requires AllSigned(signed, votes)
    ensures Valid(signed, votes) == |votes|
  {
    if votes != [] {
      EverySigned(signed, votes[..|votes| - 1]);
    }
  }

  /** Genuine votes take two checks, and none fails. */
  lemma EasyVisit(signed: Attestation -> bool, bucket: seq<Attestation>, budget: nat, n: nat)
    requires AllSigned(signed, bucket) && |bucket| >= 2 && budget >= 2 && StopsAt(signed, bucket, budget, 0, n)
    ensures n == 2 && Valid(signed, bucket[..n]) == 2 && Forged(signed, bucket[..n]) == 0
  {
    forall k | 0 <= k <= |bucket| ensures Valid(signed, bucket[..k]) == k {
      EverySigned(signed, bucket[..k]);
    }
    assert GoesOn(signed, bucket, budget, 0, 0) && GoesOn(signed, bucket, budget, 0, 1);
    if |bucket| > 2 {
      assert !GoesOn(signed, bucket, budget, 0, 2);
    }
  }

  /** Two checks were spent on each id found, none failed, and the id of every key passed is found. */
  ghost predicate Thrifty(signed: Attestation -> bool, keys: seq<Key>, walk: seq<seq<Attestation>>, found: set<u64>) {
    |Concat(walk)| == 2 * |found| && NoneFailed(signed, Concat(walk)) && FindsAll(signed, keys, walk, found)
  }

  /** What a visit of a genuine bucket checks: nothing, or two votes that hold. */
  lemma ThriftyVisit(atts: seq<Attestation>, known: u64 -> bool, signed: Attestation -> bool, key: Key,
                     done: seq<Attestation>, found: bool, votes: seq<Attestation>)
    requires AllGenuine(atts, known, signed) && |Bucket(atts, key)| >= 2
    requires Visits(known, signed, key.id, Bucket(atts, key), done, found, votes)
    requires |done| + 2 <= MAX_EQUIVOCATION_CANDIDATES || found
    requires Failures(signed, done, key.id) == 0
    ensures Forged(signed, votes) == 0 && |votes| == (if found then 0 else 2) == Valid(signed, votes)
  {
    hide Bucket, AllGenuine, StopsAt;
    GenuineKey(atts, known, signed, key);
    if !found {
      EasyVisit(signed, Bucket(atts, key), MAX_EQUIVOCATION_CANDIDATES - |done|, |votes|);
    }
  }

  ghost predicate NoneFailed(signed: Attestation -> bool, checks: seq<Attestation>) {
    forall id :: Failures(signed, checks, id) == 0
  }

  lemma NoneFailedNext(signed: Attestation -> bool, done: seq<Attestation>, votes: seq<Attestation>, id: u64)
    requires NoneFailed(signed, done) && Forged(signed, votes) == 0 && forall a :: a in votes ==> a.from == id
    ensures NoneFailed(signed, done + votes)
  {
    forall other ensures Failures(signed, done + votes, other) == 0 {
      VotesFail(signed, done, votes, id, other);
    }
  }

  ghost predicate FindsAll(signed: Attestation -> bool, keys: seq<Key>, walk: seq<seq<Attestation>>, found: set<u64>) {
    && (forall id :: id in found <==> FoundIn(signed, keys, walk, id))
    && |walk| <= |keys| && forall m :: 0 <= m < |walk| ==> keys[m].id in found
  }

  lemma FindsAllNext(signed: Attestation -> bool, keys: seq<Key>, walk: seq<seq<Attestation>>, votes: seq<Attestation>,
                     found: set<u64>)
    requires FindsAll(signed, keys, walk, found) && |walk| < |keys|
    requires keys[|walk|].id in found || Valid(signed, votes) >= 2
    ensures FindsAll(signed, keys, walk + [votes], found + {keys[|walk|].id})
  {
    var next := found + {keys[|walk|].id};
    forall id ensures id in next <==> FoundIn(signed, keys, walk + [votes], id) {
      FoundNext(signed, keys, walk, votes, id);
    }
  }

  /** One more id of a set leaves the count within the set's. */
  lemma AddedCount(found: set<u64>, id: u64, all: set<u64>)
    requires found <= all && id in all
    ensures found + {id} <= all && |found + {id}| == |found| + (if id in found then 0 else 1) <= |all|
  {
    SubsetCount(found + {id}, all);
    if id in found {
      assert found + {id} == found;
    }
  }

  lemma ThriftyNext(atts: seq<Attestation>, known: u64 -> bool, signed: Attestation -> bool, keys: seq<Key>,
                    walk: seq<seq<Attestation>>, votes: seq<Attestation>, found: set<u64>)
    requires Easy(atts, known, signed) && |walk| < |keys| && |Bucket(atts, keys[|walk|])| >= 2
    requires Thrifty(signed, keys, walk, found) && found <= EquivocatorSet(atts)
    requires Concat(walk + [votes]) == Concat(walk) + votes
    requires var key := keys[|walk|];
      Visits(known, signed, key.id, Bucket(atts, key), Concat(walk), FoundIn(signed, keys, walk, key.id), votes)
    ensures var next := found + {keys[|walk|].id};
      Thrifty(signed, keys, walk + [votes], next) && next <= EquivocatorSet(atts)
  {
    var key, done := keys[|walk|], Concat(walk);
    var already := FoundIn(signed, keys, walk, key.id);
    assert already <==> key.id in found;
    GenuineKey(atts, known, signed, key);
    AddedCount(found, key.id, EquivocatorSet(atts));
    ThriftyVisit(atts, known, signed, key, done, already, votes);
    VisitSigners(atts, known, signed, key, done, already, votes);
    NoneFailedNext(signed, done, votes, key.id);
    FindsAllNext(signed, keys, walk, votes, found);
  }

  lemma {:induction false} EasyIsThrifty(atts: seq<Attestation>, known: u64 -> bool, signed: Attestation -> bool,
                                         keys: seq<Key>, walk: seq<seq<Attestation>>) returns (found: set<u64>)
    requires Easy(atts, known, signed) && WalkOf(atts, known, signed, keys, walk)
    requires forall key :: key in keys ==> |Bucket(atts, key)| >= 2
    ensures Thrifty(signed, keys, walk, found) && found <= EquivocatorSet(atts)
  {
    if walk == [] {
      found := {};
    } else {
      var n := |walk| - 1;
      WalkLast(atts, known, signed, keys, walk, n);
      found := EasyIsThrifty(atts, known, signed, keys, walk[..n]);
      assert keys[n] in keys;
      ThriftyNext(atts, known, signed, keys, walk[..n], walk[n], found);
      found := found + {keys[n].id};
    }
  }

  /** When every vote is genuine and at most 1000 ids equivocate, exactly those are found. */
  lemma EasyFindsAll(atts: seq<Attestation>, known: u64 -> bool, signed: Attestation -> bool,
                     keys: seq<Key>, walk: seq<seq<Attestation>>, id: u64)
    requires Easy(atts, known, signed) && KeysOf(atts, keys)
    requires WalkOf(atts, known, signed, keys, walk) && |walk| == |keys|
    ensures FoundIn(signed, keys, walk, id) <==> id in EquivocatorSet(atts)
  {
    var found := EasyIsThrifty(atts, known, signed, keys, walk);
    if id in EquivocatorSet(atts) {
      InEquivocatorSet(atts, id);
      var key := ConflictFillsBucket(atts, id);
      assert key in keys;
      var m :| 0 <= m < |keys| && keys[m] == key;
      assert keys[m].id in found;
    }
  }

  // ---- pools the budget covers: exactly the convicted ids are found ----

  /** The votes filed under the first n keys. */
  ghost function VotesUnder(atts: seq<Attestation>, keys: seq<Key>, n: nat): nat
    requires n <= |keys|
  {
    if n == 0 then 0 else VotesUnder(atts, keys, n - 1) + |Bucket(atts, keys[n - 1])|
  }

  ghost predicate Ample(atts: seq<Attestation>, keys: seq<Key>) {
    VotesUnder(atts, keys, |keys|) <= MAX_EQUIVOCATION_CANDIDATES
  }

  lemma {:induction false} VotesMonotone(atts: seq<Attestation>, keys: seq<Key>, n: nat, m: nat)
    requires n <= m <= |keys|
    ensures VotesUnder(atts, keys, n) <= VotesUnder(atts, keys, m)
    decreases m
  {
    if n < m {
      VotesMonotone(atts, keys, n, m - 1);
    }
  }

  /** The id's forgeries filed under the first n keys. */
  ghost function ForgedUnder(atts: seq<Attestation>, signed: Attestation -> bool, keys: seq<Key>, n: nat, id: u64): nat
    requires n <= |keys|
  {
    if n == 0 then 0
    else ForgedUnder(atts, signed, keys, n - 1, id)
         + if keys[n - 1].id == id then Forged(signed, Bucket(atts, keys[n - 1])) else 0
  }

  /** Under this key two votes hold before the id's fourth failure, counting its forgeries under lower keys. */
  ghost predicate ConvictedAt(atts: seq<Attestation>, signed: Attestation -> bool, keys: seq<Key>, m: nat, id: u64)
    requires m < |keys|
  {
    keys[m].id == id && Convicts(signed, Bucket(atts, keys[m]), ForgedUnder(atts, signed, keys, m, id))
  }

  /** Some key among the first n convicts the id. */
  ghost predicate Convicted(atts: seq<Attestation>, signed: Attestation -> bool, keys: seq<Key>, n: nat, id: u64)
    requires n <= |keys|
  {
    exists m :: 0 <= m < n && ConvictedAt(atts, signed, keys, m, id)
  }

  lemma ConvictedNext(atts: seq<Attestation>, signed: Attestation -> bool, keys: seq<Key>, n: nat, id: u64)
    requires n < |keys|
    ensures Convicted(atts, signed, keys, n + 1, id)
            <==> Convicted(atts, signed, keys, n, id) || ConvictedAt(atts, signed, keys, n, id)
  {
  }

  lemma ConvictsCapped(signed: Attestation -> bool, bucket: seq<Attestation>, failed: nat)
    ensures Convicts(signed, bucket, Capped(failed)) <==> Convicts(signed, bucket, failed)
  {
    if failed >= MAX_FAILED_VERIFIES_PER_VALIDATOR {
      assert !Convicts(signed, bucket, Capped(failed));
    }
  }

  /** So far the found ids are the known convicted ones, and the forgeries of the others are counted. */
  ghost predicate SettledFor(atts: seq<Attestation>, known: u64 -> bool, signed: Attestation -> bool,
                             keys: seq<Key>, walk: seq<seq<Attestation>>, id: u64)
    requires |walk| <= |keys|
  {
    && (FoundIn(signed, keys, walk, id) <==> known(id) && Convicted(atts, signed, keys, |walk|, id))
    && (known(id) && !FoundIn(signed, keys, walk, id) ==>
          Failures(signed, Concat(walk), id) == Capped(ForgedUnder(atts, signed, keys, |walk|, id)))
  }

  /** A covered bucket, whose signer's failures so far are its filed forgeries. */
  lemma CountedWalk(signed: Attestation -> bool, bucket: seq<Attestation>, budget: nat, filed: nat, n: nat)
    requires |bucket| <= budget && StopsAt(signed, bucket, budget, Capped(filed), n)
    ensures Valid(signed, bucket[..n]) >= 2 <==> Convicts(signed, bucket, filed)
    ensures !Convicts(signed, bucket, filed) ==>
      Capped(filed) + Forged(signed, bucket[..n]) == Capped(filed + Forged(signed, bucket))
  {
    ConvictsCapped(signed, bucket, filed);
    StopsWithin(signed, bucket, budget, Capped(filed), n);
    AmpleWalk(signed, bucket, budget, Capped(filed), n);
  }

  lemma SettledOwn(atts: seq<Attestation>, known: u64 -> bool, signed: Attestation -> bool, keys: seq<Key>,
                   walk: seq<seq<Attestation>>, votes: seq<Attestation>, bucket: seq<Attestation>)
    requires |walk| < |keys| && Concat(walk + [votes]) == Concat(walk) + votes && bucket == Bucket(atts, keys[|walk|])
    requires SettledFor(atts, known, signed, keys, walk, keys[|walk|].id)
    requires Visits(known, signed, keys[|walk|].id, bucket, Concat(walk),
                    FoundIn(signed, keys, walk, keys[|walk|].id), votes)
    requires |Concat(walk)| + |bucket| <= MAX_EQUIVOCATION_CANDIDATES
    ensures SettledFor(atts, known, signed, keys, walk + [votes], keys[|walk|].id)
  {
    var n, id := |walk|, keys[|walk|].id;
    FoundNext(signed, keys, walk, votes, id);
    ConvictedNext(atts, signed, keys, n, id);
    if known(id) && !FoundIn(signed, keys, walk, id) {
      VisitSigners(atts, known, signed, keys[n], Concat(walk), false, votes);
      VotesFail(signed, Concat(walk), votes, id, id);
      CountedWalk(signed, bucket, MAX_EQUIVOCATION_CANDIDATES - |Concat(walk)|,
                  ForgedUnder(atts, signed, keys, n, id), |votes|);
    }
  }

  lemma SettledOther(atts: seq<Attestation>, known: u64 -> bool, signed: Attestation -> bool, keys: seq<Key>,
                     walk: seq<seq<Attestation>>, votes: seq<Attestation>, id: u64)
    requires |walk| < |keys| && Concat(walk + [votes]) == Concat(walk) + votes && keys[|walk|].id != id
    requires SettledFor(atts, known, signed, keys, walk, id) && forall a :: a in votes ==> a.from == keys[|walk|].id
    ensures SettledFor(atts, known, signed, keys, walk + [votes], id)
  {
    FoundNext(signed, keys, walk, votes, id);
    ConvictedNext(atts, signed, keys, |walk|, id);
    VotesFail(signed, Concat(walk), votes, keys[|walk|].id, id);
  }

  lemma SettledNext(atts: seq<Attestation>, known: u64 -> bool, signed: Attestation -> bool, keys: seq<Key>,
                    walk: seq<seq<Attestation>>, votes: seq<Attestation>, id: u64)
    requires |walk| < |keys| && Concat(walk + [votes]) == Concat(walk) + votes
    requires SettledFor(atts, known, signed, keys, walk, id)
    requires var key := keys[|walk|];
      Visits(known, signed, key.id, Bucket(atts, key), Concat(walk), FoundIn(signed, keys, walk, key.id), votes)
    requires |Concat(walk)| + |Bucket(atts, keys[|walk|])| <= MAX_EQUIVOCATION_CANDIDATES
    ensures SettledFor(atts, known, signed, keys, walk + [votes], id)
  {
    var key := keys[|walk|];
    if key.id == id {
      SettledOwn(atts, known, signed, keys, walk, votes, Bucket(atts, key));
    } else {
      VisitSigners(atts, known, signed, key, Concat(walk), FoundIn(signed, keys, walk, key.id), votes);
      SettledOther(atts, known, signed, keys, walk, votes, id);
    }
  }

  lemma VisitFits(known: u64 -> bool, signed: Attestation -> bool, id: u64, bucket: seq<Attestation>,
                  done: seq<Attestation>, found: bool, votes: seq<Attestation>)
    requires Visits(known, signed, id, bucket, done, found, votes)
    ensures |votes| <= |bucket|
  {
  }

  /** No more votes are checked than are filed. */
  lemma {:induction false} ChecksAreFiled(atts: seq<Attestation>, known: u64 -> bool, signed: Attestation -> bool,
                                          keys: seq<Key>, walk: seq<seq<Attestation>>)
    requires WalkOf(atts, known, signed, keys, walk)
    ensures |Concat(walk)| <= VotesUnder(atts, keys, |walk|)
  {
    if walk != [] {
      var n := |walk| - 1;
      WalkLast(atts, known, signed, keys, walk, n);
      ChecksAreFiled(atts, known, signed, keys, walk[..n]);
      VisitFits(known, signed, keys[n].id, Bucket(atts, keys[n]), Concat(walk[..n]),
                FoundIn(signed, keys, walk[..n], keys[n].id), walk[n]);
    }
  }

  /** A covered pool: the known ids found are exactly those convicted under some key. */
  lemma {:induction false} AmpleFinds(atts: seq<Attestation>, known: u64 -> bool, signed: Attestation -> bool,
                                      keys: seq<Key>, walk: seq<seq<Attestation>>, id: u64)
    requires Ample(atts, keys) && WalkOf(atts, known, signed, keys, walk)
    ensures SettledFor(atts, known, signed, keys, walk, id)
  {
    if walk != [] {
      var n := |walk| - 1;
      WalkLast(atts, known, signed, keys, walk, n);
      AmpleFinds(atts, known, signed, keys, walk[..n], id);
      ChecksAreFiled(atts, known, signed, keys, walk[..n]);
      VotesMonotone(atts, keys, n + 1, |keys|);
      SettledNext(atts, known, signed, keys, walk[..n], walk[n], id);
    }
  }

  // ---- any pool ----

  /** What the walk over a whole pool means. */
  lemma ScanMeans(atts: seq<Attestation>, known: u64 -> bool, signed: Attestation -> bool,
                  keys: seq<Key>, walk: seq<seq<Attestation>>)
    requires KeysOf(atts, keys) && WalkOf(atts, known, signed, keys, walk) && |walk| == |keys|
    ensures WithinLimits(signed, Concat(walk))
    ensures forall id :: FoundIn(signed, keys, walk, id) ==> Proven(atts, signed, id)
    ensures Easy(atts, known, signed) ==> forall id :: FoundIn(signed, keys, walk, id) <==> id in EquivocatorSet(atts)
    ensures Ample(atts, keys) ==>
              forall id :: FoundIn(signed, keys, walk, id) <==> known(id) && Convicted(atts, signed, keys, |keys|, id)
  {
    WalkWithinLimits(atts, known, signed, keys, walk);
    forall id | FoundIn(signed, keys, walk, id) ensures Proven(atts, signed, id) {
      FoundIsProven(atts, known, signed, keys, walk, id);
    }
    if Easy(atts, known, signed) {
      forall id ensures FoundIn(signed, keys, walk, id) <==> id in EquivocatorSet(atts) {
        EasyFindsAll(atts, known, signed, keys, walk, id);
      }
    }
    if Ample(atts, keys) {
      forall id ensures FoundIn(signed, keys, walk, id) <==> known(id) && Convicted(atts, signed, keys, |keys|, id) {
        AmpleFinds(atts, known, signed, keys, walk, id);
      }
    }
  }
}
