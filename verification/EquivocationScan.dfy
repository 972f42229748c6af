/** The scan of a pool of attestations for equivocators, under a budget of signature checks. */
module EquivocationScan {
  import opened Wrappers
  import opened Bytes
  import opened IdSets
  import opened Blocks
  import opened Attestations
  import opened Certificates
  import opened ScanWalks

  // ---- buckets and keys ----

  /** A bucket under construction: the encodings of its blocks, and its votes. */
  datatype Group = Group(blocks: set<seq<u8>>, votes: seq<Attestation>)

  ghost predicate Encodes(g: Group) {
    forall s :: s in g.blocks <==> exists b :: b in g.votes && s == b.subject.block.ToBytes()
  }

  ghost predicate GroupsOf(groups: map<Key, Group>, atts: seq<Attestation>) {
    && (forall key :: key in groups ==> groups[key].votes == Bucket(atts, key) && Encodes(groups[key]))
    && (forall key :: key !in groups ==> Bucket(atts, key) == [])
  }

  method GroupVotes(atts: seq<Attestation>) returns (groups: map<Key, Group>)
    ensures GroupsOf(groups, atts)
  {
    groups := map[];
    for i := 0 to |atts|
      invariant GroupsOf(groups, atts[..i])
    {
      var a := atts[i];
      assert atts[..i + 1][..i] == atts[..i];
      if VotesOnABlock(a.subject.block) {
        var key := KeyOf(a);
        var g := if key in groups then groups[key] else Group({}, []);
        var bytes := a.subject.block.ToBytes();
        assert bytes in g.blocks <==> HasBlock(g.votes, a.subject.block) by {
          forall b | b in g.votes && b.subject.block.ToBytes() == bytes ensures b.subject.block == a.subject.block {
            ToBytesInjective(b.subject.block, a.subject.block);
          }
        }
        if bytes !in g.blocks {
          g := ExtendGroup(g, a);
        }
        groups := groups[key := g];
      }
    }
    assert atts[..|atts|] == atts;
  }

  function ExtendGroup(g: Group, a: Attestation): (r: Group)
    ensures r.votes == g.votes + [a]
    ensures Encodes(g) ==> Encodes(r)
  {
    var r := Group(g.blocks + {a.subject.block.ToBytes()}, g.votes + [a]);
    assert forall b :: b in r.votes <==> b == a || b in g.votes;
    r
  }

  lemma {:induction false} LeastKey(keys: set<Key>) returns (least: Key)
    requires keys != {}
    ensures least in keys && forall k :: k in keys ==> KeyLeq(least, k)
    decreases keys
  {
    least :| least in keys;
    var rest := keys - {least};
    if rest != {} {
      var other := LeastKey(rest);
      forall k | k in keys ensures k == least || KeyLeq(other, k) {
        assert k == least || k in rest;
      }
      if KeyLeq(other, least) { least := other; }
    } else {
      assert forall k :: k in keys ==> k == least by {
        assert forall k :: k in keys && k != least ==> k in rest;
      }
    }
  }

  /** The keys in ascending order. */
  method SortKeys(keys: set<Key>) returns (sorted: seq<Key>)
    ensures forall k :: k in sorted <==> k in keys
    ensures forall i, j :: 0 <= i < j < |sorted| ==> KeyBelow(sorted[i], sorted[j])
  {
    sorted := [];
    var rest := keys;
    while rest != {}
      invariant forall k :: k in keys <==> k in sorted || k in rest
      invariant forall k, j :: k in rest && 0 <= j < |sorted| ==> KeyLeq(sorted[j], k) && sorted[j] != k
      invariant forall i, j :: 0 <= i < j < |sorted| ==> KeyLeq(sorted[i], sorted[j]) && sorted[i] != sorted[j]
      decreases rest
    {
      ghost var witness' := LeastKey(rest);
      var k :| k in rest && forall j :: j in rest ==> KeyLeq(k, j);
      sorted, rest := sorted + [k], rest - {k};
    }
  }

  /** The ids of the pool in ascending order; they arrive without repeats. */
  function SortIds(ids: seq<u64>): (r: seq<u64>)
    ensures IdSet(r) == IdSet(ids)
  {
    if ids == [] then []
    else
      assert ids == [ids[0]] + ids[1..];
      var r := InsertId(ids[0], SortIds(ids[1..]));
      assert forall x :: x in r <==> x == ids[0] || x in IdSet(SortIds(ids[1..]));
      r
  }

  lemma {:induction false} SortIdsAscends(ids: seq<u64>)
    ensures AscendingIds(SortIds(ids))
  {
    if ids != [] {
      SortIdsAscends(ids[1..]);
      InsertIdAscends(ids[0], SortIds(ids[1..]));
    }
  }

  // ---- one bucket ----

  /** The first n votes of the bucket joined the checks, and the failures of their signer are counted. */
  ghost predicate Walked(signed: Attestation -> bool, id: u64, votes: seq<Attestation>, failed: nat, failures: nat,
                         done: seq<Attestation>, checks: seq<Attestation>)
  {
    && checks == done + votes
    && failures == failed + Forged(signed, votes) == Failures(signed, checks, id)
    && forall other :: other != id ==> Failures(signed, checks, other) == Failures(signed, done, other)
  }

  lemma WalkedNext(signed: Attestation -> bool, id: u64, bucket: seq<Attestation>, n: nat, failed: nat, failures: nat,
                   done: seq<Attestation>, checks: seq<Attestation>)
    requires n < |bucket| && bucket[n].from == id
    requires Walked(signed, id, bucket[..n], failed, failures, done, checks)
    ensures Walked(signed, id, bucket[..n + 1], failed, failures + if signed(bucket[n]) then 0 else 1,
                   done, checks + [bucket[n]])
  {
    NextVote(signed, bucket, n);
    assert (checks + [bucket[n]])[..|checks|] == checks;
    assert checks + [bucket[n]] == done + bucket[..n + 1];
  }

  /** Checks signatures of one bucket until two hold, the budget is spent or its signer has failed four times. */
  method CheckBucket(signed: Attestation -> bool, id: u64, bucket: seq<Attestation>,
                     budget: nat, failed: nat, ghost done: seq<Attestation>)
    returns (valid: nat, left: nat, failures: nat, ghost checks: seq<Attestation>)
    requires forall a :: a in bucket ==> a.from == id
    requires failed == Failures(signed, done, id) <= MAX_FAILED_VERIFIES_PER_VALIDATOR
    ensures left <= budget && StopsAt(signed, bucket, budget, failed, budget - left)
    ensures valid == Valid(signed, bucket[..budget - left]) <= 2
    ensures failures <= MAX_FAILED_VERIFIES_PER_VALIDATOR
    ensures Walked(signed, id, bucket[..budget - left], failed, failures, done, checks)
  {
    valid, left, failures, checks := 0, budget, failed, done;
    assert bucket[..0] == [] && done + [] == done;
    for i := 0 to |bucket|
      invariant left + i == budget
      invariant WentOn(signed, bucket, budget, failed, i)
      invariant valid == Valid(signed, bucket[..i]) <= 2
      invariant failures <= MAX_FAILED_VERIFIES_PER_VALIDATOR
      invariant Walked(signed, id, bucket[..i], failed, failures, done, checks)
    {
      if left == 0 || valid == 2 || failures >= MAX_FAILED_VERIFIES_PER_VALIDATOR {
        break;
      }
      WentOnNext(signed, bucket, budget, failed, i);
      left := left - 1;
      var a := bucket[i];
      assert a in bucket;
      NextVote(signed, bucket, i);
      WalkedNext(signed, id, bucket, i, failed, failures, done, checks);
      checks := checks + [a];
      if signed(a) {
        valid := valid + 1;
      } else {
        failures := failures + 1;
      }
    }
  }

  // ---- the scan ----

  /** The scan's working state: checks left, failed checks by id, ids found. */
  datatype Tally = Tally(budget: nat, failures: map<u64, nat>, found: seq<u64>) {
    function Failed(id: u64): nat {
      if id in failures then failures[id] else 0
    }
  }

  /** The tally after these checks. */
  ghost predicate Counts(signed: Attestation -> bool, t: Tally, checks: seq<Attestation>) {
    && |checks| + t.budget == MAX_EQUIVOCATION_CANDIDATES
    && forall id :: Failures(signed, checks, id) == t.Failed(id) <= MAX_FAILED_VERIFIES_PER_VALIDATOR
  }

  lemma CountsAfter(signed: Attestation -> bool, t: Tally, done: seq<Attestation>,
                    id: u64, r: Tally, failures: nat, checks: seq<Attestation>)
    requires Counts(signed, t, done)
    requires r.budget <= t.budget && r.failures == t.failures[id := failures]
      && |checks| == |done| + t.budget - r.budget
    requires failures == Failures(signed, checks, id) <= MAX_FAILED_VERIFIES_PER_VALIDATOR
    requires forall other :: other != id ==> Failures(signed, checks, other) == Failures(signed, done, other)
    ensures Counts(signed, r, checks)
  {
    forall other ensures Failures(signed, checks, other) == r.Failed(other) <= MAX_FAILED_VERIFIES_PER_VALIDATOR {
      assert Failures(signed, done, other) == t.Failed(other) <= MAX_FAILED_VERIFIES_PER_VALIDATOR;
    }
  }

  method VisitKey(known: u64 -> bool, signed: Attestation -> bool,
                  key: Key, bucket: seq<Attestation>, t: Tally, ghost done: seq<Attestation>)
    returns (r: Tally, ghost votes: seq<Attestation>)
    requires forall a :: a in bucket ==> a.from == key.id
    requires Counts(signed, t, done)
    ensures Counts(signed, r, done + votes)
    ensures Visits(known, signed, key.id, bucket, done, key.id in t.found, votes)
    ensures r.found == if Valid(signed, votes) >= 2 then t.found + [key.id] else t.found
  {
    var failed := t.Failed(key.id);
    assert Failures(signed, done, key.id) == failed;
    if key.id in t.found || failed >= MAX_FAILED_VERIFIES_PER_VALIDATOR || !known(key.id) {
      r, votes := t, [];
      assert done + [] == done && bucket[..0] == [];
      return;
    }
    var valid, left, failures;
    ghost var checks;
    valid, left, failures, checks := CheckBucket(signed, key.id, bucket, t.budget, failed, done);
    votes := bucket[..t.budget - left];
    var found := if valid == 2 then t.found + [key.id] else t.found;
    r := Tally(left, t.failures[key.id := failures], found);
    CountsAfter(signed, t, done, key.id, r, failures, checks);
  }

  ghost predicate Buckets(groups: map<Key, Group>, atts: seq<Attestation>, keys: seq<Key>) {
    forall i :: 0 <= i < |keys| ==> HoldsBucket(groups, atts, keys[i])
  }

  ghost predicate HoldsBucket(groups: map<Key, Group>, atts: seq<Attestation>, key: Key) {
    key in groups && groups[key].votes == Bucket(atts, key)
  }

  /** The ids found are those the walk finds, each once. */
  ghost predicate FoundAs(signed: Attestation -> bool, keys: seq<Key>, walk: seq<seq<Attestation>>, found: seq<u64>) {
    Distinct(found) && forall id :: id in found <==> FoundIn(signed, keys, walk, id)
  }

  lemma FoundAsNext(signed: Attestation -> bool, keys: seq<Key>, walk: seq<seq<Attestation>>, votes: seq<Attestation>,
                    found: seq<u64>, next: seq<u64>)
    requires |walk| < |keys| && FoundAs(signed, keys, walk, found)
    requires FoundIn(signed, keys, walk, keys[|walk|].id) ==> votes == []
    requires next == if Valid(signed, votes) >= 2 then found + [keys[|walk|].id] else found
    ensures FoundAs(signed, keys, walk + [votes], next)
  {
    forall id ensures id in next <==> FoundIn(signed, keys, walk + [votes], id) {
      FoundNext(signed, keys, walk, votes, id);
    }
  }

  /** The loop over the keys: it walks the whole pool. */
  method ScanKeys(ghost atts: seq<Attestation>, known: u64 -> bool, signed: Attestation -> bool,
                  keys: seq<Key>, groups: map<Key, Group>)
    returns (t: Tally, ghost walk: seq<seq<Attestation>>)
    requires Buckets(groups, atts, keys)
    ensures WalkOf(atts, known, signed, keys, walk) && |walk| == |keys|
    ensures Counts(signed, t, Concat(walk)) && FoundAs(signed, keys, walk, t.found)
  {
    t, walk := Tally(MAX_EQUIVOCATION_CANDIDATES, map[], []), [];
    for n := 0 to |keys|
      invariant |walk| == n && WalkOf(atts, known, signed, keys, walk)
      invariant Counts(signed, t, Concat(walk)) && FoundAs(signed, keys, walk, t.found)
    {
      if t.budget == 0 {
        walk := RestIsIdle(atts, known, signed, keys, walk);
        return;
      }
      var key := keys[n];
      ghost var before, votes := t.found, [];
      BucketSigners(atts, key);
      t, votes := VisitKey(known, signed, key, groups[key].votes, t, Concat(walk));
      WalkNext(atts, known, signed, keys, walk, votes);
      FoundAsNext(signed, keys, walk, votes, before, t.found);
      walk := walk + [votes];
    }
  }

  /**
   * Flags exactly the ids found on the walk that the pool determines, which makes these checks and no others: never
   * more than 2000, or four of an id that fail. So it flags only ids proven by two genuine votes; when every vote is
   * genuine and at most 1000 ids equivocate, exactly those; and when the budget covers the filed votes, forgeries or
   * not, exactly the known ids convicted under some key.
   */
  method ScanForEquivocators(atts: seq<Attestation>, known: u64 -> bool, signed: Attestation -> bool)
    returns (flagged: seq<u64>, ghost checks: seq<Attestation>, ghost keys: seq<Key>, ghost walk: seq<seq<Attestation>>)
    ensures KeysOf(atts, keys) && WalkOf(atts, known, signed, keys, walk) && |walk| == |keys|
    ensures checks == Concat(walk)
    ensures AscendingIds(flagged) && forall id :: id in flagged <==> FoundIn(signed, keys, walk, id)
    ensures forall id :: id in flagged ==> Proven(atts, signed, id)
    ensures |checks| <= MAX_EQUIVOCATION_CANDIDATES
    ensures forall id :: Failures(signed, checks, id) <= MAX_FAILED_VERIFIES_PER_VALIDATOR
    ensures Easy(atts, known, signed) ==> IdSet(flagged) == EquivocatorSet(atts)
    ensures Ample(atts, keys) ==>
              forall id :: id in flagged <==> known(id) && Convicted(atts, signed, keys, |keys|, id)
  {
    var groups := GroupVotes(atts);
    var sorted := SortKeys(set key | key in groups && |groups[key].votes| >= 2);
    forall i | 0 <= i < |sorted| ensures HoldsBucket(groups, atts, sorted[i]) {
      assert sorted[i] in sorted;
    }
    var t;
    t, walk := ScanKeys(atts, known, signed, sorted, groups);
    keys, checks := sorted, Concat(walk);
    SortIdsAscends(t.found);
    flagged := SortIds(t.found);
    assert forall id :: id in flagged <==> id in IdSet(flagged);
    ScanMeans(atts, known, signed, keys, walk);
  }

  /** The signature of `a` holds under the key that `keyOf` gives for its signer. */
  predicate SignedUnder(crypto: Crypto, chain: ChainBinding, keyOf: u64 -> Option<PublicKey>, a: Attestation) {
    keyOf(a.from).Some? && SignatureVerifies(crypto, chain, a, keyOf(a.from).value)
  }

  function Known(keyOf: u64 -> Option<PublicKey>): u64 -> bool {
    (id: u64) => keyOf(id).Some?
  }

  function Signed(crypto: Crypto, chain: ChainBinding, keyOf: u64 -> Option<PublicKey>): Attestation -> bool {
    a => SignedUnder(crypto, chain, keyOf, a)
  }

  method Equivocators(crypto: Crypto, chain: ChainBinding, atts: seq<Attestation>, keyOf: u64 -> Option<PublicKey>)
    returns (flagged: seq<u64>, ghost checks: seq<Attestation>, ghost keys: seq<Key>, ghost walk: seq<seq<Attestation>>)
    ensures KeysOf(atts, keys) && |walk| == |keys|
    ensures WalkOf(atts, Known(keyOf), Signed(crypto, chain, keyOf), keys, walk) && checks == Concat(walk)
    ensures AscendingIds(flagged)
    ensures forall id :: id in flagged <==> FoundIn(Signed(crypto, chain, keyOf), keys, walk, id)
    ensures forall id :: id in flagged ==> Proven(atts, Signed(crypto, chain, keyOf), id)
    ensures |checks| <= MAX_EQUIVOCATION_CANDIDATES
    ensures forall id :: Failures(Signed(crypto, chain, keyOf), checks, id) <= MAX_FAILED_VERIFIES_PER_VALIDATOR
    ensures Easy(atts, Known(keyOf), Signed(crypto, chain, keyOf)) ==> IdSet(flagged) == EquivocatorSet(atts)
    ensures Ample(atts, keys) ==>
              forall id :: id in flagged <==>
                keyOf(id).Some? && Convicted(atts, Signed(crypto, chain, keyOf), keys, |keys|, id)
  {
    flagged, checks, keys, walk := ScanForEquivocators(atts, Known(keyOf), Signed(crypto, chain, keyOf));
  }
}
