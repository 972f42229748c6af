/** Lists of validator ids and the sets they stand for. */
module IdSets {
  import opened Bytes

  function IdSet(ids: seq<u64>): set<u64> {
    set id | id in ids
  }

  ghost predicate Distinct<T>(s: seq<T>) {
    forall i, j :: 0 <= i < j < |s| ==> s[i] != s[j]
  }

  lemma {:induction false} DistinctCount(ids: seq<u64>)
    requires Distinct(ids)
    ensures |IdSet(ids)| == |ids|
  {
    if ids != [] {
      var init, last := ids[..|ids| - 1], ids[|ids| - 1];
      DistinctCount(init);
      assert IdSet(ids) == IdSet(init) + {last} by { assert ids == init + [last]; }
      assert last !in IdSet(init);
    }
  }

  lemma {:induction false} CountDistinct(ids: seq<u64>)
    ensures |IdSet(ids)| <= |ids|
    ensures |IdSet(ids)| == |ids| ==> Distinct(ids)
  {
    if ids != [] {
      var init, last := ids[..|ids| - 1], ids[|ids| - 1];
      CountDistinct(init);
      assert IdSet(ids) == IdSet(init) + {last} by { assert ids == init + [last]; }
    } else {
      assert IdSet(ids) == {};
    }
  }

  /** Two lists drawn from a third overlap by what their lengths exceed it. */
  lemma Overlap(whole: set<u64>, a: set<u64>, b: set<u64>)
    requires a <= whole && b <= whole
    ensures |a * b| + |whole| >= |a| + |b|
  {
    var either := a + b;
    assert whole == either + (whole - either);
    assert |either| + |a * b| == |a| + |b|;
  }

  lemma SubsetCount<T>(a: set<T>, b: set<T>)
    requires a <= b
    ensures |a| <= |b|
    ensures |a| == |b| ==> a == b
  {
    assert b == a + (b - a);
  }

  /** A larger set holds something a smaller one does not. */
  lemma Outside(a: set<u64>, b: set<u64>) returns (x: u64)
    requires |a| > |b|
    ensures x in a && x !in b
  {
    if a <= b {
      SubsetCount(a, b);
    }
    x :| x in a && x !in b;
  }
}
