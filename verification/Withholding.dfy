/** How far the least of a list can be steered by leaving entries out. */
module Withholding {
  import opened Wrappers
  import opened IdSets

  /** The first least entry, as the source's `min` and `min_by_key`. */
  function Lowest<T>(leq: (T, T) -> bool, s: seq<T>): (r: Option<T>)
    ensures r.None? <==> s == []
    ensures r.Some? ==> r.value in s
  {
    if s == [] then None
    else
      match Lowest(leq, s[1..])
      case None => Some(s[0])
      case Some(x) => if leq(s[0], x) then Some(s[0]) else Some(x)
  }

  ghost function Elements<T>(s: seq<T>): set<T> {
    set x | x in s
  }

  /** On these entries the order is total and transitive. */
  ghost predicate Ranks<T(!new)>(leq: (T, T) -> bool, all: set<T>) {
    && (forall a, b :: a in all && b in all ==> leq(a, b) || leq(b, a))
    && (forall a, b, c :: a in all && b in all && c in all && leq(a, b) && leq(b, c) ==> leq(a, c))
  }

  /** It also tells different entries apart. */
  ghost predicate Orders<T(!new)>(leq: (T, T) -> bool, all: set<T>) {
    Ranks(leq, all) && forall a, b :: a in all && b in all && leq(a, b) && leq(b, a) ==> a == b
  }

  lemma {:induction false} LowestIsLeast<T(!new)>(leq: (T, T) -> bool, s: seq<T>, all: set<T>)
    requires Ranks(leq, all) && s != [] && Elements(s) <= all
    ensures forall x :: x in s ==> leq(Lowest(leq, s).value, x)
  {
    assert forall x :: x in s ==> x in Elements(s);
    assert leq(s[0], s[0]);
    if s[1..] != [] {
      assert forall x :: x in s[1..] ==> x in s;
      LowestIsLeast(leq, s[1..], all);
      assert Lowest(leq, s[1..]).value in s;
    }
  }

  /** Lists of the same entries, in whatever order and however often, have the same least one. */
  lemma LowestIgnoresOrder<T(!new)>(leq: (T, T) -> bool, s: seq<T>, t: seq<T>)
    requires Orders(leq, Elements(s)) && Elements(s) == Elements(t)
    ensures Lowest(leq, s) == Lowest(leq, t)
  {
    assert forall x :: x in s <==> x in Elements(s);
    assert forall x :: x in t <==> x in Elements(t);
    assert t != [] ==> t[0] in s;
    if s != [] {
      assert s[0] in t;
      LowestIsLeast(leq, s, Elements(s));
      LowestIsLeast(leq, t, Elements(s));
    }
  }

  /** The coalition's entries that rank below every honest one. */
  ghost function Ahead<T(!new)>(leq: (T, T) -> bool, honest: set<T>, coalition: set<T>): set<T> {
    set c | c in coalition && forall x :: x in honest ==> leq(c, x)
  }

  /** The outcomes in a coalition's reach: its entries ahead of every honest one, and the least honest entry. */
  ghost predicate InReach<T(!new)>(leq: (T, T) -> bool, honest: set<T>, coalition: set<T>, x: T) {
    x in Ahead(leq, honest, coalition) || (x in honest && forall y :: y in honest ==> leq(x, y))
  }

  /** Whatever part of its entries a coalition publishes, the outcome is in reach. */
  lemma OutcomeInReach<T(!new)>(leq: (T, T) -> bool, honest: set<T>, coalition: set<T>, published: seq<T>)
    requires Orders(leq, honest + coalition) && honest != {}
    requires honest <= Elements(published) <= honest + coalition
    ensures Lowest(leq, published).Some? && InReach(leq, honest, coalition, Lowest(leq, published).value)
  {
    var h :| h in honest;
    assert h in Elements(published);
    assert h in published;
    LowestIsLeast(leq, published, honest + coalition);
    var least := Lowest(leq, published).value;
    assert least in Elements(published);
    assert forall x :: x in honest ==> x in Elements(published) && x in published;
  }

  /** Every outcome in reach is brought about by some published part. */
  lemma ReachIsAttained<T(!new)>(leq: (T, T) -> bool, honest: set<T>, coalition: set<T>, x: T, published: seq<T>)
    requires Orders(leq, honest + coalition) && honest != {}
    requires InReach(leq, honest, coalition, x) && Elements(published) == honest + {x}
    ensures honest <= Elements(published) <= honest + coalition && Lowest(leq, published) == Some(x)
  {
    assert x in Elements(published);
    assert x in published;
    LowestIsLeast(leq, published, honest + coalition);
    var least := Lowest(leq, published).value;
    assert least in Elements(published);
    assert leq(x, least);
  }

  /** Different outcomes, all in reach, number at most one more than the entries ahead. */
  lemma ReachIsSmall<T(!new)>(leq: (T, T) -> bool, honest: set<T>, coalition: set<T>, outcomes: set<T>)
    requires Orders(leq, honest + coalition)
    requires forall x :: x in outcomes ==> InReach(leq, honest, coalition, x)
    ensures |outcomes| <= |Ahead(leq, honest, coalition)| + 1
  {
    var ahead := Ahead(leq, honest, coalition);
    var rest := outcomes - ahead;
    assert outcomes * ahead <= ahead;
    SubsetCount(outcomes * ahead, ahead);
    assert outcomes == outcomes * ahead + rest;
    assert forall x, y :: x in rest && y in rest ==> x == y;
    AtMostOne(rest);
  }

  lemma AtMostOne<T(!new)>(s: set<T>)
    requires forall x, y :: x in s && y in s ==> x == y
    ensures |s| <= 1
  {
    if s != {} {
      var x :| x in s;
      assert s == {x};
    }
  }

  /** A list of pairwise different results, each the image of an outcome in reach, is no longer than the reach. */
  lemma ResultsAreFew<T(!new), U(!new)>(leq: (T, T) -> bool, honest: set<T>, coalition: set<T>, result: T -> U,
                                        outcomes: seq<T>)
    requires Orders(leq, honest + coalition)
    requires forall i :: 0 <= i < |outcomes| ==> InReach(leq, honest, coalition, outcomes[i])
    requires forall i, j :: 0 <= i < j < |outcomes| ==> result(outcomes[i]) != result(outcomes[j])
    ensures |outcomes| <= |Ahead(leq, honest, coalition)| + 1
  {
    forall i, j | 0 <= i < j < |outcomes| ensures outcomes[i] != outcomes[j] {
      assert result(outcomes[i]) != result(outcomes[j]);
    }
    DistinctSize(outcomes);
    ReachIsSmall(leq, honest, coalition, Elements(outcomes));
  }

  lemma {:induction false} DistinctSize<T>(s: seq<T>)
    requires forall i, j :: 0 <= i < j < |s| ==> s[i] != s[j]
    ensures |Elements(s)| == |s|
  {
    if s != [] {
      var init, last := s[..|s| - 1], s[|s| - 1];
      DistinctSize(init);
      assert Elements(s) == Elements(init) + {last} by { assert s == init + [last]; }
      assert last !in init;
    }
  }
}
