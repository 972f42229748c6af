/** The randomness beacon: how a slot's reveals move it on, and how little withholding reveals can steer it. */
module Beacon {
  import opened Wrappers
  import opened Bytes
  import opened OneTime
  import opened Withholding

  datatype Reveal = Reveal(holder: u64, preimage: Bytes32)

  // ---- reveals bound to their holders ----

  function PickInput(seed: Bytes32, slot: u64, r: Reveal): seq<u8> {
    Ascii("QORUS/beacon/bound-pick/v1") + LittleEndian(r.holder, 8) + r.preimage + seed + LittleEndian(slot, 8)
  }

  function BoundPick(h: Hashing, seed: Bytes32, slot: u64, r: Reveal): Bytes32 {
    h.shake(PickInput(seed, slot, r))
  }

  /** Lower pick first, then lower holder. */
  predicate PickLeq(h: Hashing, seed: Bytes32, slot: u64, a: Reveal, b: Reveal) {
    var x, y := BoundPick(h, seed, slot, a), BoundPick(h, seed, slot, b);
    (x == y && a.holder <= b.holder) || (x != y && LexLeq(x, y))
  }

  function ByPick(h: Hashing, seed: Bytes32, slot: u64): (Reveal, Reveal) -> bool {
    (a, b) => PickLeq(h, seed, slot, a, b)
  }

  function ChoiceBytes(chosen: Option<Reveal>): (s: seq<u8>)
    ensures |s| == if chosen.Some? then 48 else 8
  {
    match chosen
    case Some(r) => LittleEndian(1, 8) + LittleEndian(r.holder, 8) + r.preimage
    case None => LittleEndian(0, 8)
  }

  function BoundInput(seed: Bytes32, slot: u64, chosen: Option<Reveal>): seq<u8> {
    seed + Ascii("QORUS/beacon/bound-reveals/v1") + LittleEndian(slot, 8) + ChoiceBytes(chosen)
  }

  function AdvanceFromBoundReveals(h: Hashing, seed: Bytes32, slot: u64, published: seq<Reveal>): Bytes32 {
    h.shake(BoundInput(seed, slot, Chosen(h, seed, slot, published)))
  }

  ghost predicate OneEach(all: set<Reveal>) {
    forall a, b :: a in all && b in all && a.holder == b.holder ==> a == b
  }

  lemma PicksRank(h: Hashing, seed: Bytes32, slot: u64, all: set<Reveal>)
    ensures Ranks(ByPick(h, seed, slot), all)
  {
    var leq := ByPick(h, seed, slot);
    forall a, b | a in all && b in all ensures leq(a, b) || leq(b, a) {
      LexTotal(BoundPick(h, seed, slot, a), BoundPick(h, seed, slot, b));
    }
    forall a, b, c | a in all && b in all && c in all && leq(a, b) && leq(b, c) ensures leq(a, c) {
      var x, y, z := BoundPick(h, seed, slot, a), BoundPick(h, seed, slot, b), BoundPick(h, seed, slot, c);
      if x != y && y != z {
        LexTransitive(x, y, z);
        if x == z { LexAntisymmetric(x, y); }
      }
    }
  }

  lemma PicksOrder(h: Hashing, seed: Bytes32, slot: u64, all: set<Reveal>)
    requires OneEach(all)
    ensures Orders(ByPick(h, seed, slot), all)
  {
    var leq := ByPick(h, seed, slot);
    PicksRank(h, seed, slot, all);
    forall a, b | a in all && b in all && leq(a, b) && leq(b, a) ensures a == b {
      var x, y := BoundPick(h, seed, slot, a), BoundPick(h, seed, slot, b);
      if x != y { LexAntisymmetric(x, y); }
    }
  }

  /** The reveal a slot's publication chooses. */
  function Chosen(h: Hashing, seed: Bytes32, slot: u64, published: seq<Reveal>): Option<Reveal> {
    Lowest(ByPick(h, seed, slot), published)
  }

  /** The chosen reveal has the lowest hash of holder and preimage for this seed and slot, then the lowest holder. */
  lemma ChosenIsLowest(h: Hashing, seed: Bytes32, slot: u64, published: seq<Reveal>, r: Reveal)
    requires r in published
    ensures Chosen(h, seed, slot, published).Some? && Chosen(h, seed, slot, published).value in published
    ensures var c := Chosen(h, seed, slot, published).value;
      var x, y := h.shake(PickInput(seed, slot, c)), h.shake(PickInput(seed, slot, r));
      (x == y && c.holder <= r.holder) || exists k :: LowerAt(x, y, k)
  {
    var leq := ByPick(h, seed, slot);
    PicksRank(h, seed, slot, Elements(published));
    LowestIsLeast(leq, published, Elements(published));
    var c := Chosen(h, seed, slot, published).value;
    assert leq(c, r);
    LexExactly(BoundPick(h, seed, slot, c), BoundPick(h, seed, slot, r));
  }

  /** The next seed does not depend on the order reveals arrive in. */
  lemma BoundIgnoresOrder(h: Hashing, seed: Bytes32, slot: u64, s: seq<Reveal>, t: seq<Reveal>)
    requires OneEach(Elements(s)) && Elements(s) == Elements(t)
    ensures AdvanceFromBoundReveals(h, seed, slot, s) == AdvanceFromBoundReveals(h, seed, slot, t)
  {
    PicksOrder(h, seed, slot, Elements(s));
    LowestIgnoresOrder(ByPick(h, seed, slot), s, t);
  }

  /** All honest reveals are published, with some part of the coalition's. */
  ghost predicate Publishes(honest: set<Reveal>, coalition: set<Reveal>, published: seq<Reveal>) {
    honest <= Elements(published) <= honest + coalition
  }

  /**
   * The seeds a coalition can choose among by withholding number at most one more than its reveals that rank below
   * every honest one.
   */
  lemma WithholdingIsBounded(h: Hashing, seed: Bytes32, slot: u64, honest: set<Reveal>, coalition: set<Reveal>,
                             plans: seq<seq<Reveal>>)
    requires OneEach(honest + coalition) && honest != {}
    requires forall i :: 0 <= i < |plans| ==> Publishes(honest, coalition, plans[i])
    requires forall i, j :: 0 <= i < j < |plans| ==>
      AdvanceFromBoundReveals(h, seed, slot, plans[i]) != AdvanceFromBoundReveals(h, seed, slot, plans[j])
    ensures |plans| <= |Ahead(ByPick(h, seed, slot), honest, coalition)| + 1
  {
    var leq := ByPick(h, seed, slot);
    PicksOrder(h, seed, slot, honest + coalition);
    forall i | 0 <= i < |plans| ensures Lowest(leq, plans[i]).Some?
      && InReach(leq, honest, coalition, Lowest(leq, plans[i]).value) {
      OutcomeInReach(leq, honest, coalition, plans[i]);
    }
    var outcomes := seq(|plans|, i requires 0 <= i < |plans| => Lowest(leq, plans[i]).value);
    var result := (r: Reveal) => h.shake(BoundInput(seed, slot, Some(r)));
    forall i, j | 0 <= i < j < |outcomes| ensures result(outcomes[i]) != result(outcomes[j]) {
      assert AdvanceFromBoundReveals(h, seed, slot, plans[i]) != AdvanceFromBoundReveals(h, seed, slot, plans[j]);
    }
    ResultsAreFew(leq, honest, coalition, result, outcomes);
  }

  lemma ChoiceInjective(a: Option<Reveal>, b: Option<Reveal>)
    requires ChoiceBytes(a) == ChoiceBytes(b)
    ensures a == b
  {
    if a.Some? && b.Some? {
      var one := LittleEndian(1, 8);
      var x, y := one + LittleEndian(a.value.holder, 8), one + LittleEndian(b.value.holder, 8);
      SplitConcat(x, a.value.preimage, y, b.value.preimage);
      SplitConcat(one, LittleEndian(a.value.holder, 8), one, LittleEndian(b.value.holder, 8));
      U64Injective(a.value.holder, b.value.holder);
    } else {
      assert |ChoiceBytes(a)| == |ChoiceBytes(b)|;
    }
  }

  /** The next seed's hash input determines the last seed, the slot and the choice, so no two advances share one. */
  lemma BoundInputInjective(seed: Bytes32, slot: u64, a: Option<Reveal>, seed': Bytes32, slot': u64, b: Option<Reveal>)
    requires BoundInput(seed, slot, a) == BoundInput(seed', slot', b)
    ensures seed == seed' && slot == slot' && a == b
  {
    var tag := Ascii("QORUS/beacon/bound-reveals/v1");
    SplitConcat(seed + tag + LittleEndian(slot, 8), ChoiceBytes(a), seed' + tag + LittleEndian(slot', 8),
                ChoiceBytes(b));
    SplitConcat(seed + tag, LittleEndian(slot, 8), seed' + tag, LittleEndian(slot', 8));
    SplitConcat(seed, tag, seed', tag);
    U64Injective(slot, slot');
    ChoiceInjective(a, b);
  }

  /**
   * A seed binds the past: two advances to one seed are of one seed, slot and choice, or their inputs collide.
   */
  lemma AdvanceBinds(h: Hashing, seed: Bytes32, slot: u64, s: seq<Reveal>, seed': Bytes32, slot': u64, t: seq<Reveal>)
    requires AdvanceFromBoundReveals(h, seed, slot, s) == AdvanceFromBoundReveals(h, seed', slot', t)
    ensures var a, b := Chosen(h, seed, slot, s), Chosen(h, seed', slot', t);
      var x, y := BoundInput(seed, slot, a), BoundInput(seed', slot', b);
      (seed == seed' && slot == slot' && a == b) || (x != y && h.shake(x) == h.shake(y))
  {
    var a, b := Chosen(h, seed, slot, s), Chosen(h, seed', slot', t);
    if BoundInput(seed, slot, a) == BoundInput(seed', slot', b) {
      BoundInputInjective(seed, slot, a, seed', slot', b);
    }
  }

  /** The ranking's hash input determines the holder, its preimage, the seed and the slot. */
  lemma PickInputInjective(seed: Bytes32, slot: u64, a: Reveal, seed': Bytes32, slot': u64, b: Reveal)
    requires PickInput(seed, slot, a) == PickInput(seed', slot', b)
    ensures seed == seed' && slot == slot' && a == b
  {
    var tag := Ascii("QORUS/beacon/bound-pick/v1");
    var x, y := tag + LittleEndian(a.holder, 8), tag + LittleEndian(b.holder, 8);
    SplitConcat(x + a.preimage + seed, LittleEndian(slot, 8), y + b.preimage + seed', LittleEndian(slot', 8));
    SplitConcat(x + a.preimage, seed, y + b.preimage, seed');
    SplitConcat(x, a.preimage, y, b.preimage);
    SplitConcat(tag, LittleEndian(a.holder, 8), tag, LittleEndian(b.holder, 8));
    U64Injective(a.holder, b.holder);
    U64Injective(slot, slot');
  }

  /**
   * The bound is attained: any reveal in reach is chosen when the coalition publishes it alone, and two such choices
   * give different seeds unless the beacon hash collides.
   */
  lemma WithholdingAttains(h: Hashing, seed: Bytes32, slot: u64, honest: set<Reveal>, coalition: set<Reveal>,
                           a: Reveal, b: Reveal, withA: seq<Reveal>, withB: seq<Reveal>)
    requires OneEach(honest + coalition) && honest != {} && a != b
    requires InReach(ByPick(h, seed, slot), honest, coalition, a) && Elements(withA) == honest + {a}
    requires InReach(ByPick(h, seed, slot), honest, coalition, b) && Elements(withB) == honest + {b}
    ensures Publishes(honest, coalition, withA) && Publishes(honest, coalition, withB)
    ensures AdvanceFromBoundReveals(h, seed, slot, withA) == AdvanceFromBoundReveals(h, seed, slot, withB) ==>
      var x, y := BoundInput(seed, slot, Some(a)), BoundInput(seed, slot, Some(b)); x != y && h.shake(x) == h.shake(y)
  {
    var leq := ByPick(h, seed, slot);
    PicksOrder(h, seed, slot, honest + coalition);
    ReachIsAttained(leq, honest, coalition, a, withA);
    ReachIsAttained(leq, honest, coalition, b, withB);
    if BoundInput(seed, slot, Some(a)) == BoundInput(seed, slot, Some(b)) {
      BoundInputInjective(seed, slot, Some(a), seed, slot, Some(b));
    }
  }

  // ---- bare reveals ----

  function ByBytes(): (Bytes32, Bytes32) -> bool {
    (a: Bytes32, b: Bytes32) => LexLeq(a, b)
  }

  function BareChoiceBytes(lowest: Option<Bytes32>): (s: seq<u8>)
    ensures |s| == if lowest.Some? then 40 else 8
  {
    match lowest
    case Some(r) => LittleEndian(1, 8) + r
    case None => LittleEndian(0, 8)
  }

  function BareInput(seed: Bytes32, slot: u64, lowest: Option<Bytes32>): seq<u8> {
    seed + Ascii("QORUS/beacon/reveals") + LittleEndian(slot, 8) + BareChoiceBytes(lowest)
  }

  lemma BareInputInjective(seed: Bytes32, slot: u64, a: Option<Bytes32>, seed': Bytes32, slot': u64, b: Option<Bytes32>)
    requires BareInput(seed, slot, a) == BareInput(seed', slot', b)
    ensures seed == seed' && slot == slot' && a == b
  {
    var tag := Ascii("QORUS/beacon/reveals");
    SplitConcat(seed + tag + LittleEndian(slot, 8), BareChoiceBytes(a), seed' + tag + LittleEndian(slot', 8),
                BareChoiceBytes(b));
    SplitConcat(seed + tag, LittleEndian(slot, 8), seed' + tag, LittleEndian(slot', 8));
    SplitConcat(seed, tag, seed', tag);
    U64Injective(slot, slot');
    assert |BareChoiceBytes(a)| == |BareChoiceBytes(b)|;
    if a.Some? {
      SplitConcat(LittleEndian(1, 8), a.value, LittleEndian(1, 8), b.value);
    }
  }

  function AdvanceFromReveals(h: Hashing, seed: Bytes32, slot: u64, published: seq<Bytes32>): Bytes32 {
    h.shake(BareInput(seed, slot, Lowest(ByBytes(), published)))
  }

  lemma BytesOrder(all: set<Bytes32>)
    ensures Orders(ByBytes(), all)
  {
    forall a: Bytes32, b: Bytes32 ensures LexLeq(a, b) || LexLeq(b, a) {
      LexTotal(a, b);
    }
    forall a: Bytes32, b: Bytes32 | LexLeq(a, b) && LexLeq(b, a) ensures a == b {
      LexAntisymmetric(a, b);
    }
    forall a: Bytes32, b: Bytes32, c: Bytes32 | LexLeq(a, b) && LexLeq(b, c) ensures LexLeq(a, c) {
      LexTransitive(a, b, c);
    }
  }

  lemma BareIgnoresOrder(h: Hashing, seed: Bytes32, slot: u64, s: seq<Bytes32>, t: seq<Bytes32>)
    requires Elements(s) == Elements(t)
    ensures AdvanceFromReveals(h, seed, slot, s) == AdvanceFromReveals(h, seed, slot, t)
  {
    BytesOrder(Elements(s));
    LowestIgnoresOrder(ByBytes(), s, t);
  }

  /** The lowest preimage is chosen, and a seed binds its past as a bound one does. */
  lemma BareAdvanceBinds(h: Hashing, seed: Bytes32, slot: u64, s: seq<Bytes32>, seed': Bytes32, slot': u64,
                         t: seq<Bytes32>)
    ensures s != [] ==> Lowest(ByBytes(), s).value in s
    ensures forall r :: r in s ==>
      r == Lowest(ByBytes(), s).value || exists k :: LowerAt(Lowest(ByBytes(), s).value, r, k)
    ensures AdvanceFromReveals(h, seed, slot, s) == AdvanceFromReveals(h, seed', slot', t) ==>
      var a, b := Lowest(ByBytes(), s), Lowest(ByBytes(), t);
      var x, y := BareInput(seed, slot, a), BareInput(seed', slot', b);
      (seed == seed' && slot == slot' && a == b) || (x != y && h.shake(x) == h.shake(y))
  {
    var a, b := Lowest(ByBytes(), s), Lowest(ByBytes(), t);
    BytesOrder(Elements(s));
    if s != [] {
      LowestIsLeast(ByBytes(), s, Elements(s));
      forall r | r in s ensures r == a.value || exists k :: LowerAt(a.value, r, k) {
        assert ByBytes()(a.value, r);
        LexExactly(a.value, r);
      }
    }
    if BareInput(seed, slot, a) == BareInput(seed', slot', b) {
      BareInputInjective(seed, slot, a, seed', slot', b);
    }
  }

  /** The same bound without binding: preimages below every honest one, and one more. */
  lemma BareWithholdingIsBounded(h: Hashing, seed: Bytes32, slot: u64, honest: set<Bytes32>, coalition: set<Bytes32>,
                                 plans: seq<seq<Bytes32>>)
    requires honest != {}
    requires forall i :: 0 <= i < |plans| ==> honest <= Elements(plans[i]) <= honest + coalition
    requires forall i, j :: 0 <= i < j < |plans| ==>
      AdvanceFromReveals(h, seed, slot, plans[i]) != AdvanceFromReveals(h, seed, slot, plans[j])
    ensures |plans| <= |Ahead(ByBytes(), honest, coalition)| + 1
  {
    var leq := ByBytes();
    BytesOrder(honest + coalition);
    forall i | 0 <= i < |plans| ensures Lowest(leq, plans[i]).Some?
      && InReach(leq, honest, coalition, Lowest(leq, plans[i]).value) {
      OutcomeInReach(leq, honest, coalition, plans[i]);
    }
    var outcomes := seq(|plans|, i requires 0 <= i < |plans| => Lowest(leq, plans[i]).value);
    var result := (r: Bytes32) => h.shake(BareInput(seed, slot, Some(r)));
    forall i, j | 0 <= i < j < |outcomes| ensures result(outcomes[i]) != result(outcomes[j]) {
      assert AdvanceFromReveals(h, seed, slot, plans[i]) != AdvanceFromReveals(h, seed, slot, plans[j]);
    }
    ResultsAreFew(leq, honest, coalition, result, outcomes);
  }
}
