/** What the draws mean: who is drawn, in exact integers, how many are expected, and what binds the hash outputs. */
module Draws {
  import opened Bytes
  import opened OneTime
  import opened LeaderLog
  import opened Sortition

  // ---- selection ----

  /** The first eight bytes of an output, as one number. */
  lemma OutputValueIs(output: Bytes32)
    ensures OutputValue(output)
      == (output[0] as int) * 0x100_0000_0000_0000 + (output[1] as int) * 0x1_0000_0000_0000
      + (output[2] as int) * 0x100_0000_0000 + (output[3] as int) * 0x1_0000_0000
      + (output[4] as int) * 0x100_0000 + (output[5] as int) * 0x1_0000 + (output[6] as int) * 0x100 + output[7]
  {
    assert forall n :: 0 < n <= 8 ==> output[..n][..n - 1] == output[..n - 1];
    assert BigEndian(output[..1]) == output[0];
    assert BigEndian(output[..2]) == (output[0] as int) * 0x100 + output[1];
    assert BigEndian(output[..3]) == BigEndian(output[..2]) * 0x100 + output[2];
    assert BigEndian(output[..4]) == BigEndian(output[..3]) * 0x100 + output[3];
    assert BigEndian(output[..5]) == BigEndian(output[..4]) * 0x100 + output[4];
    assert BigEndian(output[..6]) == BigEndian(output[..5]) * 0x100 + output[5];
    assert BigEndian(output[..7]) == BigEndian(output[..6]) * 0x100 + output[6];
  }

  /** A value is selected exactly when all the values up to it are within budget * weight / total of the space. */
  lemma SelectedExactly(value: u64, weight: u64, total: u64, budget: u64)
    ensures IsSelected(value, weight, total, budget) <==>
      total > 0 && (value + 1) * total <= budget * weight * 0x1_0000_0000_0000_0000
  {
    MulMonotone(0, budget, 0, weight);
    var num := budget * weight;
    if total > 0 {
      if num >= total {
        MulMonotone(value + 1, VALUE_SPACE, total, num);
      } else if weight > 0 {
        var n := num * VALUE_SPACE;
        if (value + 1) * total <= n { DivideAtLeast(n, total, value + 1); }
        if n < (value + 1) * total { DivideBelow(n, total, value + 1); }
      } else {
        MulMonotone(1, value + 1, 1, total);
      }
    }
  }

  /** The hashed bytes of a committee draw, and of a bound one. */
  function CommitteeInput(preimage: Bytes32, seed: Bytes32, slot: u64): seq<u8> {
    Ascii("QORUS/sampler/committee") + preimage + seed + LittleEndian(slot, 8)
  }

  function BoundCommitteeInput(holder: u64, root: Root, preimage: Bytes32, seed: Bytes32, slot: u64): seq<u8> {
    Ascii("QORUS/sortition/bound/v1") + LittleEndian(23, 8) + Ascii("QORUS/sampler/committee")
    + LittleEndian(holder, 8) + root.digest + LittleEndian(root.slots, 8) + preimage + seed + LittleEndian(slot, 8)
  }

  /**
   * A member is drawn exactly when its credential opens the slot under its root and, in a full draw, it has weight, or,
   * in a sampled one, the hash of its preimage for this seed and slot (with its id and root when bound) is selected.
   */
  lemma DrawnExactly(h: Hashing, mode: DrawMode, root: Root, holder: u64, seed: Bytes32, slot: u64, weight: u64,
                     total: u64, budget: u64, c: Credential)
    ensures VerifyDraw(h, mode, root, holder, seed, slot, weight, total, budget, c) <==>
      var input := if mode == Bound then BoundCommitteeInput(holder, root, c.preimage, seed, slot)
        else CommitteeInput(c.preimage, seed, slot);
      && c.position == slot && Opens(h, root, holder, slot, c.preimage, c.path)
      && (mode == Full ==> weight > 0)
      && (mode != Full ==>
            total > 0 && (OutputValue(h.shake(input)) + 1) * total <= budget * weight * 0x1_0000_0000_0000_0000)
  {
    var input := if mode == Bound then BoundCommitteeInput(holder, root, c.preimage, seed, slot)
      else CommitteeInput(c.preimage, seed, slot);
    SelectedExactly(OutputValue(h.shake(input)), weight, total, budget);
  }

  // ---- the expected committee ----

  function Total(xs: seq<nat>): nat {
    if xs == [] then 0 else Total(xs[..|xs| - 1]) + xs[|xs| - 1]
  }

  function Capped(x: nat, cap: nat): nat {
    if x > cap then cap else x
  }

  lemma {:induction false} WeightTotalIs(weights: seq<u64>)
    ensures WeightTotal(weights) == Capped(Total(weights), U128_MAX)
  {
    if weights != [] {
      WeightTotalIs(weights[..|weights| - 1]);
    }
  }

  /** The chance of each validator to be drawn, in units of one over the total. */
  function Chances(weights: seq<u64>, budget: u64, total: nat): (chances: seq<nat>)
    ensures |chances| == |weights|
  {
    seq(|weights|, i requires 0 <= i < |weights| =>
                     MulMonotone(0, budget, 0, weights[i]); Capped(budget * weights[i], total))
  }

  lemma {:induction false} ScaledTotalIs(weights: seq<u64>, budget: u64, total: u128)
    ensures ScaledTotal(weights, budget, total) == Capped(Total(Chances(weights, budget, total)), U128_MAX)
  {
    if weights != [] {
      var init, w := weights[..|weights| - 1], weights[|weights| - 1];
      ScaledTotalIs(init, budget, total);
      assert Chances(weights, budget, total)[..|weights| - 1] == Chances(init, budget, total);
      MulMonotone(0, budget, 0, w);
    }
  }

  /** The expected committee is the sum of the chances, rounded to the nearest whole number, halves up. */
  lemma ExpectedExactly(weights: seq<u64>, budget: u64)
    ensures var total := Capped(Total(weights), U128_MAX);
      var chances, e := Capped(Total(Chances(weights, budget, total)), U128_MAX), ExpectedCommittee(weights, budget);
      if total == 0 then e == 0 else e * total <= chances + total / 2 < (e + 1) * total
  {
    WeightTotalIs(weights);
    var total := WeightTotal(weights);
    if total > 0 {
      ScaledTotalIs(weights, budget, total);
      DivideBounds(ScaledTotal(weights, budget, total) + total / 2, total);
    }
  }

  // ---- what binds the outputs ----

  /** Outputs of two different draws that are equal, of whatever domains, are a collision of SHAKE. */
  lemma OutputsCollide(h: Hashing, p: Bytes32, s: Bytes32, d: seq<u8>, t: u64,
                       p': Bytes32, s': Bytes32, d': seq<u8>, t': u64)
    requires p != p' || s != s' || d != d' || t != t'
    requires SortitionOutput(h, p, s, d, t) == SortitionOutput(h, p', s', d', t')
    ensures var x, y := d + p + s + LittleEndian(t, 8), d' + p' + s' + LittleEndian(t', 8);
      x != y && h.shake(x) == h.shake(y)
  {
    if DrawInput(p, s, d, t) == DrawInput(p', s', d', t') {
      DrawInputInjective(p, s, d, t, p', s', d', t');
    }
  }

  /** The same for bound draws, whose holders and roots may also differ. */
  lemma BoundOutputsCollide(h: Hashing, x: u64, r: Root, p: Bytes32, s: Bytes32, d: seq<u8>, t: u64,
                            x': u64, r': Root, p': Bytes32, s': Bytes32, d': seq<u8>, t': u64)
    requires |d| <= U64_MAX && |d'| <= U64_MAX
    requires x != x' || r != r' || p != p' || s != s' || d != d' || t != t'
    requires BoundSortitionOutput(h, x, r, p, s, d, t) == BoundSortitionOutput(h, x', r', p', s', d', t')
    ensures var a, b := BoundDrawInput(x, r, p, s, d, t), BoundDrawInput(x', r', p', s', d', t');
      a != b && h.shake(a) == h.shake(b)
  {
    if BoundDrawInput(x, r, p, s, d, t) == BoundDrawInput(x', r', p', s', d', t') {
      BoundDrawInputInjective(x, r, p, s, d, t, x', r', p', s', d', t');
    }
  }

  /** Members whose preimages differ, and one member in slots or seeds that differ, enter the race with other draws. */
  lemma RaceDrawsApart(h: Hashing, m: Member, seed: Bytes32, slot: u64, n: Member, seed': Bytes32, slot': u64)
    requires m.credential.preimage != n.credential.preimage || seed != seed' || slot != slot'
    requires LeaderOutput(h, seed, slot)(m) == LeaderOutput(h, seed', slot')(n)
    ensures var d := Ascii("QORUS/sampler/leader");
      var x := d + m.credential.preimage + seed + LittleEndian(slot, 8);
      var y := d + n.credential.preimage + seed' + LittleEndian(slot', 8);
      x != y && h.shake(x) == h.shake(y)
  {
    OutputsCollide(h, m.credential.preimage, seed, DomainLeader(), slot,
                   n.credential.preimage, seed', DomainLeader(), slot');
  }

  /** A preimage's committee draw and its draw in the race are of different inputs. */
  lemma DomainsDiffer(p: Bytes32, s: Bytes32, t: u64, p': Bytes32, s': Bytes32, t': u64)
    ensures DrawInput(p, s, DomainCommittee(), t) != DrawInput(p', s', DomainLeader(), t')
  {
    assert |DomainCommittee()| != |DomainLeader()|;
  }
}
