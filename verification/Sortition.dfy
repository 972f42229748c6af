/** Draws from one-time preimages: committee membership and the leader race. */
module Sortition {
  import opened Wrappers
  import opened Bytes
  import opened Powers
  import opened OneTime
  import opened LeaderLog

  const VALUE_SPACE: u128 := 0x1_0000_0000_0000_0000

  const COMMITTEE_BUDGET: u64 := 500

  /** No list of registrations or members is longer: an allocation takes at most 2^63 bytes. */
  const MAX_MEMBERS: nat := 0x20_0000_0000_0000

  datatype DrawMode = Unbound | Bound | Full

  datatype Credential = Credential(position: u64, preimage: Bytes32, path: MerklePath)

  function DomainCommittee(): seq<u8> { Ascii("QORUS/sampler/committee") }

  function DomainLeader(): seq<u8> { Ascii("QORUS/sampler/leader") }

  function DrawInput(preimage: Bytes32, seed: Bytes32, domain: seq<u8>, slot: u64): seq<u8> {
    domain + preimage + seed + LittleEndian(slot, 8)
  }

  function SortitionOutput(h: Hashing, preimage: Bytes32, seed: Bytes32, domain: seq<u8>, slot: u64): Bytes32 {
    h.shake(DrawInput(preimage, seed, domain, slot))
  }

  function BoundDrawInput(holder: u64, root: Root, preimage: Bytes32, seed: Bytes32, domain: seq<u8>,
                          slot: u64): seq<u8>
    requires |domain| <= U64_MAX
  {
    Ascii("QORUS/sortition/bound/v1") + LittleEndian(|domain|, 8) + domain + LittleEndian(holder, 8)
    + root.digest + LittleEndian(root.slots, 8) + preimage + seed + LittleEndian(slot, 8)
  }

  function BoundSortitionOutput(h: Hashing, holder: u64, root: Root, preimage: Bytes32, seed: Bytes32, domain: seq<u8>,
                                slot: u64): Bytes32
    requires |domain| <= U64_MAX
  {
    h.shake(BoundDrawInput(holder, root, preimage, seed, domain, slot))
  }

  /** No two draws share a hash input: it determines the domain, preimage, seed and slot. */
  lemma DrawInputInjective(p: Bytes32, s: Bytes32, d: seq<u8>, t: u64, p': Bytes32, s': Bytes32, d': seq<u8>, t': u64)
    requires DrawInput(p, s, d, t) == DrawInput(p', s', d', t')
    ensures p == p' && s == s' && d == d' && t == t'
  {
    assert |DrawInput(p, s, d, t)| == |d| + 72 && |DrawInput(p', s', d', t')| == |d'| + 72;
    SplitConcat(d + p + s, LittleEndian(t, 8), d' + p' + s', LittleEndian(t', 8));
    SplitConcat(d + p, s, d' + p', s');
    SplitConcat(d, p, d', p');
    U64Injective(t, t');
  }

  lemma BoundTailInjective(a: seq<u8>, d: seq<u8>, x: u64, r: Root, a': seq<u8>, d': seq<u8>, x': u64, r': Root)
    requires |a| == |a'| && |d| == |d'|
    requires a + d + LittleEndian(x, 8) + r.digest + LittleEndian(r.slots, 8) == a' + d' + LittleEndian(x', 8)
      + r'.digest + LittleEndian(r'.slots, 8)
    ensures a == a' && d == d' && x == x' && r == r'
  {
    var b, b' := a + d + LittleEndian(x, 8), a' + d' + LittleEndian(x', 8);
    SplitConcat(b + r.digest, LittleEndian(r.slots, 8), b' + r'.digest, LittleEndian(r'.slots, 8));
    SplitConcat(b, r.digest, b', r'.digest);
    SplitConcat(a + d, LittleEndian(x, 8), a' + d', LittleEndian(x', 8));
    SplitConcat(a, d, a', d');
    U64Injective(x, x');
    U64Injective(r.slots, r'.slots);
  }

  /** The same for bound draws, which also determine the holder and its root. */
  lemma BoundDrawInputInjective(x: u64, r: Root, p: Bytes32, s: Bytes32, d: seq<u8>, t: u64,
                                x': u64, r': Root, p': Bytes32, s': Bytes32, d': seq<u8>, t': u64)
    requires |d| <= U64_MAX && |d'| <= U64_MAX
    requires BoundDrawInput(x, r, p, s, d, t) == BoundDrawInput(x', r', p', s', d', t')
    ensures x == x' && r == r' && p == p' && s == s' && d == d' && t == t'
  {
    var a, a' := Ascii("QORUS/sortition/bound/v1") + LittleEndian(|d|, 8),
      Ascii("QORUS/sortition/bound/v1") + LittleEndian(|d'|, 8);
    var b := a + d + LittleEndian(x, 8) + r.digest + LittleEndian(r.slots, 8);
    var b' := a' + d' + LittleEndian(x', 8) + r'.digest + LittleEndian(r'.slots, 8);
    assert |b| == 80 + |d| && |b'| == 80 + |d'|;
    DrawInputInjective(p, s, b, t, p', s', b', t');
    assert |d| == |d'|;
    BoundTailInjective(a, d, x, r, a', d', x', r');
  }

  /** The draw values below this are selected; the whole space once budget * weight reaches the total. */
  function Threshold(weight: u64, total: u64, budget: u64): (t: u128)
    ensures t <= VALUE_SPACE
  {
    if total == 0 || weight == 0 then 0
    else
      MulMonotone(0, budget, 0, weight);
      var num := budget * weight;
      if num >= total then VALUE_SPACE
      else
        ThresholdFits(num, total);
        num * VALUE_SPACE / total
  }

  lemma ThresholdFits(num: nat, total: u64)
    requires num < total
    ensures num * VALUE_SPACE / total <= VALUE_SPACE
  {
    MulMonotone(num, total, VALUE_SPACE, VALUE_SPACE);
    DivideBelow(num * VALUE_SPACE, total, VALUE_SPACE + 1);
  }

  /** Below saturation the selected values are exactly budget * weight / total of the space, rounded down. */
  lemma ThresholdIsShare(weight: u64, total: u64, budget: u64)
    ensures total > 0 && budget * weight < total ==>
      Threshold(weight, total, budget) * total <= budget * weight * VALUE_SPACE
      < (Threshold(weight, total, budget) + 1) * total
    ensures Threshold(weight, total, budget) == VALUE_SPACE <==> total > 0 && weight > 0 && budget * weight >= total
  {
    MulMonotone(0, budget, 0, weight);
    var num := budget * weight;
    if total > 0 && num < total {
      DivideBounds(num * VALUE_SPACE, total);
      MulMonotone(num + 1, total, VALUE_SPACE, VALUE_SPACE);
      DivideBelow(num * VALUE_SPACE, total, VALUE_SPACE);
    }
  }

  /** More stake never narrows the draw. */
  lemma ThresholdGrows(weight: u64, more: u64, total: u64, budget: u64)
    requires weight <= more
    ensures Threshold(weight, total, budget) <= Threshold(more, total, budget)
  {
    MulMonotone(0, budget, 0, weight);
    MulMonotone(budget, budget, weight, more);
    if total > 0 && weight > 0 && budget * more < total {
      MulMonotone(budget * weight, budget * more, VALUE_SPACE, VALUE_SPACE);
      DivideMonotone(budget * weight * VALUE_SPACE, budget * more * VALUE_SPACE, total);
    }
  }

  predicate IsSelected(value: u64, weight: u64, total: u64, budget: u64) {
    value < Threshold(weight, total, budget)
  }

  // ---- the expected size of a draw ----

  function WeightTotal(weights: seq<u64>): u128 {
    if weights == [] then 0 else SatAdd128(WeightTotal(weights[..|weights| - 1]), weights[|weights| - 1])
  }

  function ScaledTotal(weights: seq<u64>, budget: u64, total: u128): u128 {
    if weights == [] then 0
    else SatAdd128(ScaledTotal(weights[..|weights| - 1], budget, total),
                   CappedShare(weights[|weights| - 1], budget, total))
  }

  function CappedShare(weight: u64, budget: u64, total: u128): (share: u128)
    ensures share <= total
  {
    MulMonotone(0, budget, 0, weight);
    var share := SatMul128(budget, weight);
    if share < total then share else total
  }

  lemma MulNext(n: nat, x: nat)
    ensures (n + 1) * x == n * x + x
  {
  }

  lemma AddedShare(scaled: u128, w: u64, weights: u128, budget: u64, total: u128)
    requires budget > 0 && scaled <= budget * weights
    ensures SatAdd128(scaled, CappedShare(w, budget, total)) <= budget * SatAdd128(weights, w)
  {
    MulMonotone(0, budget, 0, w);
    assert budget * (weights + w) == budget * weights + budget * w;
    MulMonotone(1, budget, U128_MAX, U128_MAX);
  }

  /** The sum of the chances of being drawn, rounded to the nearest whole member. */
  function ExpectedCommittee(weights: seq<u64>, budget: u64): int {
    var total := WeightTotal(weights);
    if total == 0 then 0 else (ScaledTotal(weights, budget, total) + total / 2) / total
  }

  lemma {:induction false} ScaledBounds(weights: seq<u64>, budget: u64, total: u128)
    ensures ScaledTotal(weights, budget, total) <= |weights| * total
    ensures budget > 0 ==> ScaledTotal(weights, budget, total) <= budget * WeightTotal(weights)
    ensures budget == 0 ==> ScaledTotal(weights, budget, total) == 0
  {
    if weights != [] {
      var init, w := weights[..|weights| - 1], weights[|weights| - 1];
      ScaledBounds(init, budget, total);
      MulNext(|init|, total);
      if budget > 0 {
        AddedShare(ScaledTotal(init, budget, total), w, WeightTotal(init), budget, total);
      }
    }
  }

  /**
   * The expected committee exceeds neither the budget nor the number of validators, so its cast to 64 bits is exact.
   */
  lemma ExpectedCommitteeBounds(weights: seq<u64>, budget: u64)
    ensures 0 <= ExpectedCommittee(weights, budget) <= budget
    ensures ExpectedCommittee(weights, budget) <= |weights|
  {
    var total := WeightTotal(weights);
    if total > 0 {
      ScaledBounds(weights, budget, total);
      var scaled := ScaledTotal(weights, budget, total);
      assert scaled <= budget * total && scaled <= |weights| * total;
      RoundedBelow(scaled, total, budget);
      RoundedBelow(scaled, total, |weights|);
    }
  }

  lemma RoundedBelow(scaled: nat, total: nat, bound: nat)
    requires total > 0 && scaled <= bound * total
    ensures 0 <= (scaled + total / 2) / total <= bound
  {
    assert (bound + 1) * total == bound * total + total;
    DivideBelow(scaled + total / 2, total, bound + 1);
    DivideAtLeast(scaled + total / 2, total, 0);
  }

  predicate VerifyCredential(h: Hashing, root: Root, holder: u64, slot: u64, c: Credential) {
    c.position == slot && Opens(h, root, holder, c.position, c.preimage, c.path)
  }

  /** The member `holder` may sit on the committee of `slot`, by the draw of `mode`. */
  predicate VerifyDraw(h: Hashing, mode: DrawMode, root: Root, holder: u64, seed: Bytes32, slot: u64,
                       weight: u64, total: u64, budget: u64, c: Credential)
  {
    match mode
    case Unbound =>
      && VerifyCredential(h, root, holder, slot, c)
      && IsSelected(OutputValue(SortitionOutput(h, c.preimage, seed, DomainCommittee(), slot)), weight, total, budget)
    case Bound =>
      && VerifyCredential(h, root, holder, slot, c)
      && IsSelected(OutputValue(BoundSortitionOutput(h, holder, root, c.preimage, seed, DomainCommittee(), slot)),
                    weight, total, budget)
    case Full => weight > 0 && VerifyCredential(h, root, holder, slot, c)
  }

  /**
   * A registered root gives its holder one draw a slot: from a second, different one `OpeningCollision` computes two
   * inputs with one hash.
   */
  lemma OneDrawPerSlot(h: Hashing, mode: DrawMode, root: Root, holder: u64, seed: Bytes32, slot: u64,
                       weight: u64, total: u64, budget: u64, c: Credential, d: Credential)
    requires VerifyDraw(h, mode, root, holder, seed, slot, weight, total, budget, c)
    requires VerifyDraw(h, mode, root, holder, seed, slot, weight, total, budget, d)
    ensures var o, p := Opening(holder, c.preimage, c.path), Opening(holder, d.preimage, d.path);
      && |c.path.siblings| == |d.path.siblings|
      && (c == d || (OpeningCollision(h, root, slot, o, p).Some?
                     && Collides(h, OpeningCollision(h, root, slot, o, p).value)))
  {
    RootBinds(h, root, slot, Opening(holder, c.preimage, c.path), Opening(holder, d.preimage, d.path));
  }

  // ---- the leader race ----

  datatype Entry = Entry(score: nat, weight: u64, id: u64)

  /** `leader_prefers`: lower score per weight wins, then lower id; zero weight loses to any weight. */
  predicate Prefers(a: Entry, b: Entry) {
    if a.weight == 0 || b.weight == 0 then a.weight > 0 || (b.weight == 0 && a.id < b.id)
    else
      var lhs, rhs := a.score * b.weight, b.score * a.weight;
      lhs < rhs || (lhs == rhs && a.id < b.id)
  }

  /** Scores reach 2^54 and weights 2^64, so the source's cross products stay in `u128`. */
  lemma CrossProductFits(score: nat, weight: u64)
    requires score <= 64 * Pow2(LEADER_SCORE_FRAC_BITS)
    ensures score * weight <= U128_MAX
  {
    Pow2Of64();
    MulMonotone(score, 0x40_0000_0000_0000, weight, U64_MAX);
  }

  lemma CrossTransitive(s1: nat, w1: nat, s2: nat, w2: nat, s3: nat, w3: nat)
    requires w1 >= 1 && w2 >= 1 && w3 >= 1
    requires s1 * w2 <= s2 * w1 && s2 * w3 <= s3 * w2
    ensures s1 * w3 <= s3 * w1
    ensures s1 * w3 == s3 * w1 ==> s1 * w2 == s2 * w1 && s2 * w3 == s3 * w2
  {
    MulMonotone(s1 * w2, s2 * w1, w3, w3);
    MulMonotone(s2 * w3, s3 * w2, w1, w1);
    MulSwap(s1, w2, w3);
    MulSwap(s2, w1, w3);
    MulSwap(s3, w2, w1);
    CancelFactor(s1 * w3, s3 * w1, w2);
    if s1 * w3 == s3 * w1 {
      CancelFactor(s2 * w1, s1 * w2, w3);
      CancelFactor(s3 * w2, s2 * w3, w1);
    }
  }

  lemma MulSwap(a: nat, b: nat, c: nat)
    ensures a * b * c == a * c * b
  {
  }

  /** `Prefers` is a strict order, total on entries with different ids, and the lower score per weight comes first. */
  lemma PrefersIsStrictTotal(a: Entry, b: Entry, c: Entry)
    ensures a.weight > 0 && (b.weight == 0 || a.score * b.weight < b.score * a.weight) ==> Prefers(a, b)
    ensures a.weight > 0 && a.score * b.weight == b.score * a.weight && a.id < b.id ==> Prefers(a, b)
    ensures a.weight == 0 && b.weight == 0 && a.id < b.id ==> Prefers(a, b)
    ensures !Prefers(a, a)
    ensures Prefers(a, b) ==> !Prefers(b, a)
    ensures a.id != b.id ==> Prefers(a, b) || Prefers(b, a)
    ensures Prefers(a, b) && Prefers(b, c) ==> Prefers(a, c)
  {
    if a.weight > 0 && b.weight > 0 && c.weight > 0 && Prefers(a, b) && Prefers(b, c) {
      CrossTransitive(a.score, a.weight, b.score, b.weight, c.score, c.weight);
    }
  }

  /** What was not preferred to `b` is not preferred to anything `b` gives way to. */
  lemma StillNotPreferred(a: Entry, b: Entry, c: Entry)
    requires !Prefers(a, b) && Prefers(c, b)
    ensures !Prefers(a, c)
  {
    if Prefers(a, c) {
      PrefersIsStrictTotal(a, c, b);
    }
  }

  datatype Member = Member(id: u64, weight: u64, credential: Credential)

  datatype PublishedReveal = PublishedReveal(id: u64, credential: Credential)

  /** A member's entry in the race run on these outputs, scored with F fraction bits. */
  function EntryOf(F: nat, output: Member -> Option<Bytes32>, m: Member): Entry
    requires F >= 4
  {
    match output(m)
    case None => Entry(0, m.weight, m.id)
    case Some(bytes) => Entry(NegLog2(F, OutputValue(bytes)), m.weight, m.id)
  }

  /**
   * `a` wins the race against `b`: with weight against none, or by the lower score per weight, and between equals (two
   * weightless members among them) by the lower id.
   */
  ghost predicate WinsOver(a: Entry, b: Entry) {
    && (b.weight > 0 ==> a.weight > 0 && a.score * b.weight <= b.score * a.weight)
    && (b.weight > 0 && a.score * b.weight == b.score * a.weight ==> a.id <= b.id)
    && (a.weight == 0 && b.weight == 0 ==> a.id <= b.id)
  }

  /** The preference rejects exactly the losers. */
  lemma NotPreferred(a: Entry, b: Entry)
    ensures !Prefers(b, a) <==> WinsOver(a, b)
  {
  }

  ghost predicate IsLeader(F: nat, output: Member -> Option<Bytes32>, members: seq<Member>, leader: Member)
    requires F >= 4
  {
    leader in members && forall m :: m in members ==> WinsOver(EntryOf(F, output, leader), EntryOf(F, output, m))
  }

  lemma TakeOneMore<T>(s: seq<T>, i: nat)
    requires i < |s|
    ensures s[..i + 1] == s[..i] + [s[i]]
  {
  }

  /** The race over the members in turn, given up at a member without an output. */
  method Race(F: nat, output: Member -> Option<Bytes32>, members: seq<Member>) returns (leader: Option<Member>)
    requires 4 <= F <= LEADER_SCORE_FRAC_BITS
    ensures leader.None? <==> members == [] || exists m :: m in members && output(m).None?
    ensures leader.Some? ==> IsLeader(F, output, members, leader.value)
  {
    leader := None;
    var best := Entry(0, 0, 0);
    for i := 0 to |members|
      invariant leader.None? <==> i == 0
      invariant forall m :: m in members[..i] ==> output(m).Some?
      invariant leader.Some? ==>
        best == EntryOf(F, output, leader.value) && IsLeader(F, output, members[..i], leader.value)
    {
      var m := members[i];
      var bytes := output(m);
      if bytes.None? {
        return None;
      }
      var entry := Entered(F, output, m);
      TakeOneMore(members, i);
      LeadAfter(F, output, members[..i], leader, m, members[..i + 1]);
      if leader.None? || Prefers(entry, best) {
        leader, best := Some(m), entry;
      }
    }
    assert members[..|members|] == members;
  }

  method Entered(F: nat, output: Member -> Option<Bytes32>, m: Member) returns (entry: Entry)
    requires 4 <= F <= LEADER_SCORE_FRAC_BITS && output(m).Some?
    ensures entry == EntryOf(F, output, m)
  {
    var score := NegLog2At(F, OutputValue(output(m).value));
    entry := Entry(score, m.weight, m.id);
  }

  lemma LeadAfter(F: nat, output: Member -> Option<Bytes32>, before: seq<Member>, leader: Option<Member>, m: Member,
                  after: seq<Member>)
    requires F >= 4 && after == before + [m] && (leader.None? ==> before == [])
    requires leader.Some? ==> IsLeader(F, output, before, leader.value)
    ensures IsLeader(F, output, after,
                     if leader.None? || Prefers(EntryOf(F, output, m), EntryOf(F, output, leader.value)) then m
                       else leader.value)
  {
    var entry := EntryOf(F, output, m);
    NotPreferred(entry, entry);
    PrefersIsStrictTotal(entry, entry, entry);
    if leader.Some? {
      var led := EntryOf(F, output, leader.value);
      NotPreferred(led, entry);
      if Prefers(entry, led) {
        forall n | n in before ensures WinsOver(entry, EntryOf(F, output, n)) {
          NotPreferred(led, EntryOf(F, output, n));
          NotPreferred(entry, EntryOf(F, output, n));
          StillNotPreferred(EntryOf(F, output, n), led, entry);
        }
      }
    }
  }

  function LeaderOutput(h: Hashing, seed: Bytes32, slot: u64): Member -> Option<Bytes32> {
    (m: Member) => Some(SortitionOutput(h, m.credential.preimage, seed, DomainLeader(), slot))
  }

  method ElectLeader(h: Hashing, members: seq<Member>, seed: Bytes32, slot: u64) returns (leader: Option<Member>)
    ensures leader.None? <==> members == []
    ensures leader.Some? ==> IsLeader(LEADER_SCORE_FRAC_BITS, LeaderOutput(h, seed, slot), members, leader.value)
  {
    leader := Race(LEADER_SCORE_FRAC_BITS, LeaderOutput(h, seed, slot), members);
  }

  ghost predicate DistinctIds(members: seq<Member>) {
    forall i, j :: 0 <= i < j < |members| ==> members[i].id != members[j].id
  }

  /** The leader is unique, so every ordering of one member list elects the same one. */
  lemma ElectionIgnoresOrder(F: nat, output: Member -> Option<Bytes32>, ms: seq<Member>, ns: seq<Member>, a: Member,
                             b: Member)
    requires F >= 4 && DistinctIds(ms) && multiset(ms) == multiset(ns)
    requires IsLeader(F, output, ms, a) && IsLeader(F, output, ns, b)
    ensures a == b
  {
    assert b in multiset(ns);
    assert a in multiset(ms);
    assert a in ns && b in ms;
    var x, y := EntryOf(F, output, a), EntryOf(F, output, b);
    NotPreferred(x, y);
    NotPreferred(y, x);
    PrefersIsStrictTotal(x, y, x);
  }

  /** A member with stake leads whenever there is one; without any the lowest id leads. */
  lemma StakeLeads(F: nat, output: Member -> Option<Bytes32>, members: seq<Member>, leader: Member, m: Member)
    requires F >= 4 && IsLeader(F, output, members, leader) && m in members
    ensures m.weight > 0 ==> leader.weight > 0
    ensures (forall n :: n in members ==> n.weight == 0) ==> leader.id <= m.id
  {
    assert WinsOver(EntryOf(F, output, leader), EntryOf(F, output, m));
  }

  lemma BetweenEquals(s: nat, w: nat, s': nat, w': nat)
    requires w' > 0 && s * w' <= s' * w
    ensures w == w' ==> s <= s'
    ensures s == s' > 0 ==> w' <= w
  {
    if w == w' { CancelFactor(s, s', w); }
    if s == s' > 0 { CancelFactor(w', w, s); }
  }

  /**
   * The draws decide between equals: whoever has as much stake as the leader and drew no smaller a value ties with it
   * in the score, with no lower id; and whoever scores the same, but not zero, has no more stake.
   */
  lemma DrawsDecide(F: nat, output: Member -> Option<Bytes32>, members: seq<Member>, leader: Member, m: Member)
    requires F >= 4 && IsLeader(F, output, members, leader) && m in members && m.weight > 0
    requires output(leader).Some? && output(m).Some?
    ensures var x, y := OutputValue(output(leader).value), OutputValue(output(m).value);
      && (m.weight == leader.weight && y >= x ==> NegLog2(F, x) == NegLog2(F, y) && leader.id <= m.id)
      && (NegLog2(F, x) == NegLog2(F, y) > 0 ==> m.weight <= leader.weight)
  {
    hide NegLog2;
    var x, y := OutputValue(output(leader).value), OutputValue(output(m).value);
    assert WinsOver(EntryOf(F, output, leader), EntryOf(F, output, m));
    BetweenEquals(NegLog2(F, x), leader.weight, NegLog2(F, y), m.weight);
    if y >= x {
      NegLog2Antitone(F, x, y);
    }
  }
}
