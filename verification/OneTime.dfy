/** The one-time preimage tree: a Merkle tree with one leaf per slot. */
module OneTime {
  import opened Wrappers
  import opened Bytes
  import opened Powers

  /** The two hash functions, arbitrary functions on byte strings. */
  datatype Hashing = Hashing(sha3: seq<u8> -> Bytes32, shake: seq<u8> -> Bytes32)

  const MAX_SLOTS: nat := 65536
  function PaddingPreimage(): Bytes32 {
    seq(32, _ => 0)
  }

  datatype Root = Root(digest: Bytes32, slots: u64)

  datatype MerklePath = MerklePath(siblings: seq<Bytes32>)

  function PreimageInput(seed: Bytes32, position: u64): seq<u8> {
    seed + Ascii("QORUS/onetime/preimage") + LittleEndian(position, 8)
  }

  function LeafInput(position: u64, preimage: Bytes32): seq<u8> {
    Ascii("QORUS/onetime/leaf") + LittleEndian(position, 8) + preimage
  }

  function NodeInput(left: Bytes32, right: Bytes32): seq<u8> {
    Ascii("QORUS/onetime/node") + left + right
  }

  function RootInput(holder: u64, slots: u64, inner: Bytes32): seq<u8> {
    Ascii("QORUS/onetime/root") + LittleEndian(holder, 8) + LittleEndian(slots, 8) + inner
  }

  function DerivePreimage(h: Hashing, seed: Bytes32, position: u64): Bytes32 {
    h.shake(PreimageInput(seed, position))
  }

  function LeafHash(h: Hashing, position: u64, preimage: Bytes32): Bytes32 {
    h.sha3(LeafInput(position, preimage))
  }

  function NodeHash(h: Hashing, left: Bytes32, right: Bytes32): Bytes32 {
    h.sha3(NodeInput(left, right))
  }

  function BindRoot(h: Hashing, holder: u64, slots: u64, inner: Bytes32): Bytes32 {
    h.sha3(RootInput(holder, slots, inner))
  }

  /** The slot count rounded up to a power of two; none outside 1..=MAX_SLOTS. */
  function PaddedLeaves(slots: u64): Option<nat> {
    if slots == 0 || slots > MAX_SLOTS then None else Some(Pow2(CeilLog2(slots)))
  }

  function TreeDepth(slots: u64): Option<nat> {
    match PaddedLeaves(slots)
    case None => None
    case Some(padded) => Some(TrailingZeros(padded))
  }

  lemma DepthOfSlots(slots: u64)
    requires 0 < slots <= MAX_SLOTS
    ensures TreeDepth(slots) == Some(CeilLog2(slots))
    ensures PaddedLeaves(slots) == Some(Pow2(CeilLog2(slots)))
    ensures slots <= Pow2(CeilLog2(slots)) <= MAX_SLOTS
    ensures forall k: nat :: slots <= Pow2(k) ==> CeilLog2(slots) <= k
  {
    forall k: nat | slots <= Pow2(k) ensures CeilLog2(slots) <= k {
      CeilLog2Least(slots, k);
    }
    TrailingZerosOfPow2(CeilLog2(slots));
    CeilLog2Bounds(slots);
    assert Pow2(16) == MAX_SLOTS by {
      assert Pow2(8) == 256;
      Pow2Adds(8, 8);
    }
    CeilLog2Least(slots, 16);
    Pow2Monotone(CeilLog2(slots), 16);
  }

  /** No two of the four hashes share an input, so no node passes for a leaf or a root. */
  lemma InputsApart(seed: Bytes32, p: u64, preimage: Bytes32, a: Bytes32, b: Bytes32, holder: u64, slots: u64,
                    inner: Bytes32)
    ensures LeafInput(p, preimage) != NodeInput(a, b) && LeafInput(p, preimage) != RootInput(holder, slots, inner)
    ensures NodeInput(a, b) != RootInput(holder, slots, inner)
    ensures PreimageInput(seed, p) != LeafInput(p, preimage) && PreimageInput(seed, p) != NodeInput(a, b)
    ensures PreimageInput(seed, p) != RootInput(holder, slots, inner)
  {
    assert |LeafInput(p, preimage)| == 58 && |NodeInput(a, b)| == 82;
    assert |RootInput(holder, slots, inner)| == 66 && |PreimageInput(seed, p)| == 62;
  }

  // ---- climbing from a leaf to the root ----

  /** What one level of a path feeds the node hash: the sibling goes right of an even position. */
  function LevelInput(position: nat, node: Bytes32, sibling: Bytes32): seq<u8> {
    if position % 2 == 0 then NodeInput(node, sibling) else NodeInput(sibling, node)
  }

  function Climb(h: Hashing, position: nat, node: Bytes32, siblings: seq<Bytes32>): Bytes32
    decreases siblings
  {
    if siblings == [] then node
    else Climb(h, position / 2, h.sha3(LevelInput(position, node, siblings[0])), siblings[1..])
  }

  method RootFromPath(h: Hashing, position: u64, leaf: Bytes32, path: MerklePath) returns (node: Bytes32)
    ensures node == Climb(h, position, leaf, path.siblings)
  {
    node := leaf;
    var at: nat := position;
    for i := 0 to |path.siblings|
      invariant Climb(h, at, node, path.siblings[i..]) == Climb(h, position, leaf, path.siblings)
    {
      var sibling := path.siblings[i];
      assert path.siblings[i..][1..] == path.siblings[i + 1..];
      node := if at % 2 == 0 then NodeHash(h, node, sibling) else NodeHash(h, sibling, node);
      at := at / 2;
    }
  }

  /** The opening (preimage, path) of `position` under `holder` is one that `root` accepts. */
  predicate Opens(h: Hashing, root: Root, holder: u64, position: u64, preimage: Bytes32, path: MerklePath) {
    && position < root.slots
    && TreeDepth(root.slots) == Some(|path.siblings|)
    && BindRoot(h, holder, root.slots, Climb(h, position, LeafHash(h, position, preimage), path.siblings))
      == root.digest
  }

  method VerifyMembership(h: Hashing, root: Root, holder: u64, position: u64, preimage: Bytes32, path: MerklePath)
    returns (accepted: bool)
    ensures accepted <==> Opens(h, root, holder, position, preimage, path)
    ensures accepted <==>
      && position < root.slots <= MAX_SLOTS && |path.siblings| == CeilLog2(root.slots)
      && var leaf := h.sha3(Ascii("QORUS/onetime/leaf") + LittleEndian(position, 8) + preimage);
         root.digest == h.sha3(Ascii("QORUS/onetime/root") + LittleEndian(holder, 8) + LittleEndian(root.slots, 8)
                               + Climb(h, position, leaf, path.siblings))
  {
    if 0 < root.slots <= MAX_SLOTS { DepthOfSlots(root.slots); }
    if position >= root.slots {
      return false;
    }
    var depth := TreeDepth(root.slots);
    if depth.None? || |path.siblings| != depth.value {
      return false;
    }
    var inner := RootFromPath(h, position, LeafHash(h, position, preimage), path);
    accepted := BindRoot(h, holder, root.slots, inner) == root.digest;
  }

  // ---- building the tree ----

  datatype OneTimeTree = OneTimeTree(seed: Bytes32, slots: u64, holder: u64, layers: seq<seq<Bytes32>>)

  /** What a leaf holds: the slot's own preimage, or zeros past the slots. */
  ghost function PreimageAt(h: Hashing, seed: Bytes32, slots: u64, p: nat): Bytes32 {
    if p < slots then h.shake(seed + Ascii("QORUS/onetime/preimage") + LittleEndian(p, 8)) else seq(32, _ => 0)
  }

  /** `upper` holds the hash of each pair of `lower`. */
  ghost predicate PairsUp(h: Hashing, lower: seq<Bytes32>, upper: seq<Bytes32>) {
    && |lower| == 2 * |upper|
    && forall i :: 0 <= i < |upper| ==>
         upper[i] == h.sha3(Ascii("QORUS/onetime/node") + lower[2 * i] + lower[2 * i + 1])
  }

  ghost predicate LeavesOf(h: Hashing, seed: Bytes32, slots: u64, leaves: seq<Bytes32>) {
    && |leaves| <= MAX_SLOTS
    && forall p :: 0 <= p < |leaves| ==>
         leaves[p] == h.sha3(Ascii("QORUS/onetime/leaf") + LittleEndian(p, 8) + PreimageAt(h, seed, slots, p))
  }

  /** Layer lengths halve from the leaves down to one node. */
  ghost predicate Halving(layers: seq<seq<Bytes32>>) {
    forall k :: 0 <= k < |layers| ==> |layers[k]| == Pow2(|layers| - 1 - k)
  }

  lemma NextLayer(layers: seq<seq<Bytes32>>, k: nat)
    requires Halving(layers) && k + 1 < |layers|
    ensures |layers[k]| == 2 * |layers[k + 1]|
  {
    var n := |layers| - 1 - k;
    assert Pow2(n) == 2 * Pow2(n - 1);
    assert |layers[k + 1]| == Pow2(n - 1);
  }

  /** The tree over the slots' preimages: layer lengths halve from the padded leaves down to one root. */
  ghost predicate Built(h: Hashing, t: OneTimeTree) {
    && 0 < t.slots <= MAX_SLOTS
    && |t.layers| == CeilLog2(t.slots) + 1
    && LeavesOf(h, t.seed, t.slots, t.layers[0])
    && Halving(t.layers)
    && (forall k :: 0 < k < |t.layers| ==> PairsUp(h, t.layers[k - 1], t.layers[k]))
  }

  /** The leaves of the slots, padded. */
  method Leaves(h: Hashing, seed: Bytes32, slots: u64, padded: nat) returns (leaves: seq<Bytes32>)
    requires slots <= padded <= MAX_SLOTS
    ensures |leaves| == padded && LeavesOf(h, seed, slots, leaves)
  {
    leaves := [];
    for position := 0 to padded
      invariant |leaves| == position
      invariant LeavesOf(h, seed, slots, leaves)
    {
      if position < slots {
        leaves := leaves + [LeafHash(h, position, DerivePreimage(h, seed, position))];
      } else {
        leaves := leaves + [LeafHash(h, position, PaddingPreimage())];
      }
    }
  }

  /** The layers over the leaves, each the pair hashes of the one before, up to a single node. */
  method Layers(h: Hashing, leaves: seq<Bytes32>, ghost depth: nat) returns (layers: seq<seq<Bytes32>>)
    requires |leaves| == Pow2(depth)
    ensures |layers| == depth + 1 && layers[0] == leaves && Halving(layers)
    ensures forall k :: 0 < k < |layers| ==> PairsUp(h, layers[k - 1], layers[k])
  {
    layers := [leaves];
    while |layers[|layers| - 1]| > 1
      invariant 1 <= |layers| <= depth + 1
      invariant layers[0] == leaves
      invariant forall k :: 0 <= k < |layers| ==> |layers[k]| == Pow2(depth - k)
      invariant forall k :: 0 < k < |layers| ==> PairsUp(h, layers[k - 1], layers[k])
      decreases depth + 1 - |layers|
    {
      assert |layers| <= depth by { assert Pow2(0) == 1; }
      var next := HashPairs(h, layers[|layers| - 1]);
      layers := layers + [next];
    }
    assert |layers| == depth + 1;
  }

  method New(h: Hashing, seed: Bytes32, slots: u64, holder: u64) returns (t: Option<OneTimeTree>)
    ensures t.Some? <==> 0 < slots <= MAX_SLOTS
    ensures t.Some? ==> t.value.seed == seed && t.value.slots == slots && t.value.holder == holder && Built(h, t.value)
  {
    var padded := PaddedLeaves(slots);
    if padded.None? {
      return None;
    }
    DepthOfSlots(slots);
    var leaves := Leaves(h, seed, slots, padded.value);
    var layers := Layers(h, leaves, CeilLog2(slots));
    t := Some(OneTimeTree(seed, slots, holder, layers));
  }

  method HashPairs(h: Hashing, prev: seq<Bytes32>) returns (next: seq<Bytes32>)
    requires |prev| % 2 == 0
    ensures PairsUp(h, prev, next)
  {
    next := [];
    while 2 * |next| < |prev|
      invariant 2 * |next| <= |prev|
      invariant forall i :: 0 <= i < |next| ==> next[i] == NodeHash(h, prev[2 * i], prev[2 * i + 1])
      decreases |prev| - 2 * |next|
    {
      next := next + [NodeHash(h, prev[2 * |next|], prev[2 * |next| + 1])];
    }
  }

  function RootOf(h: Hashing, t: OneTimeTree): Root
    requires |t.layers| > 0 && |t.layers[|t.layers| - 1]| > 0
  {
    Root(BindRoot(h, t.holder, t.slots, t.layers[|t.layers| - 1][0]), t.slots)
  }

  function Preimage(h: Hashing, t: OneTimeTree, position: u64): (preimage: Option<Bytes32>)
    ensures preimage.None? <==> position >= t.slots
    ensures preimage.Some? ==>
      preimage.value == h.shake(t.seed + Ascii("QORUS/onetime/preimage") + LittleEndian(position, 8))
  {
    if position >= t.slots then None else Some(DerivePreimage(h, t.seed, position))
  }

  /** The other node of a pair: the index with its lowest bit flipped. */
  function Sibling(i: nat): nat {
    if i % 2 == 0 then i + 1 else i - 1
  }

  /** The siblings met on the way up from index `i` of layer `k`. */
  ghost function SiblingsFrom(layers: seq<seq<Bytes32>>, k: nat, i: nat): (s: seq<Bytes32>)
    requires Halving(layers)
    requires k < |layers| && i < |layers[k]|
    ensures |s| == |layers| - 1 - k
    decreases |layers| - k
  {
    if k + 1 == |layers| then []
    else
      NextLayer(layers, k);
      [layers[k][Sibling(i)]] + SiblingsFrom(layers, k + 1, i / 2)
  }

  lemma PositionFits(t: OneTimeTree, position: u64)
    requires 0 < t.slots <= MAX_SLOTS && position < t.slots
    ensures position < Pow2(CeilLog2(t.slots))
  {
    CeilLog2Bounds(t.slots);
  }

  method Path(h: Hashing, t: OneTimeTree, position: u64) returns (path: Option<MerklePath>)
    requires Built(h, t)
    ensures path.Some? <==> position < t.slots
    ensures path.Some? ==> position < |t.layers[0]| && path.value.siblings == SiblingsFrom(t.layers, 0, position)
  {
    if position >= t.slots {
      return None;
    }
    PositionFits(t, position);
    var siblings := CollectSiblings(t.layers, position);
    path := Some(MerklePath(siblings));
  }

  method CollectSiblings(layers: seq<seq<Bytes32>>, position: nat) returns (siblings: seq<Bytes32>)
    requires Halving(layers) && |layers| >= 1 && position < |layers[0]|
    ensures siblings == SiblingsFrom(layers, 0, position)
  {
    siblings := [];
    var idx: nat := position;
    for k := 0 to |layers| - 1
      invariant 0 <= idx < |layers[k]|
      invariant siblings + SiblingsFrom(layers, k, idx) == SiblingsFrom(layers, 0, position)
    {
      NextLayer(layers, k);
      ghost var rest := SiblingsFrom(layers, k + 1, idx / 2);
      assert SiblingsFrom(layers, k, idx) == [layers[k][Sibling(idx)]] + rest;
      assert siblings + ([layers[k][Sibling(idx)]] + rest) == (siblings + [layers[k][Sibling(idx)]]) + rest;
      siblings := siblings + [layers[k][Sibling(idx)]];
      idx := idx / 2;
    }
  }

  // ---- completeness ----

  lemma {:induction false} ClimbReachesRoot(h: Hashing, t: OneTimeTree, k: nat, i: nat)
    requires Built(h, t)
    requires k < |t.layers| && i < |t.layers[k]|
    ensures Climb(h, i, t.layers[k][i], SiblingsFrom(t.layers, k, i)) == t.layers[|t.layers| - 1][0]
    decreases |t.layers| - k
  {
    if k + 1 < |t.layers| {
      NextLayer(t.layers, k);
      var lower, upper := t.layers[k], t.layers[k + 1];
      assert PairsUp(h, lower, upper);
      assert upper[i / 2] == NodeHash(h, lower[2 * (i / 2)], lower[2 * (i / 2) + 1]);
      assert upper[i / 2] == h.sha3(LevelInput(i, lower[i], lower[Sibling(i)]));
      var s := SiblingsFrom(t.layers, k, i);
      assert s[1..] == SiblingsFrom(t.layers, k + 1, i / 2);
      ClimbReachesRoot(h, t, k + 1, i / 2);
    } else {
      assert Pow2(0) == 1;
    }
  }

  /** Every slot of every tree opens: the preimage and path the tree hands out are accepted by its root. */
  lemma OpeningsVerify(h: Hashing, t: OneTimeTree, position: u64)
    requires Built(h, t) && position < t.slots
    ensures position < |t.layers[0]|
    ensures Opens(h, RootOf(h, t), t.holder, position, Preimage(h, t, position).value,
                  MerklePath(SiblingsFrom(t.layers, 0, position)))
  {
    PositionFits(t, position);
    DepthOfSlots(t.slots);
    assert t.layers[0][position] == LeafHash(h, position, DerivePreimage(h, t.seed, position));
    ClimbReachesRoot(h, t, 0, position);
  }

  // ---- binding, by reduction to a collision ----

  datatype Collision = Collision(first: seq<u8>, second: seq<u8>)

  ghost predicate Collides(h: Hashing, c: Collision) {
    c.first != c.second && h.sha3(c.first) == h.sha3(c.second)
  }

  /** The collision between the inputs `x` and `y`, when they make one. */
  function Clash(h: Hashing, x: seq<u8>, y: seq<u8>): Option<Collision> {
    if x != y && h.sha3(x) == h.sha3(y) then Some(Collision(x, y)) else None
  }

  function OrElse(a: Option<Collision>, b: Option<Collision>): Option<Collision> {
    if a.Some? then a else b
  }

  /** A collision among the node inputs of two climbs, searched from the root down. */
  function ClimbCollision(h: Hashing, position: nat, a: Bytes32, s: seq<Bytes32>, b: Bytes32,
                          t: seq<Bytes32>): (c: Option<Collision>)
    requires |s| == |t|
    ensures c.Some? ==> Collides(h, c.value)
    decreases s
  {
    if s == [] then None
    else
      var x, y := LevelInput(position, a, s[0]), LevelInput(position, b, t[0]);
      OrElse(ClimbCollision(h, position / 2, h.sha3(x), s[1..], h.sha3(y), t[1..]), Clash(h, x, y))
  }

  lemma NodeInputInjective(l: Bytes32, r: Bytes32, l': Bytes32, r': Bytes32)
    requires NodeInput(l, r) == NodeInput(l', r')
    ensures l == l' && r == r'
  {
    var d := Ascii("QORUS/onetime/node");
    SplitConcat(d + l, r, d + l', r');
    SplitConcat(d, l, d, l');
  }

  lemma LeafInputInjective(p: u64, x: Bytes32, y: Bytes32)
    requires LeafInput(p, x) == LeafInput(p, y)
    ensures x == y
  {
    var d := Ascii("QORUS/onetime/leaf") + LittleEndian(p, 8);
    SplitConcat(d, x, d, y);
  }

  lemma RootInputInjective(holder: u64, inner: Bytes32, holder': u64, inner': Bytes32, slots: u64)
    requires RootInput(holder, slots, inner) == RootInput(holder', slots, inner')
    ensures holder == holder' && inner == inner'
  {
    var d, s := Ascii("QORUS/onetime/root"), LittleEndian(slots, 8);
    SplitConcat(d + LittleEndian(holder, 8) + s, inner, d + LittleEndian(holder', 8) + s, inner');
    SplitConcat(d + LittleEndian(holder, 8), s, d + LittleEndian(holder', 8), s);
    SplitConcat(d, LittleEndian(holder, 8), d, LittleEndian(holder', 8));
    U64Injective(holder, holder');
  }

  /** Two climbs that reach one node without a collision started and went alike. */
  lemma {:induction false} ClimbBinds(h: Hashing, position: nat, a: Bytes32, s: seq<Bytes32>, b: Bytes32,
                                      t: seq<Bytes32>)
    requires |s| == |t|
    requires Climb(h, position, a, s) == Climb(h, position, b, t)
    requires ClimbCollision(h, position, a, s, b, t).None?
    ensures a == b && s == t
    decreases s
  {
    if s != [] {
      var x, y := LevelInput(position, a, s[0]), LevelInput(position, b, t[0]);
      ClimbBinds(h, position / 2, h.sha3(x), s[1..], h.sha3(y), t[1..]);
      assert Clash(h, x, y).None?;
      if position % 2 == 0 {
        NodeInputInjective(a, s[0], b, t[0]);
      } else {
        NodeInputInjective(s[0], a, t[0], b);
      }
      assert s == [s[0]] + s[1..] && t == [t[0]] + t[1..];
    }
  }

  /** Equal preimages, of one seed or two, at different positions or under different seeds are a collision of SHAKE. */
  lemma PreimagesCollide(h: Hashing, seed: Bytes32, position: u64, seed': Bytes32, position': u64)
    requires DerivePreimage(h, seed, position) == DerivePreimage(h, seed', position')
    requires seed != seed' || position != position'
    ensures var x := seed + Ascii("QORUS/onetime/preimage") + LittleEndian(position, 8);
      var y := seed' + Ascii("QORUS/onetime/preimage") + LittleEndian(position', 8);
      x != y && h.shake(x) == h.shake(y)
  {
    var d := Ascii("QORUS/onetime/preimage");
    if PreimageInput(seed, position) == PreimageInput(seed', position') {
      SplitConcat(seed + d, LittleEndian(position, 8), seed' + d, LittleEndian(position', 8));
      SplitConcat(seed, d, seed', d);
      U64Injective(position, position');
    }
  }

  datatype Opening = Opening(holder: u64, preimage: Bytes32, path: MerklePath)

  predicate Accepts(h: Hashing, root: Root, position: u64, o: Opening) {
    Opens(h, root, o.holder, position, o.preimage, o.path)
  }

  /** The hash collision that two accepted openings of one position give away. */
  function OpeningCollision(h: Hashing, root: Root, position: u64, o: Opening, p: Opening): (c: Option<Collision>)
    requires |o.path.siblings| == |p.path.siblings|
    ensures c.Some? ==> Collides(h, c.value)
  {
    var a, b := LeafHash(h, position, o.preimage), LeafHash(h, position, p.preimage);
    var x := RootInput(o.holder, root.slots, Climb(h, position, a, o.path.siblings));
    var y := RootInput(p.holder, root.slots, Climb(h, position, b, p.path.siblings));
    OrElse(Clash(h, x, y),
           OrElse(ClimbCollision(h, position, a, o.path.siblings, b, p.path.siblings),
                  Clash(h, LeafInput(position, o.preimage), LeafInput(position, p.preimage))))
  }

  /** Binding: two accepted openings of one position coincide whole, or `OpeningCollision` exhibits a collision. */
  lemma RootBinds(h: Hashing, root: Root, position: u64, o: Opening, p: Opening)
    requires Accepts(h, root, position, o) && Accepts(h, root, position, p)
    ensures |o.path.siblings| == |p.path.siblings|
    ensures o == p || (OpeningCollision(h, root, position, o, p).Some?
                       && Collides(h, OpeningCollision(h, root, position, o, p).value))
  {
    var c := OpeningCollision(h, root, position, o, p);
    if c.None? {
      var a, b := LeafHash(h, position, o.preimage), LeafHash(h, position, p.preimage);
      var inner, inner' := Climb(h, position, a, o.path.siblings), Climb(h, position, b, p.path.siblings);
      assert Clash(h, RootInput(o.holder, root.slots, inner), RootInput(p.holder, root.slots, inner')).None?;
      RootInputInjective(o.holder, inner, p.holder, inner', root.slots);
      ClimbBinds(h, position, a, o.path.siblings, b, p.path.siblings);
      LeafInputInjective(position, o.preimage, p.preimage);
    }
  }

  /**
   * A tree's root accepts only the tree's own preimage, holder and path at a slot, or `OpeningCollision` exhibits a
   * collision with them.
   */
  lemma TreeHasOneOpening(h: Hashing, t: OneTimeTree, position: u64, o: Opening)
    requires Built(h, t) && Accepts(h, RootOf(h, t), position, o)
    ensures position < t.slots && position < |t.layers[0]|
    ensures var own := Opening(t.holder, DerivePreimage(h, t.seed, position),
                               MerklePath(SiblingsFrom(t.layers, 0, position)));
      && |o.path.siblings| == |own.path.siblings|
      && (o == own || (OpeningCollision(h, RootOf(h, t), position, o, own).Some?
                       && Collides(h, OpeningCollision(h, RootOf(h, t), position, o, own).value)))
  {
    OpeningsVerify(h, t, position);
    var own := Opening(t.holder, DerivePreimage(h, t.seed, position), MerklePath(SiblingsFrom(t.layers, 0, position)));
    RootBinds(h, RootOf(h, t), position, o, own);
  }
}
