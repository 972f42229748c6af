/** Blocks and their fixed-width encoding. */
module Blocks {
  import opened Bytes

  const VALIDATOR_RESOURCE_BUDGET: u64 := 1
  const VIEW_CHANGE_SUBJECT_COST: u64 := U64_MAX

  datatype Parent = Genesis | Value(val: Bytes32)

  datatype Block = Block(height: u64, val: Bytes32, parent: Parent, cost: u64) {
    predicate WithinBudget() {
      cost <= VALIDATOR_RESOURCE_BUDGET
    }

    predicate IsAdmissible() {
      WithinBudget() || cost == VIEW_CHANGE_SUBJECT_COST
    }

    function ToBytes(): (s: seq<u8>)
      ensures |s| == 81
    {
      LittleEndian(height, 8) + val + ParentBytes(parent) + LittleEndian(cost, 8)
    }
  }

  function ParentBytes(p: Parent): (s: seq<u8>)
    ensures |s| == 33
  {
    match p
    case Genesis => [0] + seq(32, _ => 0)
    case Value(v) => [1] + v
  }

  lemma ParentBytesInjective(p: Parent, q: Parent)
    requires ParentBytes(p) == ParentBytes(q)
    ensures p == q
  {
    assert ParentBytes(p)[0] == ParentBytes(q)[0];
    if p.Value? {
      SplitConcat([1], p.val, [1], q.val);
    }
  }

  /** Different blocks encode differently, so a hash or signature over the encoding names one block. */
  lemma ToBytesInjective(a: Block, b: Block)
    requires a.ToBytes() == b.ToBytes()
    ensures a == b
  {
    var a1, b1 := LittleEndian(a.height, 8), LittleEndian(b.height, 8);
    SplitConcat(a1 + a.val + ParentBytes(a.parent), LittleEndian(a.cost, 8), b1 + b.val + ParentBytes(b.parent),
                LittleEndian(b.cost, 8));
    SplitConcat(a1 + a.val, ParentBytes(a.parent), b1 + b.val, ParentBytes(b.parent));
    SplitConcat(a1, a.val, b1, b.val);
    U64Injective(a.height, b.height);
    U64Injective(a.cost, b.cost);
    ParentBytesInjective(a.parent, b.parent);
  }
}
