/** Optional values, as the source's `Option`. */
module Wrappers {
  datatype Option<+T> = None | Some(value: T)
}

/** Machine integers, byte strings and the fixed-width encodings that every hash and signature input is built from. */
module Bytes {
  type u8 = x: int | 0 <= x < 0x100
  type u64 = x: int | 0 <= x < 0x1_0000_0000_0000_0000
  type u128 = x: int | 0 <= x < 0x1_0000_0000_0000_0000_0000_0000_0000_0000

  const U64_MAX: u64 := 0xFFFF_FFFF_FFFF_FFFF
  const U128_MAX: u128 := 0xFFFF_FFFF_FFFF_FFFF_FFFF_FFFF_FFFF_FFFF

  type Bytes32 = s: seq<u8> | |s| == 32 witness seq(32, _ => 0)

  function Ascii(s: string): seq<u8> {
    seq(|s|, i requires 0 <= i < |s| => (s[i] as int) % 0x100)
  }

  function SatAdd128(x: u128, y: u128): u128 {
    if x + y > U128_MAX then U128_MAX else x + y
  }

  function SatMul128(x: u128, y: nat): u128 {
    if x * y > U128_MAX then U128_MAX else x * y
  }

  function SatSub(x: nat, y: nat): nat {
    if x < y then 0 else x - y
  }

  function Pow256(n: nat): nat {
    if n == 0 then 1 else 256 * Pow256(n - 1)
  }

  /** `to_le_bytes` at a width of n bytes. */
  function LittleEndian(x: nat, n: nat): (s: seq<u8>)
    ensures |s| == n
  {
    if n == 0 then [] else [x % 256] + LittleEndian(x / 256, n - 1)
  }

  lemma {:induction false} LittleEndianInjective(x: nat, y: nat, n: nat)
    requires x < Pow256(n) && y < Pow256(n)
    requires LittleEndian(x, n) == LittleEndian(y, n)
    ensures x == y
  {
    if n > 0 {
      var s, t := LittleEndian(x, n), LittleEndian(y, n);
      assert s[0] == x % 256 && t[0] == y % 256;
      assert s[1..] == LittleEndian(x / 256, n - 1) && t[1..] == LittleEndian(y / 256, n - 1);
      LittleEndianInjective(x / 256, y / 256, n - 1);
    }
  }

  lemma WidthsFit()
    ensures Pow256(8) == 0x1_0000_0000_0000_0000
    ensures Pow256(16) == 0x1_0000_0000_0000_0000_0000_0000_0000_0000
  {
    assert Pow256(4) == 0x1_0000_0000;
    assert Pow256(8) == 0x1_0000_0000_0000_0000;
    assert Pow256(12) == 0x1_0000_0000_0000_0000_0000_0000;
  }

  lemma U64Injective(x: u64, y: u64)
    requires LittleEndian(x, 8) == LittleEndian(y, 8)
    ensures x == y
  {
    WidthsFit();
    LittleEndianInjective(x, y, 8);
  }

  lemma U128Injective(x: u128, y: u128)
    requires LittleEndian(x, 16) == LittleEndian(y, 16)
    ensures x == y
  {
    WidthsFit();
    LittleEndianInjective(x, y, 16);
  }

  lemma Reassociate<T>(a: seq<T>, b: seq<T>, c: seq<T>)
    ensures (a + b) + c == a + (b + c)
  {
  }

  /** Two equal concatenations split alike when their heads have one length. */
  lemma SplitConcat<T>(a: seq<T>, b: seq<T>, c: seq<T>, d: seq<T>)
    requires |a| == |c| && a + b == c + d
    ensures a == c && b == d
  {
    assert a == (a + b)[..|a|] && c == (c + d)[..|c|];
    assert b == (a + b)[|a|..] && d == (c + d)[|c|..];
  }

  /** The lexicographic order on byte strings. */
  predicate LexLeq(a: seq<u8>, b: seq<u8>) {
    a == [] || (b != [] && (a[0] < b[0] || (a[0] == b[0] && LexLeq(a[1..], b[1..]))))
  }

  lemma {:induction false} LexTotal(a: seq<u8>, b: seq<u8>)
    ensures LexLeq(a, b) || LexLeq(b, a)
  {
    if a != [] && b != [] { LexTotal(a[1..], b[1..]); }
  }

  lemma {:induction false} LexAntisymmetric(a: seq<u8>, b: seq<u8>)
    requires LexLeq(a, b) && LexLeq(b, a)
    ensures a == b
  {
    if a != [] && b != [] {
      LexAntisymmetric(a[1..], b[1..]);
      assert a == [a[0]] + a[1..] && b == [b[0]] + b[1..];
    }
  }

  lemma {:induction false} LexTransitive(a: seq<u8>, b: seq<u8>, c: seq<u8>)
    requires LexLeq(a, b) && LexLeq(b, c)
    ensures LexLeq(a, c)
  {
    if a != [] && b != [] && c != [] && a[0] == b[0] == c[0] {
      LexTransitive(a[1..], b[1..], c[1..]);
    }
  }

  /** `x` comes before `y` among byte strings of one length: at the first byte that differs it has the lower. */
  ghost predicate LowerAt(x: seq<u8>, y: seq<u8>, k: nat) {
    k < |x| && k < |y| && x[..k] == y[..k] && x[k] < y[k]
  }

  lemma {:induction false} LowerSomewhere(x: seq<u8>, y: seq<u8>) returns (k: nat)
    requires |x| == |y| && x != y && LexLeq(x, y)
    ensures LowerAt(x, y, k)
  {
    if x[0] == y[0] {
      assert x == [x[0]] + x[1..] && y == [y[0]] + y[1..];
      var j := LowerSomewhere(x[1..], y[1..]);
      k := j + 1;
      assert x[..k] == [x[0]] + x[1..][..j] && y[..k] == [y[0]] + y[1..][..j];
    } else {
      k := 0;
    }
  }

  lemma {:induction false} LowerIsLeq(x: seq<u8>, y: seq<u8>, k: nat)
    requires LowerAt(x, y, k)
    ensures LexLeq(x, y)
  {
    if k > 0 {
      assert x[..k][0] == y[..k][0] && x[1..][..k - 1] == x[..k][1..] && y[1..][..k - 1] == y[..k][1..];
      LowerIsLeq(x[1..], y[1..], k - 1);
    }
  }

  /** The order is that of the first byte that differs. */
  lemma LexExactly(x: seq<u8>, y: seq<u8>)
    requires |x| == |y|
    ensures LexLeq(x, y) <==> x == y || exists k :: LowerAt(x, y, k)
  {
    LexTotal(x, x);
    if LexLeq(x, y) && x != y {
      var k := LowerSomewhere(x, y);
    }
    if k: nat :| LowerAt(x, y, k) {
      LowerIsLeq(x, y, k);
    }
  }
}
