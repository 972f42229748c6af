/**
 * The leader race's fixed-point logarithm, for any number F of fraction bits. The source runs it at F = 48.
 */
module LeaderLog {
  import opened Bytes
  import opened Powers

  const LEADER_SCORE_FRAC_BITS: nat := 48

  function Pow(x: nat, n: nat): nat {
    if n == 0 then 1 else x * Pow(x, n - 1)
  }

  /** The index of the highest set bit of v. */
  function FloorLog2(v: nat): (l: nat)
    requires v >= 1
    ensures Pow2(l) <= v < 2 * Pow2(l)
  {
    if v == 1 then 0 else 1 + FloorLog2(v / 2)
  }

  /** v scaled to have its highest bit at index F, low bits cut off. */
  function Normalized(F: nat, v: nat): (m: nat)
    requires v >= 1
  {
    var l := FloorLog2(v);
    if l <= F then v * Pow2(F - l) else v / Pow2(l - F)
  }

  /** One round: square the mantissa, cut it to F fraction bits, halve it when it has reached two. */
  function NextBit(F: nat, m: nat): nat {
    if m * m / Pow2(F) >= 2 * Pow2(F) then 1 else 0
  }

  function NextMantissa(F: nat, m: nat): nat {
    var sq := m * m / Pow2(F);
    if sq >= 2 * Pow2(F) then sq / 2 else sq
  }

  /** The exponent after n rounds: each appends the round's bit. */
  function Exponent(F: nat, e: nat, m: nat, n: nat): nat
    decreases n
  {
    if n == 0 then e else Exponent(F, 2 * e + NextBit(F, m), NextMantissa(F, m), n - 1)
  }

  /** The base two logarithm of v with F fraction bits, as the source computes it. */
  function FixedLog2(F: nat, v: nat): nat
    requires v >= 1
  {
    Exponent(F, FloorLog2(v), Normalized(F, v), F)
  }

  // ---- the mantissa stays normalized ----

  lemma MulMonotone(a: nat, b: nat, c: nat, d: nat)
    requires a <= b && c <= d
    ensures a * c <= b * d
  {
    assert a * c <= b * c <= b * d;
  }

  lemma DivideBounds(a: nat, b: nat)
    requires b >= 1
    ensures (a / b) * b <= a < (a / b + 1) * b
  {
    assert a == (a / b) * b + a % b;
  }

  lemma DivideAtLeast(a: nat, b: nat, q: nat)
    requires b >= 1 && q * b <= a
    ensures q <= a / b
  {
    DivideBounds(a, b);
    if a / b + 1 <= q { MulMonotone(a / b + 1, q, b, b); }
  }

  lemma DivideBelow(a: nat, b: nat, q: nat)
    requires b >= 1 && a < q * b
    ensures a / b < q
  {
    DivideBounds(a, b);
    if q <= a / b { MulMonotone(q, a / b, b, b); }
  }

  lemma ScaleBounds(a: nat, v: nat, p: nat)
    requires a <= v < 2 * a && p >= 1
    ensures a * p <= v * p < 2 * (a * p)
  {
    MulMonotone(a, v, p, p);
    MulMonotone(v + 1, 2 * a, p, p);
  }

  lemma ShrinkBounds(x: nat, v: nat, p: nat)
    requires p >= 1 && x * p <= v < 2 * (x * p)
    ensures x <= v / p < 2 * x
  {
    DivideAtLeast(v, p, x);
    assert 2 * (x * p) == (2 * x) * p;
    DivideBelow(v, p, 2 * x);
  }

  lemma NormalizedInRange(F: nat, v: nat)
    requires v >= 1
    ensures Pow2(F) <= Normalized(F, v) < 2 * Pow2(F)
  {
    var l := FloorLog2(v);
    if l <= F {
      Pow2Adds(l, F - l);
      ScaleBounds(Pow2(l), v, Pow2(F - l));
    } else {
      Pow2Adds(F, l - F);
      ShrinkBounds(Pow2(F), v, Pow2(l - F));
    }
  }

  lemma StepInRange(F: nat, m: nat)
    requires Pow2(F) <= m < 2 * Pow2(F)
    ensures Pow2(F) <= NextMantissa(F, m) < 2 * Pow2(F)
  {
    var X := Pow2(F);
    var sq := m * m / X;
    MulMonotone(X, m, X, m);
    DivideAtLeast(m * m, X, X);
    assert m * m < (4 * X) * X by {
      MulMonotone(m, 2 * X - 1, m, 2 * X - 1);
      assert (2 * X - 1) * (2 * X - 1) == 4 * X * X - 4 * X + 1;
    }
    DivideBelow(m * m, X, 4 * X);
  }

  // ---- the fixed-point value never exceeds the true logarithm ----

  lemma {:induction false} PowAdds(x: nat, m: nat, n: nat)
    ensures Pow(x, m + n) == Pow(x, m) * Pow(x, n)
  {
    if m == 0 {
    } else {
      PowAdds(x, m - 1, n);
      assert x * (Pow(x, m - 1) * Pow(x, n)) == (x * Pow(x, m - 1)) * Pow(x, n);
    }
  }

  lemma {:induction false} PowOfSquare(v: nat, n: nat)
    ensures Pow(v * v, n) == Pow(v, 2 * n)
  {
    if n > 0 {
      PowOfSquare(v, n - 1);
      assert Pow(v, 2 * n) == v * Pow(v, 2 * n - 1) == v * (v * Pow(v, 2 * n - 2));
      assert v * v * Pow(v, 2 * n - 2) == v * (v * Pow(v, 2 * n - 2));
    }
  }

  lemma Pow2Doubles(e: nat, bit: nat)
    requires bit <= 1
    ensures Pow2(2 * e + bit) == Pow2(e) * Pow2(e) * Pow2(bit)
  {
    Pow2Adds(e, e);
    Pow2Adds(2 * e, bit);
  }

  /** A round never gains: the new mantissa is at most the square it stands for. */
  lemma StepFromBelow(F: nat, m: nat)
    ensures NextMantissa(F, m) * Pow2(NextBit(F, m)) * Pow2(F) <= m * m
  {
    var X := Pow2(F);
    var sq := m * m / X;
    DivideBounds(m * m, X);
    assert Pow2(1) == 2 && Pow2(0) == 1;
    MulMonotone(NextMantissa(F, m) * Pow2(NextBit(F, m)), sq, X, X);
  }

  lemma CancelFactor(a: nat, b: nat, x: nat)
    requires x >= 1 && a * x <= b * x
    ensures a <= b
  {
    assert (b + 1) * x == b * x + x;
    if b < a { MulMonotone(b + 1, a, x, x); }
  }

  lemma LowerStep(V: nat, X: nat, p: nat, m: nat, q: nat, r: nat)
    requires X >= 1 && p * m <= V * X && q * r * X <= m * m
    ensures p * p * r * q <= V * V * X
  {
    MulMonotone(p * m, V * X, p * m, V * X);
    MulMonotone(p * p, p * p, q * r * X, m * m);
    assert p * p * (m * m) == (p * m) * (p * m);
    assert (V * X) * (V * X) == (V * V * X) * X;
    assert p * p * (q * r * X) == (p * p * r * q) * X;
    CancelFactor(p * p * r * q, V * V * X, X);
  }

  lemma {:induction false} LowerBound(F: nat, V: nat, e: nat, m: nat, n: nat)
    requires Pow2(F) <= m < 2 * Pow2(F)
    requires Pow2(e) * m <= V * Pow2(F)
    ensures Pow2(Exponent(F, e, m, n)) <= Pow(V, Pow2(n))
    decreases n
  {
    var X := Pow2(F);
    if n == 0 {
      MulMonotone(Pow2(e), Pow2(e), X, m);
      CancelFactor(Pow2(e), V, X);
      assert Pow(V, 1) == V;
    } else {
      var bit, next := NextBit(F, m), NextMantissa(F, m);
      StepInRange(F, m);
      StepFromBelow(F, m);
      Pow2Doubles(e, bit);
      LowerStep(V, X, Pow2(e), m, next, Pow2(bit));
      LowerBound(F, V * V, 2 * e + bit, next, n - 1);
      PowOfSquare(V, Pow2(n - 1));
    }
  }

  // ---- and falls short of it by less than four units in the last place ----

  lemma AboveStep(sq: nat, mm: nat, next: nat, r: nat, X: nat)
    requires mm <= (sq + 1) * X && sq + 1 <= (next + 1) * r && X <= next
    ensures mm <= next * (X + 1) * r
  {
    MulMonotone(sq + 1, (next + 1) * r, X, X);
    assert (next + 1) * r * X == ((next + 1) * X) * r;
    assert (next + 1) * X == next * X + X;
    assert next * (X + 1) == next * X + next;
    MulMonotone((next + 1) * X, next * (X + 1), r, r);
  }

  lemma StepFromAbove(F: nat, m: nat)
    requires Pow2(F) <= m < 2 * Pow2(F)
    ensures m * m <= NextMantissa(F, m) * (Pow2(F) + 1) * Pow2(NextBit(F, m))
  {
    var X := Pow2(F);
    var sq := m * m / X;
    DivideBounds(m * m, X);
    StepInRange(F, m);
    assert Pow2(1) == 2 && Pow2(0) == 1;
    AboveStep(sq, m * m, NextMantissa(F, m), Pow2(NextBit(F, m)), X);
  }

  lemma UpperStep(V: nat, X: nat, A: nat, p: nat, m: nat, B: nat, q: nat, r: nat)
    requires V * X * A <= p * m * B && m * m <= q * (X + 1) * r
    ensures V * V * X * (X * (A * A)) <= p * p * r * q * ((X + 1) * (B * B))
  {
    MulMonotone(V * X * A, p * m * B, V * X * A, p * m * B);
    SquareLeft(V, X, A);
    SquareRight(p, m, B);
    MulMonotone(p * p * (B * B), p * p * (B * B), m * m, q * (X + 1) * r);
    Regroup(p, B * B, q, X + 1, r);
  }

  lemma SquareLeft(V: nat, X: nat, A: nat)
    ensures (V * X * A) * (V * X * A) == V * V * X * (X * (A * A))
  {
  }

  lemma SquareRight(p: nat, m: nat, B: nat)
    ensures (p * m * B) * (p * m * B) == (p * p * (B * B)) * (m * m)
  {
  }

  lemma Regroup(p: nat, b: nat, q: nat, x: nat, r: nat)
    ensures (p * p * b) * (q * x * r) == p * p * r * q * (x * b)
  {
  }

  lemma PowOdd(x: nat, k: nat)
    ensures Pow(x, 2 * k + 1) == x * (Pow(x, k) * Pow(x, k))
  {
    PowAdds(x, k, k);
  }

  function FinalMantissa(F: nat, m: nat, n: nat): nat
    decreases n
  {
    if n == 0 then m else FinalMantissa(F, NextMantissa(F, m), n - 1)
  }

  /** V is at most 2^e * m/X, up to K factors of 1 + 1/X. */
  ghost predicate ShortBy(F: nat, V: nat, e: nat, m: nat, K: nat) {
    V * Pow2(F) * Pow(Pow2(F), K) <= Pow2(e) * m * Pow(Pow2(F) + 1, K)
  }

  /** The losses after n rounds: each round squares the ones before it and adds one. */
  function Losses(K: nat, n: nat): nat
    decreases n
  {
    if n == 0 then K else Losses(2 * K + 1, n - 1)
  }

  lemma {:induction false} LossCount(K: nat, n: nat)
    ensures Losses(K, n) + 1 == (K + 1) * Pow2(n)
    decreases n
  {
    if n > 0 {
      LossCount(2 * K + 1, n - 1);
    }
  }

  lemma {:induction false} UpperBound(F: nat, V: nat, e: nat, m: nat, n: nat, K: nat)
    requires Pow2(F) <= m < 2 * Pow2(F)
    requires ShortBy(F, V, e, m, K)
    ensures Pow2(F) <= FinalMantissa(F, m, n) < 2 * Pow2(F)
    ensures ShortBy(F, Pow(V, Pow2(n)), Exponent(F, e, m, n), FinalMantissa(F, m, n), Losses(K, n))
    decreases n
  {
    if n == 0 {
      assert Pow(V, 1) == V;
    } else {
      StepInRange(F, m);
      UpperRound(F, V, e, m, K);
      UpperBound(F, V * V, 2 * e + NextBit(F, m), NextMantissa(F, m), n - 1, 2 * K + 1);
      PowOfSquare(V, Pow2(n - 1));
    }
  }

  lemma UpperRound(F: nat, V: nat, e: nat, m: nat, K: nat)
    requires Pow2(F) <= m < 2 * Pow2(F)
    requires ShortBy(F, V, e, m, K)
    ensures ShortBy(F, V * V, 2 * e + NextBit(F, m), NextMantissa(F, m), 2 * K + 1)
  {
    var X, bit := Pow2(F), NextBit(F, m);
    StepFromAbove(F, m);
    Pow2Doubles(e, bit);
    UpperStep(V, X, Pow(X, K), Pow2(e), m, Pow(X + 1, K), NextMantissa(F, m), Pow2(bit));
    PowOdd(X, K);
    PowOdd(X + 1, K);
  }

  lemma BernoulliStep(X: nat, d: nat, P: nat, Q: nat)
    requires P * (d + 1) <= Q && d < X
    ensures (X + 1) * P * d <= X * Q
  {
    assert (X + 1) * d == X * d + d;
    assert X * (d + 1) == X * d + X;
    MulMonotone(P, P, (X + 1) * d, X * (d + 1));
    assert (X + 1) * P * d == P * ((X + 1) * d);
    assert P * (X * (d + 1)) == X * (P * (d + 1));
    MulMonotone(X, X, P * (d + 1), Q);
  }

  /** (1 + 1/X)^j <= X / (X - j). */
  lemma {:induction false} Bernoulli(X: nat, j: nat)
    requires j <= X
    ensures Pow(X + 1, j) * (X - j) <= Pow(X, j + 1)
  {
    if j == 0 {
      assert Pow(X, 1) == X;
    } else {
      Bernoulli(X, j - 1);
      BernoulliStep(X, X - j, Pow(X + 1, j - 1), Pow(X, j));
    }
  }

  lemma SquareRatio(a: nat, P: nat, b: nat, Q: nat)
    requires a * P <= b * Q
    ensures (a * a) * (P * P) <= (b * b) * (Q * Q)
  {
    MulMonotone(a * P, b * Q, a * P, b * Q);
    assert (a * P) * (a * P) == (a * a) * (P * P);
    assert (b * Q) * (b * Q) == (b * b) * (Q * Q);
  }

  function Squared(x: nat, k: nat): nat
    decreases k
  {
    if k == 0 then x else Squared(x * x, k - 1)
  }

  lemma {:induction false} SquaredRatio(a: nat, P: nat, b: nat, Q: nat, k: nat)
    requires a * P <= b * Q
    ensures Squared(a, k) * Squared(P, k) <= Squared(b, k) * Squared(Q, k)
    decreases k
  {
    if k > 0 {
      SquareRatio(a, P, b, Q);
      SquaredRatio(a * a, P * P, b * b, Q * Q, k - 1);
    }
  }

  lemma {:induction false} SquaredIsPow(x: nat, j: nat, k: nat)
    ensures Squared(Pow(x, j), k) == Pow(x, j * Pow2(k))
    decreases k
  {
    if k > 0 {
      PowAdds(x, j, j);
      SquaredIsPow(x, 2 * j, k - 1);
      assert 2 * j * Pow2(k - 1) == j * Pow2(k);
    }
  }

  lemma Constants()
    ensures Squared(15, 5) == 43143988327398919500410556793212890625
    ensures Squared(16, 5) == 340282366920938463463374607431768211456
  {
    assert Squared(15, 5) == Squared(225, 4) == Squared(50625, 3) == Squared(2562890625, 2);
    assert Squared(16, 5) == Squared(256, 4) == Squared(65536, 3) == Squared(4294967296, 2);
  }

  lemma RaisedTo32(X: nat, J: nat, P: nat, Q: nat)
    requires X >= 1 && P == Pow(X + 1, J) && Q == Pow(X, J) && 15 * P <= 16 * Q
    ensures Pow(X + 1, J * 32) < 8 * Pow(X, J * 32)
  {
    SquaredRatio(15, P, 16, Q, 5);
    SquaredIsPow(X + 1, J, 5);
    SquaredIsPow(X, J, 5);
    assert Pow2(5) == 32;
    Constants();
    PowPositive(X, J * 32);
  }

  /** (1 + 1/X)^(2X) < 8 for every multiple X of sixteen. */
  lemma LossBelowEight(X: nat, J: nat)
    requires J >= 1 && X == 16 * J
    ensures Pow(X + 1, 2 * X) < 8 * Pow(X, 2 * X)
  {
    Bernoulli(X, J);
    var P, Q := Pow(X + 1, J), Pow(X, J);
    assert P * (X - J) <= X * Q by { PowNext(X, J); }
    Factor15(P, Q, J);
    RaisedTo32(X, J, P, Q);
  }

  lemma Factor15(P: nat, Q: nat, J: nat)
    requires J >= 1 && P * (16 * J - J) <= 16 * J * Q
    ensures 15 * P <= 16 * Q
  {
    assert P * (15 * J) == (15 * P) * J && 16 * J * Q == (16 * Q) * J;
    CancelFactor(15 * P, 16 * Q, J);
  }

  lemma {:induction false} PowPositive(x: nat, n: nat)
    requires x >= 1
    ensures Pow(x, n) >= 1
  {
    if n > 0 { PowPositive(x, n - 1); MulMonotone(1, x, 1, Pow(x, n - 1)); }
  }

  lemma BaseExact(F: nat, v: nat, l: nat)
    requires l <= F
    ensures Pow2(l) * (v * Pow2(F - l)) <= v * Pow2(F)
    ensures v * Pow2(F) * Pow2(F) <= Pow2(l) * (v * Pow2(F - l)) * (Pow2(F) + 1)
  {
    Pow2Adds(l, F - l);
    ExactBounds(v, Pow2(F), Pow2(l), Pow2(F - l));
  }

  lemma BaseCut(F: nat, v: nat, l: nat, m: nat)
    requires l > F && m == v / Pow2(l - F) && Pow2(F) <= m
    ensures Pow2(l) * m <= v * Pow2(F)
    ensures v * Pow2(F) * Pow2(F) <= Pow2(l) * m * (Pow2(F) + 1)
  {
    Pow2Adds(F, l - F);
    DivideBounds(v, Pow2(l - F));
    CutBounds(v, Pow2(F), Pow2(l - F), m);
  }

  lemma BaseBounds(F: nat, v: nat)
    requires v >= 1
    ensures Pow2(FloorLog2(v)) * Normalized(F, v) <= v * Pow2(F)
    ensures ShortBy(F, v, FloorLog2(v), Normalized(F, v), 1)
  {
    var l := FloorLog2(v);
    if l <= F {
      BaseExact(F, v, l);
    } else {
      NormalizedInRange(F, v);
      BaseCut(F, v, l, v / Pow2(l - F));
    }
    ShortByOne(F, v, l, Normalized(F, v));
  }

  lemma ShortByOne(F: nat, v: nat, e: nat, m: nat)
    requires v * Pow2(F) * Pow2(F) <= Pow2(e) * m * (Pow2(F) + 1)
    ensures ShortBy(F, v, e, m, 1)
  {
    PowOne(Pow2(F));
    PowOne(Pow2(F) + 1);
  }

  lemma PowOne(x: nat)
    ensures Pow(x, 1) == x
  {
  }

  lemma ExactBounds(v: nat, X: nat, p: nat, q: nat)
    requires p * q == X
    ensures p * (v * q) == v * X
    ensures v * X * X <= p * (v * q) * (X + 1)
  {
    assert p * (v * q) == v * (p * q);
    MulMonotone(v * X, v * X, X, X + 1);
  }

  lemma CutBounds(v: nat, X: nat, q: nat, m: nat)
    requires m * q <= v <= (m + 1) * q && X <= m
    ensures X * q * m <= v * X
    ensures v * X * X <= X * q * m * (X + 1)
  {
    MulMonotone(m * q, v, X, X);
    assert m * q * X == X * q * m;
    CutUpper(v, X, q, m);
  }

  lemma CutUpper(v: nat, X: nat, q: nat, m: nat)
    requires v <= (m + 1) * q && X <= m
    ensures v * X * X <= X * q * m * (X + 1)
  {
    MulMonotone(v, (m + 1) * q, X, X);
    MulMonotone(v * X, (m + 1) * q * X, X, X);
    assert (m + 1) * q * X * X == X * q * ((m + 1) * X);
    assert (m + 1) * X == m * X + X;
    assert m * (X + 1) == m * X + m;
    MulMonotone(X * q, X * q, (m + 1) * X, m * (X + 1));
    assert X * q * (m * (X + 1)) == X * q * m * (X + 1);
  }

  lemma CloseUpper(W: nat, X: nat, A: nat, p: nat, m: nat, B: nat)
    requires W * X * A <= p * m * B && m < 2 * X && p >= 1 && X >= 1
    requires (X + 1) * B < 8 * (X * A)
    ensures W < 16 * p
  {
    assert (X + 1) * B == X * B + B;
    assert X * (8 * A) == 8 * (X * A);
    if 8 * A <= B { MulMonotone(X, X, 8 * A, B); }
    assert B + 1 <= 8 * A;
    MulMonotone(p, p, m, 2 * X);
    MulMonotone(p * m, p * (2 * X), B, 8 * A - 1);
    assert p * (2 * X) * (8 * A - 1) == p * (2 * X) * (8 * A) - p * (2 * X);
    assert p * (2 * X) * (8 * A) == 16 * p * (X * A);
    MulMonotone(1, p, 1, 2 * X);
    assert W * X * A == W * (X * A);
    if 16 * p <= W { MulMonotone(16 * p, W, X * A, X * A); }
  }

  lemma LossesBelowEight(F: nat)
    requires F >= 4
    ensures (Pow2(F) + 1) * Pow(Pow2(F) + 1, Losses(1, F)) < 8 * (Pow2(F) * Pow(Pow2(F), Losses(1, F)))
  {
    var X, K := Pow2(F), Losses(1, F);
    LossCount(1, F);
    Pow2Adds(4, F - 4);
    assert Pow2(4) == 16;
    LossBelowEight(X, Pow2(F - 4));
    assert K + 1 == 2 * X;
    PowNext(X, K);
    PowNext(X + 1, K);
  }

  lemma PowNext(x: nat, k: nat)
    ensures Pow(x, k + 1) == x * Pow(x, k)
  {
  }

  lemma UpperClosed(F: nat, W: nat, L: nat, m: nat)
    requires F >= 4 && m < 2 * Pow2(F)
    requires ShortBy(F, W, L, m, Losses(1, F))
    ensures W < Pow2(L + 4)
  {
    LossesBelowEight(F);
    CloseUpper(W, Pow2(F), Pow(Pow2(F), Losses(1, F)), Pow2(L), m, Pow(Pow2(F) + 1, Losses(1, F)));
    Pow2Adds(L, 4);
    assert Pow2(4) == 16;
  }

  /** The computed logarithm L satisfies L <= 2^F * log2(v) < L + 4. */
  lemma LogErrorBound(F: nat, v: nat)
    requires F >= 4 && v >= 1
    ensures Pow2(FixedLog2(F, v)) <= Pow(v, Pow2(F)) < Pow2(FixedLog2(F, v) + 4)
  {
    var e, m := FloorLog2(v), Normalized(F, v);
    BaseBounds(F, v);
    NormalizedInRange(F, v);
    LowerBound(F, v, e, m, F);
    UpperBound(F, v, e, m, F, 1);
    UpperClosed(F, Pow(v, Pow2(F)), FixedLog2(F, v), FinalMantissa(F, m, F));
  }

  // ---- monotonicity ----

  /** (e, m) is at most (e', m') as exponent-then-mantissa pairs. */
  predicate PairLeq(e: nat, m: nat, e': nat, m': nat) {
    e < e' || (e == e' && m <= m')
  }

  lemma DivideMonotone(a: nat, b: nat, c: nat)
    requires a <= b && c >= 1
    ensures a / c <= b / c
  {
    var q := a / c;
    assert q * c <= a by { DivideBounds(a, c); }
    DivideAtLeast(b, c, q);
  }

  lemma {:induction false} ExponentMonotone(F: nat, e: nat, m: nat, e': nat, m': nat, n: nat)
    requires PairLeq(e, m, e', m')
    ensures Exponent(F, e, m, n) <= Exponent(F, e', m', n)
    decreases n
  {
    if n > 0 {
      if e == e' {
        MulMonotone(m, m', m, m');
        DivideMonotone(m * m, m' * m', Pow2(F));
      }
      ExponentMonotone(F, 2 * e + NextBit(F, m), NextMantissa(F, m), 2 * e' + NextBit(F, m'), NextMantissa(F, m'),
                       n - 1);
    }
  }

  /** A larger value never has a smaller computed logarithm. */
  lemma FixedLog2Monotone(F: nat, v: nat, v': nat)
    requires 1 <= v <= v'
    ensures FixedLog2(F, v) <= FixedLog2(F, v')
  {
    var l, l' := FloorLog2(v), FloorLog2(v');
    if l' < l {
      Pow2Monotone(l' + 1, l);
    }
    if l == l' {
      if l <= F {
        MulMonotone(v, v', Pow2(F - l), Pow2(F - l));
      } else {
        DivideMonotone(v, v', Pow2(l - F));
      }
    }
    ExponentMonotone(F, l, Normalized(F, v), l', Normalized(F, v'), F);
  }

  lemma LogAtMost(L: nat, v: nat, X: nat, k: nat)
    requires v <= Pow2(k) && Pow2(L) <= Pow(v, X)
    ensures L <= k * X
  {
    PowMonotone(v, Pow2(k), X);
    PowOfPow2(k, X);
    Pow2Reflects(L, k * X);
  }

  lemma FixedLog2AtMost(F: nat, v: nat, k: nat)
    requires F >= 4 && 1 <= v <= Pow2(k)
    ensures FixedLog2(F, v) <= k * Pow2(F)
  {
    LogErrorBound(F, v);
    LogAtMost(FixedLog2(F, v), v, Pow2(F), k);
  }

  lemma Pow2Reflects(a: nat, b: nat)
    requires Pow2(a) <= Pow2(b)
    ensures a <= b
  {
    if a > b { Pow2Monotone(b + 1, a); }
  }

  lemma Pow2Of64()
    ensures Pow2(64) == 0x1_0000_0000_0000_0000
    ensures Pow2(48) == 0x1_0000_0000_0000
  {
    assert Pow2(4) == 16;
    Pow2Square(4, 0x10);
    Pow2Square(8, 0x100);
    Pow2Square(16, 0x1_0000);
    Pow2Square(32, 0x1_0000_0000);
    Pow2Adds(16, 32);
  }

  lemma Pow2Square(n: nat, p: nat)
    requires Pow2(n) == p
    ensures Pow2(2 * n) == p * p
  {
    Pow2Adds(n, n);
  }

  lemma {:induction false} PowMonotone(x: nat, y: nat, n: nat)
    requires x <= y
    ensures Pow(x, n) <= Pow(y, n)
  {
    if n > 0 {
      PowMonotone(x, y, n - 1);
      MulMonotone(x, y, Pow(x, n - 1), Pow(y, n - 1));
    }
  }

  lemma {:induction false} PowOfPow2(k: nat, n: nat)
    ensures Pow(Pow2(k), n) == Pow2(k * n)
  {
    if n > 0 {
      PowOfPow2(k, n - 1);
      Pow2Adds(k, k * (n - 1));
      assert k + k * (n - 1) == k * n;
    }
  }

  // ---- the source's loop ----

  /** A draw's value: its first eight bytes, big-endian. */
  function BigEndian(s: seq<u8>): nat {
    if s == [] then 0 else BigEndian(s[..|s| - 1]) * 256 + s[|s| - 1]
  }

  lemma {:induction false} BigEndianFits(s: seq<u8>)
    ensures BigEndian(s) < Pow256(|s|)
  {
    if s != [] {
      BigEndianFits(s[..|s| - 1]);
    }
  }

  function OutputValue(output: Bytes32): u64 {
    BigEndianFits(output[..8]);
    WidthsFit();
    BigEndian(output[..8])
  }

  /** No logarithm of a 64-bit value plus one passes 64, so the source's final subtraction cannot wrap. */
  lemma ScoreFits(F: nat, value: u64)
    requires F >= 4
    ensures FixedLog2(F, value + 1) <= 64 * Pow2(F)
  {
    Pow2Of64();
    FixedLog2AtMost(F, value + 1, 64);
  }

  /** The leader score before weighting: 64 minus the logarithm of value + 1, in units of 2^-F. */
  function NegLog2(F: nat, value: u64): nat
    requires F >= 4
  {
    ScoreFits(F, value);
    64 * Pow2(F) - FixedLog2(F, value + 1)
  }

  /** What keeps one round inside `u128`, and how its bit lands in the padded exponent. */
  lemma RoundFits(F: nat, one: nat, e: nat, m: nat, n: nat)
    requires one == Pow2(F) <= 0x1_0000_0000_0000
    requires one <= m < 2 * one
    ensures m * m <= U128_MAX
    ensures one <= NextMantissa(F, m) < 2 * one
    ensures (2 * e + NextBit(F, m)) * Pow2(n) == e * Pow2(n + 1) + (if NextBit(F, m) == 1 then Pow2(n) else 0)
    ensures (2 * e + NextBit(F, m)) * Pow2(n) <= Exponent(F, e, m, n + 1)
  {
    StepInRange(F, m);
    SquareFits(m);
    BitAppends(e, n);
    BitsSoFar(F, 2 * e + NextBit(F, m), NextMantissa(F, m), n);
  }

  /**
   * The source's loop over `u128` locals: up to 48 fraction bits nothing overflows. The bit set in `log2` is one that
   * is still clear there, so adding it is the source's `|=`.
   */
  method RefineLog2(F: nat, one: u128, start: u128, scaled: u128) returns (log2: u128)
    requires one == Pow2(F) <= 0x1_0000_0000_0000
    requires one <= scaled < 2 * one
    requires Exponent(F, start, scaled, F) <= 64 * one
    ensures log2 == Exponent(F, start, scaled, F)
  {
    var mantissa := scaled;
    BitsSoFar(F, start, scaled, F);
    log2 := start * one;
    ghost var e: nat := start;
    for i := 0 to F
      invariant one <= mantissa < 2 * one
      invariant log2 == e * Pow2(F - i)
      invariant Exponent(F, e, mantissa, F - i) == Exponent(F, start, scaled, F)
    {
      RoundFits(F, one, e, mantissa, F - 1 - i);
      ghost var next, bit := NextMantissa(F, mantissa), NextBit(F, mantissa);
      mantissa := mantissa * mantissa / one;
      if mantissa >= 2 * one {
        mantissa := mantissa / 2;
        log2 := log2 + Pow2(F - 1 - i);
      }
      assert mantissa == next;
      e := 2 * e + bit;
    }
    assert Pow2(0) == 1;
  }

  method NegLog2At(F: nat, value: u64) returns (r: u128)
    requires 4 <= F <= LEADER_SCORE_FRAC_BITS
    ensures r == NegLog2(F, value)
  {
    var one: u128 := PowerAsU128(F);
    var v: u128 := value + 1;
    NormalizedInRange(F, v);
    ScoreFits(F, value);
    BitsSoFar(F, FloorLog2(v), Normalized(F, v), F);
    HighBitFits(v);
    var log2 := RefineLog2(F, one, FloorLog2(v), Normalized(F, v));
    r := 64 * one - log2;
  }

  lemma HighBitFits(v: u128)
    requires v >= 1
    ensures FloorLog2(v) <= U128_MAX
  {
    Pow2AtLeast(FloorLog2(v));
  }

  lemma {:induction false} Pow2AtLeast(n: nat)
    ensures n < Pow2(n)
  {
    if n > 0 { Pow2AtLeast(n - 1); }
  }

  function PowerAsU128(F: nat): (p: u128)
    requires F <= LEADER_SCORE_FRAC_BITS
    ensures p == Pow2(F) <= 0x1_0000_0000_0000
  {
    Pow2Of64();
    Pow2Monotone(F, LEADER_SCORE_FRAC_BITS);
    Pow2(F)
  }

  lemma SquareFits(m: nat)
    requires m < 0x2_0000_0000_0000
    ensures m * m <= U128_MAX
  {
    MulMonotone(m, 0x2_0000_0000_0000, m, 0x2_0000_0000_0000);
  }

  lemma BitAppends(e: nat, n: nat)
    ensures (2 * e) * Pow2(n) == e * Pow2(n + 1)
    ensures (2 * e + 1) * Pow2(n) == e * Pow2(n + 1) + Pow2(n)
  {
  }

  /** The exponent so far, padded with zero bits, never exceeds the final one. */
  lemma {:induction false} BitsSoFar(F: nat, e: nat, m: nat, n: nat)
    ensures e * Pow2(n) <= Exponent(F, e, m, n)
    decreases n
  {
    if n > 0 {
      var e' := 2 * e + NextBit(F, m);
      BitsSoFar(F, e', NextMantissa(F, m), n - 1);
      BitAppends(e, n - 1);
    }
  }

  method LeaderNegLog2(output: Bytes32) returns (r: u128)
    ensures r == NegLog2(LEADER_SCORE_FRAC_BITS, OutputValue(output))
  {
    r := NegLog2At(LEADER_SCORE_FRAC_BITS, OutputValue(output));
  }

  lemma ScoreComplement(F: nat, value: u64)
    requires F >= 4
    ensures NegLog2(F, value) + FixedLog2(F, value + 1) == 64 * Pow2(F)
  {
    ScoreFits(F, value);
  }

  /** A larger draw value never has a larger score. */
  lemma NegLog2Antitone(F: nat, value: u64, value': u64)
    requires F >= 4 && value <= value'
    ensures NegLog2(F, value') <= NegLog2(F, value)
  {
    FixedLog2Monotone(F, value + 1, value' + 1);
    ScoreComplement(F, value);
    ScoreComplement(F, value');
  }

  /**
   * The score is 64 - L, in units of 2^-F, where L falls short of the true logarithm of value + 1 by less than four.
   */
  lemma LeaderScoreError(F: nat, value: u64, L: nat)
    requires F >= 4 && NegLog2(F, value) + L == 64 * Pow2(F)
    ensures Pow2(L) <= Pow(value + 1, Pow2(F)) < Pow2(L + 4)
  {
    hide Pow, Pow2, FixedLog2, NegLog2;
    LogIs(F, value, L);
    LogErrorBound(F, value + 1);
  }

  lemma LogIs(F: nat, value: u64, L: nat)
    requires F >= 4 && NegLog2(F, value) + L == 64 * Pow2(F)
    ensures FixedLog2(F, value + 1) == L
  {
    hide FixedLog2, NegLog2, Pow2;
    ScoreComplement(F, value);
  }
}
