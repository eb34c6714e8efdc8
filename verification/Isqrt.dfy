/** The bit-by-bit integer square root that weighs stakes in the fault market. */
module Isqrt {
  import opened Machine

  /** The integer square root, counted up one number at a time. */
  function IntSqrt(n: nat): (r: nat)
    ensures r * r <= n < (r + 1) * (r + 1)
  {
    if n == 0 then 0
    else
      var r := IntSqrt(n - 1);
      if (r + 1) * (r + 1) <= n then r + 1 else r
  }

  lemma SquareMonotone(a: nat, b: nat)
    ensures a <= b ==> a * a <= b * b
  {
    if a <= b {
      assert a * a <= a * b <= b * b;
    }
  }

  lemma SqrtUnique(n: nat, r: nat)
    requires r * r <= n < (r + 1) * (r + 1)
    ensures r == IntSqrt(n)
  {
    var q := IntSqrt(n);
    SquareMonotone(r + 1, q);
    SquareMonotone(q + 1, r);
  }

  /** A larger stake never has a smaller weight. */
  lemma SqrtMonotone(m: nat, n: nat)
    requires m <= n
    ensures IntSqrt(m) <= IntSqrt(n)
  {
    SquareMonotone(IntSqrt(n) + 1, IntSqrt(m));
  }

  lemma Pow2Values()
    ensures Pow2(31) == 0x8000_0000
  {
    assert Pow2(10) == 1024;
    assert Pow2(20) == 0x10_0000 by { assert Pow2(15) == 0x8000; }
    assert Pow2(30) == 0x4000_0000 by { assert Pow2(25) == 0x200_0000; }
  }

  lemma QuarterOfSquare(k: nat)
    ensures Pow2(k) * Pow2(k) / 4 == if k == 0 then 0 else Pow2(k - 1) * Pow2(k - 1)
  {
    if k > 0 {
      var h := Pow2(k - 1);
      assert Pow2(k) * Pow2(k) == 4 * (h * h);
    }
  }

  /** The trial subtrahend `2*root*b + b*b` stays below 2^63 while `root + 2*b <= 2^32`. */
  lemma TrialFits(root: nat, b: nat)
    requires root + 2 * b <= 0x1_0000_0000
    ensures 2 * root * b + b * b < 0x8000_0000_0000_0000
  {
    var m := 0x1_0000_0000;
    assert 2 * root * b + b * b <= b * (2 * m - 3 * b) by {
      assert 2 * root * b + b * b == b * (2 * root + b);
      assert 2 * root + b <= 2 * m - 3 * b;
    }
    assert (3 * b - m) * (3 * b - m) >= 0;
    assert (3 * b - m) * (3 * b - m) == 9 * b * b - 6 * b * m + m * m;
    assert 3 * (b * (2 * m - 3 * b)) == 6 * b * m - 9 * b * b;
  }

  lemma TrialStep(root: nat, b: nat)
    ensures (root + b) * (root + b) == root * root + (2 * root * b + b * b)
    ensures (2 * root * b) / 2 == root * b
  {
    assert 2 * root * b == 2 * (root * b);
  }

  /** Loop state: with `bit = b*b` for `b = 2^k`, `res` is `2*root*b` for the partial root
      found so far, which is within `2*b` of the true root. At the end `res` is the root. */
  ghost predicate Partial(n: nat, k: int, bit: nat, res: nat, rem: int, root: nat) {
    && k >= -1
    && root * root <= n
    && rem == n - root * root
    && if k < 0 then
         bit == 0 && res == root && n < (root + 1) * (root + 1)
       else
         var b := Pow2(k);
         && bit == b * b
         && res == 2 * root * b
         && n < (root + 2 * b) * (root + 2 * b)
         && root + 2 * b <= 0x1_0000_0000
  }

  lemma TakeOne(n: nat, k: nat, bit: nat, res: nat, rem: int, root: nat)
    requires Partial(n, k, bit, res, rem, root)
    requires rem >= res + bit
    ensures Partial(n, k - 1, bit / 4, res / 2 + bit, rem - (res + bit), root + Pow2(k))
  {
    var b := Pow2(k);
    var next := root + b;
    TrialStep(root, b);
    QuarterOfSquare(k);
    if k > 0 {
      var h := Pow2(k - 1);
      assert res / 2 + bit == 2 * next * h by { Halve(root, b, h); }
      assert next + 2 * h == root + 2 * b;
    } else {
      assert next + 1 == root + 2 * b;
      assert res / 2 + bit == next;
    }
  }

  lemma TakeZero(n: nat, k: nat, bit: nat, res: nat, rem: int, root: nat)
    requires Partial(n, k, bit, res, rem, root)
    requires rem < res + bit
    ensures Partial(n, k - 1, bit / 4, res / 2, rem, root)
  {
    var b := Pow2(k);
    TrialStep(root, b);
    QuarterOfSquare(k);
    if k > 0 {
      var h := Pow2(k - 1);
      assert res / 2 == 2 * root * h by { Halve(root, b, h); }
      assert root + 2 * h == root + b;
    } else {
      assert root + 1 == root + b;
      assert res / 2 == root;
    }
  }

  lemma Halve(root: nat, b: nat, h: nat)
    requires b == 2 * h
    ensures root * b == 2 * root * h
    ensures root * b + b * b == 2 * (root + b) * h
  {
  }

  lemma PartialStart(n: u64) returns (k: int)
    ensures Partial(n, k, 0x4000_0000_0000_0000, 0, n, 0)
  {
    Pow2Values();
    k := 31;
  }

  /** No intermediate sum overflows, and the loop ends exactly when the digits run out. */
  lemma PartialBounds(n: u64, k: int, bit: nat, res: nat, rem: int, root: nat)
    requires Partial(n, k, bit, res, rem, root)
    ensures bit != 0 <==> k >= 0
    ensures res + bit < 0x8000_0000_0000_0000
    ensures 0 <= rem <= n
    ensures k < 0 ==> res == IntSqrt(n)
  {
    if k >= 0 {
      TrialFits(root, Pow2(k));
    } else {
      SqrtUnique(n, res);
      SquareMonotone(0x1_0000_0000, root);
    }
  }

  method ISqrtU64(n: u64) returns (res: u64)
    ensures res == IntSqrt(n)
  {
    res := 0;
    var bit: u64 := 0x4000_0000_0000_0000;
    ghost var k := PartialStart(n);
    while bit > n
      invariant Partial(n, k, bit, 0, n, 0)
      decreases bit
    {
      PartialBounds(n, k, bit, 0, n, 0);
      TakeZero(n, k, bit, 0, n, 0);
      bit, k := bit / 4, k - 1;
    }
    var rem: u64 := n;
    ghost var root: nat := 0;
    while bit != 0
      invariant Partial(n, k, bit, res, rem, root)
      decreases bit
    {
      PartialBounds(n, k, bit, res, rem, root);
      if rem >= res + bit {
        TakeOne(n, k, bit, res, rem, root);
        rem, res, root := rem - (res + bit), res / 2 + bit, root + Pow2(k);
      } else {
        TakeZero(n, k, bit, res, rem, root);
        res := res / 2;
      }
      bit, k := bit / 4, k - 1;
    }
    PartialBounds(n, k, bit, res, rem, root);
  }
}
