/** The mathematical binomial coefficient that every table in the solver
    approximates in floating point, and the identities the tables rely on. */
module Binomial {

  /** C(n, k): the number of k-element subsets of an n-element set; 0 when
      k lies outside 0..n. */
  function Choose(n: nat, k: int): nat
    decreases n
  {
    if k < 0 || k > n then 0
    else if k == 0 || k == n then 1
    else Choose(n - 1, k - 1) + Choose(n - 1, k)
  }

  /** C(n, k) extended to a negative row, where it is 0. */
  function ChooseInt(n: int, k: int): nat
  {
    if n < 0 then 0 else Choose(n, k)
  }

  /** Pascal's rule holds for every k, including those outside 0..n. */
  lemma Pascal(n: nat, k: int)
    requires n >= 1
    ensures Choose(n, k) == Choose(n - 1, k - 1) + Choose(n - 1, k)
  {
  }

  /** Absorption identity: k * C(n, k) == n * C(n - 1, k - 1). */
  lemma {:induction false} Absorption(n: nat, k: int)
    requires n >= 1
    ensures k * Choose(n, k) == n * Choose(n - 1, k - 1)
  {
    if k <= 0 || k > n {
    } else if n == 1 {
    } else if k == n {
      assert Choose(n - 1, k - 1) == 1;
      assert Choose(n, k) == 1;
    } else {
      Absorption(n - 1, k);
      Absorption(n - 1, k - 1);
      Pascal(n - 1, k - 1);
      var a, b := Choose(n - 1, k - 1), Choose(n - 1, k);
      var p, q := Choose(n - 2, k - 1), Choose(n - 2, k - 2);
      assert Choose(n, k) == a + b;
      assert k * b == (n - 1) * p;
      assert (k - 1) * a == (n - 1) * q;
      assert a == p + q;
      MulAdd(k, a, b);
      MulSucc(k - 1, a);
      MulAdd(n - 1, p, q);
      MulSucc(n - 1, a);
    }
  }

  /** Complement identity: (n - j) * C(n, j) == n * C(n - 1, j). */
  lemma {:induction false} Complement(n: nat, j: int)
    requires n >= 1
    ensures (n - j) * Choose(n, j) == n * Choose(n - 1, j)
  {
    if j < 0 || j >= n {
    } else if n == 1 {
    } else if j == 0 {
      assert Choose(n - 1, j) == 1;
      assert Choose(n, j) == 1;
    } else {
      Complement(n - 1, j);
      Complement(n - 1, j - 1);
      Pascal(n - 1, j);
      var a, b := Choose(n - 1, j - 1), Choose(n - 1, j);
      var p, q := Choose(n - 2, j - 1), Choose(n - 2, j);
      assert Choose(n, j) == a + b;
      assert (n - 1 - j) * b == (n - 1) * q;
      assert (n - j) * a == (n - 1) * p;
      assert b == p + q;
      MulAdd(n - j, a, b);
      MulSucc(n - 1 - j, b);
      MulAdd(n - 1, p, q);
      MulSucc(n - 1, b);
    }
  }

  lemma MulAdd(x: int, y: int, z: int)
    ensures x * (y + z) == x * y + x * z
  {
  }

  lemma MulSucc(x: int, y: int)
    ensures (x + 1) * y == x * y + y
  {
  }

  /** The multiplicative row recurrence: i * C(n, i) == (n - i + 1) * C(n, i - 1). */
  lemma RowStep(n: nat, i: nat)
    requires 1 <= i <= n
    ensures i * Choose(n, i) == (n - i + 1) * Choose(n, i - 1)
  {
    Absorption(n, i);
    Complement(n, i - 1);
  }

  /** The row recurrence divides exactly, so integer division computes the next entry. */
  lemma RowStepExact(n: nat, i: nat)
    requires 1 <= i <= n
    ensures Choose(n, i - 1) * (n - i + 1) / i == Choose(n, i)
  {
    RowStep(n, i);
    QuotientOfProduct(Choose(n, i - 1), n - i + 1, i, Choose(n, i));
  }

  /** Walking a row: an entry follows from its predecessor by the recurrence. */
  lemma NextEntry(n: nat, i: nat, prev: nat, next: nat)
    requires 1 <= i <= n
    requires Choose(n, i - 1) == prev
    requires prev * (n - i + 1) == next * i
    ensures Choose(n, i) == next
  {
    RowStep(n, i);
    MulCancel(i, Choose(n, i), next);
  }

  lemma QuotientOfProduct(a: nat, m: nat, d: nat, c: nat)
    requires d >= 1
    requires d * c == m * a
    ensures a * m / d == c
  {
    assert a * m == d * c;
    DivExact(d, c);
  }

  lemma MulCancel(d: nat, x: nat, y: nat)
    requires d >= 1
    requires d * x == y * d
    ensures x == y
  {
    if x < y {
      MulSub(d, y, x);
      MulAtLeast(d, y - x);
    } else if x > y {
      MulSub(d, x, y);
      MulAtLeast(d, x - y);
    }
  }

  lemma DivExact(d: nat, c: nat)
    requires d >= 1
    ensures (d * c) / d == c
  {
    var q, r := (d * c) / d, (d * c) % d;
    assert d * q + r == d * c;
    MulSub(d, c, q);
    assert d * (c - q) == r;
    if q < c {
      MulAtLeast(d, c - q);
    } else if q > c {
      MulSub(d, q, c);
      MulAtLeast(d, q - c);
    }
  }

  lemma MulSub(x: int, y: int, z: int)
    ensures x * (y - z) == x * y - x * z
  {
  }

  lemma MulAtLeast(d: nat, m: int)
    requires m >= 1
    ensures d * m >= d
  {
  }

  /** Inside the row, C(n, k) counts at least one subset. */
  lemma {:induction false} ChoosePositive(n: nat, k: int)
    requires 0 <= k <= n
    ensures Choose(n, k) >= 1
  {
    if 0 < k < n {
      ChoosePositive(n - 1, k - 1);
    }
  }

  /** A shifted coefficient never exceeds the unshifted one: C(n - 1, k - 1) <= C(n, k). */
  lemma ShiftedBelow(n: nat, k: int)
    requires n >= 1
    ensures Choose(n - 1, k - 1) <= Choose(n, k)
  {
    Pascal(n, k);
  }
}
