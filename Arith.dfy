/** Facts about Euclidean division that the solver does not find unaided. */
module Arith {

  lemma MulAtLeastOnce(x: int, b: int)
    requires x >= 1 && b > 0
    ensures x * b >= b
  {
  }

  lemma MulMonotone(x: int, y: int, b: int)
    requires x <= y && 0 < b
    ensures x * b <= y * b
  {
  }

  /** a / b and a % b, pinned down by a quotient and a remainder. */
  lemma DivisionUnique(a: int, b: int, q: int, r: int)
    requires b > 0 && 0 <= r < b && a == q * b + r
    ensures a / b == q && a % b == r
  {
    var q', r' := a / b, a % b;
    assert a == q' * b + r';
    if q' > q {
      MulAtLeastOnce(q' - q, b);
      assert false;
    } else if q' < q {
      MulAtLeastOnce(q - q', b);
      assert false;
    }
  }

  lemma DivisionSmall(k: int, b: int)
    requires 0 <= k < b
    ensures k / b == 0 && k % b == k
  {
    DivisionUnique(k, b, 0, k);
  }

  /** Taking one divisor off the dividend takes one off the quotient and keeps the remainder. */
  lemma DivisionStep(k: int, b: int)
    requires 0 < b <= k
    ensures (k - b) / b + 1 == k / b && (k - b) % b == k % b
  {
    var q, r := (k - b) / b, (k - b) % b;
    DivisionUnique(k - b, b, q, r);
    assert k == (q + 1) * b + r;
    DivisionUnique(k, b, q + 1, r);
  }

  /** ⌈(y + 1) / b⌉ exceeds ⌈y / b⌉ exactly when b divides y. */
  lemma CeilingStep(y: int, b: int)
    requires b > 0
    ensures (y + b) / b == (y + b - 1) / b + (if y % b == 0 then 1 else 0)
  {
    var q, r := (y + b - 1) / b, (y + b - 1) % b;
    DivisionUnique(y + b - 1, b, q, r);
    if r + 1 < b {
      DivisionUnique(y + b, b, q, r + 1);
      assert y == (q - 1) * b + (r + 1);
      DivisionUnique(y, b, q - 1, r + 1);
    } else {
      assert y + b == (q + 1) * b + 0;
      DivisionUnique(y + b, b, q + 1, 0);
      assert y == q * b + 0;
      DivisionUnique(y, b, q, 0);
    }
  }

  lemma QuotientBelow(j: int, b: int, n: int)
    requires 0 < b && 0 <= j < n * b
    ensures 0 <= j / b < n
  {
    DivisionUnique(j, b, j / b, j % b);
    if j / b >= n {
      MulMonotone(n, j / b, b);
      assert false;
    }
  }

  lemma QuotientMonotone(j: int, k: int, b: int)
    requires 0 < b && 0 <= j < k
    ensures j / b <= k / b
  {
    DivisionUnique(j, b, j / b, j % b);
    DivisionUnique(k, b, k / b, k % b);
    if j / b > k / b {
      MulMonotone(k / b + 1, j / b, b);
      assert false;
    }
  }

  lemma QuotientSameRemainder(j: int, k: int, b: int)
    requires 0 < b && 0 <= j < k && j / b == k / b
    ensures j % b < k % b
  {
    DivisionUnique(j, b, j / b, j % b);
    DivisionUnique(k, b, k / b, k % b);
  }
}
