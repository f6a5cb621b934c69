/** Facts about remainders that the ring buffers need. */
module Remainders {

  lemma RemainderByHalf(x: nat, m: nat)
    requires 0 < m
    ensures x % (2 * m) == 2 * ((x / 2) % m) + x % 2
  {
    var q, r := (x / 2) / m, (x / 2) % m;
    assert x == (2 * m) * q + (2 * r + x % 2);
    RemainderIs(x, 2 * m, q, 2 * r + x % 2);
  }

  lemma RemainderIs(x: int, m: nat, q: int, r: nat)
    requires r < m && x == m * q + r
    ensures x % m == r && x / m == q
  {
    MultipleGrows(m, x / m - q);
    assert m * (x / m - q) == r - x % m;
  }

  lemma MultipleGrows(m: nat, d: int)
    ensures d >= 1 ==> m * d >= m
    ensures d <= -1 ==> m * d <= 0 - m
  {
  }

  /** Remainders do not see whole multiples of the modulus. */
  lemma RemainderOfDifference(x: nat, y: nat, m: nat)
    requires 0 < m && y <= x < y + m
    ensures (x % m - y % m) % m == x - y
  {
    RemainderIs(x % m - y % m, m, y / m - x / m, x - y);
  }

  lemma RemainderOfSuccessor(x: nat, m: nat)
    requires 0 < m
    ensures (x % m + 1) % m == (x + 1) % m
  {
    assert x % m + 1 == m * (-(x / m) + (x + 1) / m) + (x + 1) % m;
    RemainderIs(x % m + 1, m, -(x / m) + (x + 1) / m, (x + 1) % m);
  }

  /** Slots less than a buffer apart are different slots. */
  lemma SlotsDiffer(x: nat, y: nat, m: nat)
    requires y < x < y + m
    ensures x % m != y % m
  {
    if x % m == y % m {
      RemainderOfDifference(x, y, m);
    }
  }

  /** An index that runs over twice the size has the slot of the full count. */
  lemma SlotOfIndex(x: nat, m: nat)
    requires 0 < m
    ensures (x % (2 * m)) % m == x % m
  {
    var q := x / (2 * m);
    assert x % (2 * m) == m * (x / m - 2 * q) + x % m;
    RemainderIs(x % (2 * m), m, x / m - 2 * q, x % m);
  }

  lemma AddMultiple(x: int, n: nat, k: nat)
    requires 0 < n && k % n == 0
    ensures (x + k) % n == x % n
  {
    var q := k / n;
    assert x + k == n * (x / n + q) + x % n;
    RemainderIs(x + k, n, x / n + q, x % n);
  }

  lemma DoubleMultiple(k: nat, n: nat)
    requires 0 < n && k % n == 0
    ensures (2 * k) % (2 * n) == 0
  {
    var q := k / n;
    assert 2 * k == (2 * n) * q;
    RemainderIs(2 * k, 2 * n, q, 0);
  }

  lemma QuotientStep(x: nat, m: nat)
    requires 0 < x && 0 < m
    ensures x / m == (x - 1) / m + if x % m == 0 then 1 else 0
  {
    var q, r := (x - 1) / m, (x - 1) % m;
    if r + 1 < m {
      RemainderIs(x, m, q, r + 1);
    } else {
      RemainderIs(x, m, q + 1, 0);
    }
  }
}
