/** Arithmetic of a cyclic index that takes at most one turn, shared by the ring and the hash table. */
module Cyclic {

  /** The slot d places after slot h, going round a table of n slots. */
  function At(h: nat, d: nat, n: nat): (i: nat)
    requires h < n && d <= n
    ensures i < n
  {
    if h + d < n then h + d else h + d - n
  }

  lemma ModOnce(x: nat, n: nat)
    requires 0 < n && x < 2 * n
    ensures x % n == if x < n then x else x - n
  {
    var q := x / n;
    MulMonotone(n, 2, q);
  }

  lemma MulMonotone(n: nat, a: nat, b: nat)
    ensures a <= b ==> n * a <= n * b
  {
  }

  lemma NonPositiveProduct(n: int, m: int)
    requires 0 <= n && m <= 0
    ensures n * m <= 0
  {
  }

  /** The only multiple of n between -n and n is zero. */
  lemma NoMultipleBetween(n: int, k: int, r: int)
    requires n * k == r && -n < r < n
    ensures r == 0
  {
    if k < 0 {
      assert n * (k + 1) == n * k + n;
      NonPositiveProduct(n, k + 1);
    } else if 0 < k {
      assert n * (1 - k) == n - n * k;
      NonPositiveProduct(n, 1 - k);
    }
  }

  /** The remainder of the next number. */
  lemma NextRemainder(k: nat, n: nat)
    requires 0 < n
    ensures (k + 1) % n == if k % n == n - 1 then 0 else k % n + 1
  {
    var q, q' := k / n, (k + 1) / n;
    var r, r' := k % n, (k + 1) % n;
    assert k == n * q + r && k + 1 == n * q' + r';
    assert n * (q' - q) == n * q' - n * q && n * (q' - q - 1) == n * q' - n * q - n;
    if r == n - 1 {
      NoMultipleBetween(n, q' - q - 1, -r');
    } else {
      NoMultipleBetween(n, q' - q, r + 1 - r');
    }
  }

  /** At is what the sources compute with the remainder operator. */
  lemma AtIsRemainder(h: nat, d: nat, n: nat)
    requires h < n && d <= n
    ensures (h + d) % n == At(h, d, n)
  {
    ModOnce(h + d, n);
  }
}
