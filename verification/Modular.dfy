/** Division facts the verifier does not find by itself. */
module Modular {

  lemma MulAtLeast(n: int, k: int)
    requires n > 0 && k >= 1
    ensures n * k >= n
  {
  }

  lemma Unique(n: int, q: int, r: int, q': int, r': int)
    requires n * q + r == n * q' + r' && 0 <= r < n && 0 <= r' < n
    ensures q == q' && r == r'
  {
    if q > q' {
      MulAtLeast(n, q - q');
    } else if q < q' {
      MulAtLeast(n, q' - q);
    }
  }

  lemma ModIs(n: int, q: int, r: int)
    requires 0 <= r < n
    ensures (n * q + r) % n == r
  {
    var x := n * q + r;
    Unique(n, q, r, x / n, x % n);
  }

  lemma AddMultiple(n: int, k: int, y: int)
    requires n > 0
    ensures (n * k + y) % n == y % n
  {
    var q, r := y / n, y % n;
    assert y == n * q + r;
    assert n * (k + q) == n * k + n * q;
    ModIs(n, k + q, r);
  }

  /** The smallest number from e on with residue i. */
  lemma NextWithResidue(n: nat, e: nat, i: nat) returns (d: nat)
    requires i < n
    ensures e <= d < e + n && d % n == i
  {
    var q, r := e / n, e % n;
    if r <= i {
      d := n * q + i;
      ModIs(n, q, i);
    } else {
      d := n * (q + 1) + i;
      ModIs(n, q + 1, i);
      assert n * (q + 1) == n * q + n;
    }
  }

  /** Numbers less than n apart with the same residue are equal. */
  lemma SameResidue(n: nat, a: nat, b: nat)
    requires n > 0 && a <= b < a + n && a % n == b % n
    ensures a == b
  {
    var p, q := a / n, b / n;
    if p < q {
      MulAtLeast(n, q - p);
    } else if p > q {
      MulAtLeast(n, p - q);
    }
  }

  lemma SmallMod(n: int, x: int)
    requires 0 <= x < n
    ensures x % n == x
  {
    assert n * 0 == 0;
    ModIs(n, 0, x);
  }

  /** A counter kept reduced modulo n after every increment. */
  lemma ReducedIncrement(n: nat, x: nat)
    requires n > 0
    ensures (x % n + 1) % n == (x + 1) % n
  {
    var q, r := x / n, x % n;
    assert n * q + (r + 1) == x + 1;
    AddMultiple(n, q, r + 1);
  }
}
