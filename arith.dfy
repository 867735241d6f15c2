/** Integer division facts used by the counter and size-rounding proofs. */
module Arith {
  lemma ModUnique(x: int, m: int, q: int, r: int)
    requires m > 0 && x == q * m + r && 0 <= r < m
    ensures x % m == r && x / m == q
  {
    var q2 := x / m;
    var r2 := x % m;
    assert x == q2 * m + r2;
    assert (q - q2) * m == r2 - r;
    if q - q2 >= 1 {
      assert false;
    } else if q - q2 <= -1 {
      assert false;
    }
  }

  lemma ModStep(a: nat, m: nat)
    requires m > 1
    ensures (a + 1) % m == (if a % m == m - 1 then 0 else a % m + 1)
  {
    var q := a / m;
    var r := a % m;
    assert a == q * m + r;
    if r == m - 1 {
      ModUnique(a + 1, m, q + 1, 0);
    } else {
      ModUnique(a + 1, m, q, r + 1);
    }
  }

  lemma ModDistinct(a: nat, i: nat, j: nat, m: nat)
    requires m > 0 && i < j && j - i < m
    ensures (a + i) % m != (a + j) % m
  {
    var q := (a + i) / m;
    var r := (a + i) % m;
    assert a + i == q * m + r;
    if r + (j - i) < m {
      ModUnique(a + j, m, q, r + (j - i));
    } else {
      ModUnique(a + j, m, q + 1, r + (j - i) - m);
    }
  }

  /** Adding to a residue and reducing again is the same as adding to the number. */
  lemma ModAdd(a: int, d: int, m: int)
    requires m > 0
    ensures (a % m + d) % m == (a + d) % m
  {
    var q := a / m;
    assert a == q * m + a % m;
    var r := (a % m + d) % m;
    var q2 := (a % m + d) / m;
    assert a % m + d == q2 * m + r;
    ModUnique(a + d, m, q + q2, r);
  }
}
