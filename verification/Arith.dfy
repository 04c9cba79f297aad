/** Facts about multiples that the solver does not find by itself. */
module Arith {

  lemma ProductUnique(q: nat, d: int, r: nat)
    requires 0 < q && q * d == r && r < q
    ensures d == 0
  {
    if d >= 1 {
      assert q * d >= q * 1 by { MulMono(q, 1, d); }
    } else if d <= -1 {
      assert q * d <= q * -1 by { MulMono(q, d, -1); }
    }
  }

  lemma MulMono(q: nat, i: int, j: int)
    requires i <= j
    ensures q * i <= q * j
  {
    assert q * j == q * i + q * (j - i);
  }

  lemma MultipleMod(q: nat, i: nat)
    requires 0 < q
    ensures (q * i) % q == 0
  {
    var m := q * i;
    var d, r := m / q, m % q;
    assert q * (i - d) == r;
    ProductUnique(q, i - d, r);
  }

  lemma ModDiff(x: nat, y: nat, q: nat)
    requires 0 < q && y < x && x % q == 0 && y % q == 0
    ensures (x - y) % q == 0 && q <= x - y
  {
    var i, j := x / q, y / q;
    assert x == q * i && y == q * j;
    if i <= j {
      MulMono(q, i, j);
    }
    assert x - y == q * (i - j);
    MultipleMod(q, i - j);
    MulMono(q, 1, i - j);
  }

  lemma ModSum(x: nat, y: nat, q: nat)
    requires 0 < q && x % q == 0 && y % q == 0
    ensures (x + y) % q == 0
  {
    var i, j := x / q, y / q;
    assert x == q * i && y == q * j;
    assert x + y == q * (i + j);
    MultipleMod(q, i + j);
  }

  lemma MultipleTrans(x: nat, p: nat, q: nat)
    requires 0 < p && 0 < q && x % p == 0 && p % q == 0
    ensures x % q == 0
  {
    var i, j := x / p, p / q;
    assert x == p * i && p == q * j;
    assert x == q * (j * i) by { Assoc(q, j, i); }
    MultipleMod(q, j * i);
  }

  lemma Assoc(x: nat, y: nat, z: nat)
    ensures (x * y) * z == x * (y * z)
  {
  }
}
