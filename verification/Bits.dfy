/** Bitwise operators on naturals, and what they mean as arithmetic. */
module Bits {
  import opened Arith

  const U32: nat := 0x1_0000_0000
  const U64: nat := 0x1_0000_0000_0000_0000

  function Pow2(k: nat): (r: nat)
    ensures 0 < r
  {
    if k == 0 then 1 else 2 * Pow2(k - 1)
  }

  function And(x: nat, y: nat): nat {
    if x == 0 || y == 0 then 0 else 2 * And(x / 2, y / 2) + if x % 2 == 1 && y % 2 == 1 then 1 else 0
  }

  function Or(x: nat, y: nat): nat
    decreases x + y
  {
    if x == 0 then y else if y == 0 then x
    else 2 * Or(x / 2, y / 2) + if x % 2 == 1 || y % 2 == 1 then 1 else 0
  }

  function Shr(x: nat, k: nat): nat {
    DivBound(x, Pow2(k));
    x / Pow2(k)
  }

  lemma DivBound(x: nat, m: nat)
    requires 0 < m
    ensures 0 <= x / m
  {
  }

  /** Left shift of a 32-bit word. */
  function Shl32(x: nat, k: nat): nat {
    x * Pow2(k) % U32
  }

  lemma {:induction false} AndMask(x: nat, k: nat)
    ensures And(x, Pow2(k) - 1) == x % Pow2(k)
  {
    hide *;
    Pow2Step(k);
    AndZero(x);
    if k > 0 {
      var m := Pow2(k - 1);
      AndMask(x / 2, k - 1);
      HalfMod(x, m);
      AndOdd(x, m);
    }
  }

  lemma Pow2Step(k: nat)
    ensures if k == 0 then Pow2(k) == 1 else Pow2(k) == 2 * Pow2(k - 1)
  {
  }

  lemma AndOdd(x: nat, m: nat)
    requires 0 < m
    ensures And(x, 2 * m - 1) == 2 * And(x / 2, m - 1) + x % 2
  {
    var y := 2 * m - 1;
    assert y / 2 == m - 1 && y % 2 == 1;
  }

  lemma HalfMod(x: nat, m: nat)
    requires 0 < m
    ensures x % (2 * m) == 2 * (x / 2 % m) + x % 2
  {
    var h, q := x / 2, x / 2 / m;
    assert x == 2 * h + x % 2;
    assert h == m * q + h % m;
    assert x == (2 * m) * q + (2 * (h % m) + x % 2) by {
      assert 2 * (m * q) == (2 * m) * q;
    }
    DivModUnique(x, 2 * m, q, 2 * (h % m) + x % 2);
  }

  lemma DivModUnique(x: nat, m: nat, q: nat, r: nat)
    requires 0 < m && x == m * q + r && r < m
    ensures x / m == q && x % m == r
  {
    var d := x / m;
    if d < q {
      assert m * q >= m * (d + 1) by { MulMono(m, d + 1, q); }
    } else if q < d {
      assert m * d >= m * (q + 1) by { MulMono(m, q + 1, d); }
    }
  }

  lemma {:induction false} OrDisjoint(a: nat, b: nat, k: nat)
    requires b < Pow2(k)
    ensures Or(a * Pow2(k), b) == a * Pow2(k) + b
  {
    if k > 0 && a > 0 && b > 0 {
      var m := Pow2(k - 1);
      assert a * Pow2(k) == 2 * (a * m);
      OrDisjoint(a, b / 2, k - 1);
      assert a * m > 0 by { MulMono(m, 1, a); }
    }
  }

  lemma {:induction false} AndBit(x: nat, k: nat)
    ensures And(x, Pow2(k)) == if x / Pow2(k) % 2 == 1 then Pow2(k) else 0
  {
    if k == 0 {
      assert And(x, 1) == 2 * And(x / 2, 0) + x % 2 || x == 0;
    } else if x > 0 {
      var m := Pow2(k - 1);
      AndBit(x / 2, k - 1);
      HalfDiv(x, m);
      assert And(x, 2 * m) == 2 * And(x / 2, m);
    }
  }

  lemma HalfDiv(x: nat, m: nat)
    requires 0 < m
    ensures x / 2 / m == x / (2 * m)
  {
    var h, q := x / 2, x / 2 / m;
    assert x == (2 * m) * q + (2 * (h % m) + x % 2) by {
      assert h == m * q + h % m;
      assert 2 * (m * q) == (2 * m) * q;
    }
    DivModUnique(x, 2 * m, q, 2 * (h % m) + x % 2);
  }

  /** Masking off the low k bits of a 32-bit word. */
  lemma AndHigh(x: nat, k: nat)
    requires x < Pow2(32) && k <= 32
    ensures Pow2(k) <= Pow2(32)
    ensures And(x, Pow2(32) - Pow2(k)) == x / Pow2(k) * Pow2(k)
  {
    AndHighW(x, k, 32);
  }

  lemma {:induction false} AndHighW(x: nat, k: nat, w: nat)
    requires x < Pow2(w) && k <= w
    ensures Pow2(k) <= Pow2(w)
    ensures And(x, Pow2(w) - Pow2(k)) == x / Pow2(k) * Pow2(k)
  {
    hide *;
    Pow2Step(k);
    Pow2Step(w);
    if k == 0 {
      AndAll(x, w);
    } else {
      var m, n := Pow2(k - 1), Pow2(w - 1);
      AndHighW(x / 2, k - 1, w - 1);
      AndHighStep(x, m, n);
    }
  }

  lemma AndAll(x: nat, w: nat)
    requires x < Pow2(w)
    ensures 1 <= Pow2(w) && And(x, Pow2(w) - 1) == x && x / 1 * 1 == x
  {
    hide And, Pow2;
    var p := Pow2(w);
    AndMask(x, w);
    DivModUnique(x, p, 0, x);
  }

  lemma AndHighStep(x: nat, m: nat, n: nat)
    requires 0 < m <= n && And(x / 2, n - m) == x / 2 / m * m
    ensures And(x, 2 * n - 2 * m) == x / (2 * m) * (2 * m)
  {
    hide And;
    var q := x / 2 / m;
    HalfDiv(x, m);
    AndEven(x, n - m);
    Double(q, m);
    assert 2 * n - 2 * m == 2 * (n - m);
  }

  lemma AndEven(x: nat, y: nat)
    ensures And(x, 2 * y) == 2 * And(x / 2, y)
  {
    hide And;
    AndHalf(x, 2 * y);
    assert 2 * y / 2 == y && 2 * y % 2 == 0;
  }

  lemma {:induction false} Pow2Mono(k: nat, w: nat)
    requires k <= w
    ensures Pow2(k) <= Pow2(w)
  {
    if k < w {
      Pow2Mono(k, w - 1);
    }
  }

  lemma Double(q: nat, m: nat)
    ensures 2 * (q * m) == q * (2 * m)
  {
  }

  lemma AndZero(x: nat)
    ensures And(x, 0) == 0 && And(0, x) == 0 && x % 1 == 0
  {
  }

  predicate Bit(x: nat, i: nat) {
    if i == 0 then x % 2 == 1 else Bit(x / 2, i - 1)
  }

  lemma {:induction false} OrBits(x: nat, y: nat, i: nat)
    ensures Bit(Or(x, y), i) <==> Bit(x, i) || Bit(y, i)
    decreases i
  {
    OrHalf(x, y);
    ZeroBits(i);
    if i > 0 {
      hide Or;
      OrBits(x / 2, y / 2, i - 1);
    }
  }

  lemma OrHalf(x: nat, y: nat)
    ensures Or(x, y) / 2 == Or(x / 2, y / 2)
    ensures Or(x, y) % 2 == 1 <==> x % 2 == 1 || y % 2 == 1
  {
  }

  lemma AndHalf(x: nat, y: nat)
    ensures And(x, y) / 2 == And(x / 2, y / 2)
    ensures And(x, y) % 2 == 1 <==> x % 2 == 1 && y % 2 == 1
  {
    AndZero(x / 2);
    AndZero(y / 2);
  }

  lemma {:induction false} ZeroBits(i: nat)
    ensures !Bit(0, i)
  {
    if i > 0 {
      ZeroBits(i - 1);
    }
  }

  /** The low k bits of a word do not depend on what stands above them. */
  lemma {:induction false} LowBits(a: nat, b: nat, k: nat, i: nat)
    requires i < k
    ensures Bit(a * Pow2(k) + b, i) <==> Bit(b, i)
    decreases i
  {
    hide Pow2;
    Pow2Step(k);
    var m := Pow2(k - 1);
    var x := a * m;
    assert a * Pow2(k) == 2 * x;
    assert (2 * x + b) / 2 == x + b / 2 && (2 * x + b) % 2 == b % 2;
    if i > 0 {
      LowBits(a, b / 2, k - 1, i - 1);
    }
  }

  lemma {:induction false} PowSum(a: nat, b: nat)
    ensures Pow2(a + b) == Pow2(a) * Pow2(b)
  {
    if a > 0 {
      PowSum(a - 1, b);
      assert Pow2(a + b) == 2 * Pow2(a - 1 + b);
      assert 2 * (Pow2(a - 1) * Pow2(b)) == (2 * Pow2(a - 1)) * Pow2(b);
    }
  }
}
