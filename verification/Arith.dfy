/** Division and remainder by a variable amount, and powers of two. */
module Arith {

  lemma {:induction false} RoundDown(q: nat, m: nat)
    requires m > 0
    ensures (q - q % m) % m == 0
    decreases q
  {
    if q >= m {
      ModStep(q - m, m);
      RoundDown(q - m, m);
      ModStep(q - m - (q - m) % m, m);
    }
  }

  lemma ModStep(x: nat, m: nat)
    requires m > 0
    ensures (x + m) % m == x % m
  {
    var d, r := x / m, x % m;
    assert x + m == (d + 1) * m + r;
    DivUnique(x + m, m, d + 1, r);
  }

  lemma {:induction false} ModShift(x: nat, m: nat)
    requires m > 0
    ensures (x + (m - 1)) % m == if x % m == 0 then m - 1 else x % m - 1
    decreases x
  {
    if x < m {
      DivUnique(x, m, 0, x);
      if x == 0 { DivUnique(m - 1, m, 0, m - 1); } else { DivUnique(x + (m - 1), m, 1, x - 1); }
    } else {
      ModShift(x - m, m);
      ShiftOnce(x - m, m);
    }
  }

  lemma ShiftOnce(x: nat, m: nat)
    requires m > 0
    ensures (x + m) % m == x % m
    ensures (x + m + (m - 1)) % m == (x + (m - 1)) % m
  {
    ModStep(x, m);
    ModStep(x + (m - 1), m);
  }

  lemma DivUnique(x: nat, m: nat, d: nat, r: nat)
    requires m > 0 && x == d * m + r && r < m
    ensures x % m == r && x / m == d
  {
    if d > x / m { MulGap(d, x / m, m); }
    if d < x / m { MulGap(x / m, d, m); }
  }

  lemma {:induction false} MulGap(a: nat, b: nat, m: nat)
    requires a > b && m > 0
    ensures a * m >= b * m + m
  {
    if a > b + 1 { MulGap(a - 1, b, m); }
    assert a * m == (a - 1) * m + m;
  }

  function Pow2(n: nat): (r: nat)
    ensures r > 0
  {
    if n == 0 then 1 else 2 * Pow2(n - 1)
  }

  /** Index of the highest set bit. */
  function Fls(x: nat): nat
    requires x > 0
  {
    if x == 1 then 0 else 1 + Fls(x / 2)
  }

  lemma {:induction false} FlsBounds(x: nat)
    requires x > 0
    ensures Pow2(Fls(x)) <= x < Pow2(Fls(x) + 1)
  {
    if x > 1 { FlsBounds(x / 2); }
  }

  lemma {:induction false} Pow2Monotone(a: nat, b: nat)
    requires a <= b
    ensures Pow2(a) <= Pow2(b)
  {
    if a < b { Pow2Monotone(a, b - 1); }
  }

  lemma {:induction false} Pow2Add(a: nat, b: nat)
    ensures Pow2(a + b) == Pow2(a) * Pow2(b)
  {
    if a > 0 {
      Pow2Add(a - 1, b);
      assert Pow2(a + b) == 2 * Pow2(a - 1 + b);
    }
  }
}
