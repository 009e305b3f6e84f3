/** Modular exponentiation by repeated squaring, and the arithmetic it rests on. */
module ModularExponentiation {

  /** x to the power y, by its textbook definition (the reference for ModExp). */
  function Pow(x: int, y: nat): int
  {
    if y == 0 then 1 else x * Pow(x, y - 1)
  }

  lemma {:induction false} PowPositive(x: int, y: nat)
    requires x > 0
    ensures Pow(x, y) > 0
  {
    if y > 0 {
      PowPositive(x, y - 1);
    }
  }

  lemma {:induction false} PowAdd(x: int, a: nat, b: nat)
    ensures Pow(x, a + b) == Pow(x, a) * Pow(x, b)
  {
    if a > 0 {
      PowAdd(x, a - 1, b);
      calc {
        Pow(x, a + b);
        x * Pow(x, (a - 1) + b);
        x * (Pow(x, a - 1) * Pow(x, b));
        (x * Pow(x, a - 1)) * Pow(x, b);
        Pow(x, a) * Pow(x, b);
      }
    }
  }

  /** Multiplying by a positive factor does not make m smaller. */
  lemma MulAtLeast(d: int, m: int)
    requires d >= 1 && m > 0
    ensures d * m >= m
  {
  }

  /** Euclidean division is unique: a quotient and an in-range remainder
      determine x % m. */
  lemma ModUnique(x: int, q: int, r: int, m: int)
    requires m > 0 && 0 <= r < m && x == q * m + r
    ensures x % m == r
  {
    var q0, r0 := x / m, x % m;
    assert (q - q0) * m == r0 - r;
    if q > q0 {
      MulAtLeast(q - q0, m);
      assert false;
    } else if q < q0 {
      MulAtLeast(q0 - q, m);
      assert false;
    }
  }

  /** Reducing both factors modulo m does not change the product modulo m. */
  lemma MulMod(a: int, b: int, m: int)
    requires m > 0
    ensures (a * b) % m == ((a % m) * (b % m)) % m
  {
    var qa, ra := a / m, a % m;
    var qb, rb := b / m, b % m;
    var q, r := (ra * rb) / m, (ra * rb) % m;
    assert a == qa * m + ra;
    assert b == qb * m + rb;
    assert ra * rb == q * m + r;
    assert a * b == (qa * qb * m + qa * rb + ra * qb + q) * m + r;
    ModUnique(a * b, qa * qb * m + qa * rb + ra * qb + q, r, m);
  }

  /** The square of a reduced power, reduced again, is the doubled power reduced. */
  lemma SquareStep(x: int, h: nat, N: int)
    requires N >= 1
    ensures ((Pow(x, h) % N) * (Pow(x, h) % N)) % N == Pow(x, 2 * h) % N
  {
    PowAdd(x, h, h);
    MulMod(Pow(x, h), Pow(x, h), N);
  }

  /** (x mod N) times the reduced (y - 1)-th power, reduced, is the y-th power reduced. */
  lemma MultiplyStep(x: int, y: nat, N: int)
    requires N >= 1 && y >= 1
    ensures ((x % N) * (if y == 1 then 1 else Pow(x, y - 1) % N)) % N == Pow(x, y) % N
  {
    if y == 1 {
      ModUnique(x % N, 0, x % N, N);
    } else {
      MulMod(x, Pow(x, y - 1), N);
      ModUnique(x % N, 0, x % N, N);
    }
  }

  /** x^y mod N, computed as the source does: 1 for y == 0 (not reduced
      modulo N), the square of the half power for even y, and (x mod N)
      times the (y - 1)-th power for odd y. Termination: y / 2 < y for even
      y > 0, and y - 1 < y. */
  function ModExp(x: int, y: nat, N: int): (r: int)
    requires N >= 1
    ensures y == 0 ==> r == 1
    ensures y > 0 ==> 0 <= r < N && r == Pow(x, y) % N
    decreases y
  {
    if y == 0 then
      1
    else if y % 2 == 0 then
      var z := ModExp(x, y / 2, N);
      SquareStep(x, y / 2, N);
      (z * z) % N
    else
      var z := ModExp(x, y - 1, N);
      MultiplyStep(x, y, N);
      ((x % N) * z) % N
  }
}
