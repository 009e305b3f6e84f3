/** The Miller-Rabin strong-pseudoprime test, with its random bases supplied as
    a sequence. */
module MillerRabinTester {
  import opened Primality
  import opened ModularExponentiation

  /** m = n * 2^length with n odd. */
  datatype Factorization = Factorization(n: int, length: nat)

  /** The decomposition of m >= 1 into an odd part and a power of two, by
      halving while even. */
  function Factor(m: int): (f: Factorization)
    requires m >= 1
    ensures f.n >= 1 && f.n % 2 == 1
    ensures f.n * Pow(2, f.length) == m
    decreases m
  {
    if m % 2 == 1 then
      Factorization(m, 0)
    else
      var f := Factor(m / 2);
      assert f.n * Pow(2, f.length + 1) == 2 * (f.n * Pow(2, f.length));
      Factorization(f.n, f.length + 1)
  }

  /** Halving n * 2^length for length > 0 gives n * 2^(length - 1). */
  lemma HalveProduct(m: int, n: int, length: nat)
    requires length > 0 && n * Pow(2, length) == m
    ensures m % 2 == 0 && m / 2 == n * Pow(2, length - 1)
  {
    assert m == 2 * (n * Pow(2, length - 1));
  }

  /** The odd part and the exponent of two are unique. */
  lemma {:induction false} FactorUnique(m: int, n: int, length: nat)
    requires m >= 1 && n % 2 == 1 && n * Pow(2, length) == m
    ensures Factor(m) == Factorization(n, length)
    decreases length
  {
    if length > 0 {
      HalveProduct(m, n, length);
      FactorUnique(m / 2, n, length - 1);
    }
  }

  /** The halving loop: strips the factors of two out of m = N - 1. It needs
      m >= 1; for m == 0 the source's loop would never end, which the N == 1
      guard in MillerRabin rules out. */
  method SplitPowersOfTwo(m: int) returns (n: int, length: nat)
    requires m >= 1
    ensures n % 2 == 1 && n * Pow(2, length) == m
    ensures Factor(m) == Factorization(n, length)
  {
    n, length := m, 0;
    while n % 2 == 0
      invariant n >= 1 && n * Pow(2, length) == m
      decreases n
    {
      assert (n / 2) * Pow(2, length + 1) == n * Pow(2, length) by {
        assert (n / 2) * Pow(2, length + 1) == (n / 2) * 2 * Pow(2, length);
      }
      n := n / 2;
      length := length + 1;
    }
    FactorUnique(m, n, length);
  }

  /** a^(2^j * n) mod N: the value `val` holds before the j-th squaring. */
  function StrongTerm(N: int, n: int, j: nat, a: int): int
    requires N >= 1 && n >= 1
  {
    PowPositive(2, j);
    MulAtLeast(Pow(2, j), n);
    ModExp(a, Pow(2, j) * n, N)
  }

  /** Base a is consistent with N being prime: a^n mod N == 1, or
      a^(2^j * n) mod N == N - 1 for some j < length. */
  predicate WitnessPasses(N: int, f: Factorization, a: int)
    requires N >= 1 && f.n >= 1
  {
    ModExp(a, f.n, N) == 1 || exists j :: 0 <= j < f.length && StrongTerm(N, f.n, j, a) == N - 1
  }

  /** What the test concludes from the witnesses W: 'prime' for N == 1, otherwise
      'composite' exactly when some witness fails. */
  function MillerRabinTest(N: int, W: seq<int>): Verdict
    requires N >= 1
  {
    if N != 1 && exists i :: 0 <= i < |W| && !WitnessPasses(N, Factor(N - 1), W[i])
    then Composite else Prime
  }

  /** Squaring the j-th term modulo N gives the (j + 1)-th. */
  lemma StrongTermStep(N: int, n: int, j: nat, a: int)
    requires N >= 1 && n >= 1
    ensures (StrongTerm(N, n, j, a) * StrongTerm(N, n, j, a)) % N == StrongTerm(N, n, j + 1, a)
  {
    var e := Pow(2, j) * n;
    PowPositive(2, j);
    MulAtLeast(Pow(2, j), n);
    assert Pow(2, j + 1) * n == 2 * e;
    SquareStep(a, e, N);
  }

  /** One round of the test for base a, as the source runs it: compute
      a^n mod N, then square it up to `length` times, looking for N - 1 before
      each squaring. `check` is true when a proves N composite. */
  method StrongRound(N: int, n: int, length: nat, a: int) returns (check: bool)
    requires N >= 2 && n >= 1
    ensures check == !WitnessPasses(N, Factorization(n, length), a)
  {
    var val := ModExp(a, n, N);
    check := false;
    if val != 1 {
      check := true;
      for j := 0 to length
        invariant check
        invariant val == StrongTerm(N, n, j, a)
        invariant forall j' :: 0 <= j' < j ==> StrongTerm(N, n, j', a) != N - 1
      {
        if val == N - 1 {
          assert WitnessPasses(N, Factorization(n, length), a);
          check := false;
          break;
        }
        StrongTermStep(N, n, j, a);
        val := (val * val) % N;
      }
    }
  }

  /** The test as the source runs it: factor N - 1 once, then run one round
      per witness, stopping at the first witness that proves N composite.
      `drawn` is the number of witnesses consumed. */
  method MillerRabin(N: int, W: seq<int>) returns (v: Verdict, drawn: nat)
    requires N >= 1
    requires ValidWitnesses(N, W)
    ensures v == MillerRabinTest(N, W)
    ensures drawn <= |W|
    ensures v == Prime ==> drawn == (if N == 1 then 0 else |W|)
    ensures v == Composite ==>
              && N >= 2
              && 0 < drawn
              && !WitnessPasses(N, Factor(N - 1), W[drawn - 1])
              && forall i :: 0 <= i < drawn - 1 ==> WitnessPasses(N, Factor(N - 1), W[i])
  {
    if N == 1 {
      return Prime, 0;
    }
    var n, length := SplitPowersOfTwo(N - 1);
    for i := 0 to |W|
      invariant forall j :: 0 <= j < i ==> WitnessPasses(N, Factor(N - 1), W[j])
    {
      var a := W[i];
      var check := StrongRound(N, n, length, a);
      if check {
        return Composite, i + 1;
      }
    }
    return Prime, |W|;
  }
}
