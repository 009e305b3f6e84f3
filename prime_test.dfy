/** Running both tests on one number, and what relates their verdicts. */
module PrimeTest {
  import opened Primality
  import opened ModularExponentiation
  import opened FermatTester
  import opened MillerRabinTester

  /** (N - 1)^2 mod N == 1: a -1 sighting squares to 1. */
  lemma MinusOneSquared(N: int)
    requires N >= 2
    ensures ((N - 1) * (N - 1)) % N == 1
  {
    assert (N - 1) * (N - 1) == (N - 2) * N + 1;
    ModUnique((N - 1) * (N - 1), N - 2, 1, N);
  }

  /** Once a term of the squaring chain is 1, every later term is 1. */
  lemma {:induction false} OnePersists(N: int, n: int, j: nat, l: nat, a: int)
    requires N >= 2 && n >= 1 && j <= l
    requires StrongTerm(N, n, j, a) == 1
    ensures StrongTerm(N, n, l, a) == 1
    decreases l - j
  {
    if j < l {
      var t := StrongTerm(N, n, j, a);
      StrongTermStep(N, n, j, a);
      assert t * t == 1;
      ModUnique(1, 0, 1, N);
      OnePersists(N, n, j + 1, l, a);
    }
  }

  /** The last term of the squaring chain is a^(N-1) mod N. */
  lemma LastTermIsFermatPower(N: int, a: int)
    requires N >= 2
    ensures StrongTerm(N, Factor(N - 1).n, Factor(N - 1).length, a) == ModExp(a, N - 1, N)
  {
    var f := Factor(N - 1);
    assert Pow(2, f.length) * f.n == N - 1;
  }

  /** A -1 sighting before the last squaring makes the last term 1. */
  lemma MinusOneSightingReachesOne(N: int, n: int, j: nat, l: nat, a: int)
    requires N >= 2 && n >= 1 && j < l
    requires StrongTerm(N, n, j, a) == N - 1
    ensures StrongTerm(N, n, l, a) == 1
  {
    var t := StrongTerm(N, n, j, a);
    StrongTermStep(N, n, j, a);
    assert t * t == (N - 1) * (N - 1);
    MinusOneSquared(N);
    OnePersists(N, n, j + 1, l, a);
  }

  /** A base that passes the Miller-Rabin check passes the Fermat check. */
  lemma StrongWitnessIsFermatWitness(N: int, a: int)
    requires N >= 2
    ensures WitnessPasses(N, Factor(N - 1), a) ==> FermatPasses(N, a)
  {
    var f := Factor(N - 1);
    if ModExp(a, f.n, N) == 1 {
      assert StrongTerm(N, f.n, 0, a) == 1;
      OnePersists(N, f.n, 0, f.length, a);
      LastTermIsFermatPower(N, a);
    } else if WitnessPasses(N, f, a) {
      var j :| 0 <= j < f.length && StrongTerm(N, f.n, j, a) == N - 1;
      MinusOneSightingReachesOne(N, f.n, j, f.length, a);
      LastTermIsFermatPower(N, a);
    }
  }

  /** On the same witnesses, a 'prime' from Miller-Rabin implies a 'prime'
      from Fermat (equivalently, 'not prime' implies 'composite'). */
  lemma MillerRabinPrimeImpliesFermatPrime(N: int, W: seq<int>)
    requires N >= 1
    ensures MillerRabinTest(N, W) == Prime ==> FermatTest(N, W) == Prime
    ensures FermatTest(N, W) == NotPrime ==> MillerRabinTest(N, W) == Composite
  {
    if N != 1 && MillerRabinTest(N, W) == Prime {
      forall i | 0 <= i < |W|
        ensures FermatPasses(N, W[i])
      {
        StrongWitnessIsFermatWitness(N, W[i]);
      }
    }
  }

  /** When N - 1 is odd there are no squarings, so a witness passes the
      Miller-Rabin check exactly when it passes the Fermat check. */
  lemma NoSquaringsWhenNMinusOneOdd(N: int, a: int)
    requires N >= 2 && (N - 1) % 2 == 1
    ensures Factor(N - 1).length == 0
    ensures WitnessPasses(N, Factor(N - 1), a) <==> FermatPasses(N, a)
  {
  }

  /** The source's prime_test: both verdicts for N, each test drawing its
      own k witnesses. */
  method RunTests(N: int, fermatWitnesses: seq<int>, millerWitnesses: seq<int>)
      returns (fermatVerdict: Verdict, millerVerdict: Verdict)
    requires N >= 1
    requires |fermatWitnesses| == |millerWitnesses|
    requires ValidWitnesses(N, fermatWitnesses) && ValidWitnesses(N, millerWitnesses)
    ensures fermatVerdict == FermatTest(N, fermatWitnesses)
    ensures millerVerdict == MillerRabinTest(N, millerWitnesses)
    ensures fermatVerdict != Composite && millerVerdict != NotPrime
    ensures N == 1 ==> fermatVerdict == Prime && millerVerdict == Prime
    ensures fermatWitnesses == millerWitnesses && millerVerdict == Prime ==> fermatVerdict == Prime
  {
    var drawnF, drawnM;
    fermatVerdict, drawnF := Fermat(N, fermatWitnesses);
    millerVerdict, drawnM := MillerRabin(N, millerWitnesses);
    MillerRabinPrimeImpliesFermatPrime(N, fermatWitnesses);
  }

  /** 2^10 mod 1000 == 24. */
  lemma ModExpOfTwoToTheTen()
    ensures ModExp(2, 10, 1000) == 24
  {
    assert Pow(2, 10) == 1024;
  }

  /** Every base in [2, 6] passes the Miller-Rabin check for N = 7, where
      6 = 3 * 2^1: a^3 mod 7 is 1 or 6. */
  lemma SevenWitness(a: int)
    requires 2 <= a <= 6
    ensures WitnessPasses(7, Factor(6), a)
  {
    FactorUnique(6, 3, 1);
    assert StrongTerm(7, 3, 0, a) == ModExp(a, 3, 7);
    if a == 2 {
      assert ModExp(2, 3, 7) == 1;
    } else if a == 3 {
      assert ModExp(3, 3, 7) == 6;
    } else if a == 4 {
      assert ModExp(4, 3, 7) == 1;
    } else if a == 5 {
      assert ModExp(5, 3, 7) == 6;
    } else {
      assert ModExp(6, 3, 7) == 6;
    }
  }

  /** N = 7 is reported prime by both tests, whatever the witnesses. */
  lemma SevenPassesBothTests(W: seq<int>)
    requires ValidWitnesses(7, W)
    ensures MillerRabinTest(7, W) == Prime && FermatTest(7, W) == Prime
  {
    forall i | 0 <= i < |W|
      ensures WitnessPasses(7, Factor(6), W[i])
    {
      SevenWitness(W[i]);
    }
    MillerRabinPrimeImpliesFermatPrime(7, W);
  }

  /** N = 15 with witness 4: 4^14 mod 15 == 1, so Fermat reports 'prime';
      14 = 7 * 2^1 and 4^7 mod 15 == 4, which is neither 1 nor 14, so
      Miller-Rabin reports 'composite'. */
  lemma FermatLiarCaughtByMillerRabin()
    ensures FermatTest(15, [4]) == Prime
    ensures MillerRabinTest(15, [4]) == Composite
  {
    FactorUnique(14, 7, 1);
    assert ModExp(4, 7, 15) == 4;
    assert ModExp(4, 14, 15) == 1;
    assert StrongTerm(15, 7, 0, 4) == 4;
    assert !WitnessPasses(15, Factor(14), [4][0]);
  }
}
