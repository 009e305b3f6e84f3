# Fermat and Miller-Rabin primality tests

A Dafny model of `proj1/fermat.py`. The file holds three pieces. The first is
`mod_exp`, a recursive modular exponentiation by repeated squaring. The second
is `fermat`, the Fermat compositeness test. The third is `miller_rabin`, the
Miller-Rabin strong-pseudoprime test. `prime_test` runs both tests on the same
number.

The source draws its witnesses with `randint(2, N - 1)`. The model takes them
as a sequence `W` instead, and `k` is `|W|`. Each test is then a deterministic
function of `(N, W)`:

- `ModularExponentiation` (`mod_exp.dfy`) holds `ModExp`, proved equal to
  `x^y mod N` for `y >= 1` and equal to `1` for `y == 0`. It also holds the
  reference power `Pow` and the modular-arithmetic lemmas behind the proof.
- `FermatTester` (`fermat.dfy`) holds `FermatTest`, which states the verdict,
  and `Fermat`, the source's loop with its early return.
- `MillerRabinTester` (`miller_rabin.dfy`) holds three groups of members:
  - the factorisation `N - 1 = n * 2^length`: the `Factor` function, its
    uniqueness lemma, and the halving loop `SplitPowersOfTwo`;
  - the closed-form witness check `WitnessPasses`: `a^n mod N == 1`, or
    `a^(2^j * n) mod N == N - 1` for some `j < length`;
  - the loops `StrongRound` (one witness) and `MillerRabin` (all witnesses).
- `PrimeTest` (`prime_test.dfy`) holds `RunTests` (the source's
  `prime_test`). It also proves that a witness passing the Miller-Rabin check
  passes the Fermat check, so on the same witnesses a Miller-Rabin 'prime'
  implies a Fermat 'prime'. Last come worked cases: `mod_exp(2, 10, 1000) == 24`,
  `N = 7`, and a Fermat liar that Miller-Rabin catches.
- `Primality` (`primality.dfy`) holds the `Verdict` labels and the witness
  precondition.

The three result strings `'prime'`, `'not prime'` and `'composite'` become
the constructors `Prime`, `NotPrime` and `Composite` of `Verdict`. Both test
methods also return `drawn`, the number of witnesses the source would have
drawn from its generator. This makes the early exits observable: no draw at
all for `N == 1`, and a stop at the first failing witness.

The Miller-Rabin inner loop compares `val` with `N - 1` before each squaring
(`proj1/fermat.py:187-194`), so the value left by the last squaring is never
compared. The model follows this, with `j` ranging over `0 <= j < length`.
The `miller_rabin` docstring (`proj1/fermat.py:130-132`) describes a different
order, starting from `a^(N-1)` and taking square roots; the model follows the
code.
The Fermat docstring says the function returns 'composite', but the code
returns 'not prime' (`proj1/fermat.py:123`). The `prime_test` docstring speaks of two booleans, but the code returns the two strings (`proj1/fermat.py:16`). In both cases the model follows the code.

## Model

| member | source | states |
|---|---|---|
| ModularExponentiation.ModExp | proj1/fermat.py:57-65 | For `y == 0` the result is 1 whatever `x` and `N` are, so it is not reduced modulo N and `ModExp(x, 0, 1) == 1`. For `y >= 1` it is `x^y mod N` and lies in `[0, N - 1]`, for any sign of `x`. It terminates because `y / 2` (even `y > 0`) and `y - 1` (odd `y`) are smaller than `y`. |
| FermatTester.Fermat | proj1/fermat.py:117-125 | The verdict is 'prime' for `N == 1`, with no witness drawn. Otherwise it is 'not prime' exactly when some witness `a` has `a^(N-1) mod N != 1`. It stops at the first such witness: all earlier ones pass, and that one is the last drawn. On 'prime' with `N != 1` all k witnesses were drawn. |
| MillerRabinTester.Factor | proj1/fermat.py:174-179 | For `m >= 1`, `m == n * 2^length` with `n` odd and positive. |
| MillerRabinTester.FactorUnique | proj1/fermat.py:174-179 | The odd part and the power of two of `m` are unique, so `length` is exactly the number of halvings. |
| MillerRabinTester.SplitPowersOfTwo | proj1/fermat.py:174-179 | The halving loop keeps `n * 2^length == N - 1`. On exit `n` is odd and `(n, length)` is `Factor(N - 1)`. It needs `N - 1 >= 1`, which the `N == 1` guard provides; on 0 the loop would never stop. |
| MillerRabinTester.StrongTermStep | proj1/fermat.py:193-194 | Squaring `a^(2^j * n) mod N` modulo N gives `a^(2^(j+1) * n) mod N`, so `val` before the j-th squaring is the j-th term of the chain. |
| MillerRabinTester.StrongRound | proj1/fermat.py:183-197 | One witness: `check` is true exactly when `a^n mod N != 1` and `a^(2^j * n) mod N != N - 1` for every `0 <= j < length`. With `length == 0`, any `val != 1` proves N composite. |
| MillerRabinTester.MillerRabin | proj1/fermat.py:171-199 | The verdict is 'prime' for `N == 1`, with no witness drawn. Otherwise it is 'composite' exactly when some witness fails the strong check against `Factor(N - 1)`. It stops at the first failing witness, and all k witnesses are drawn on 'prime'. |
| PrimeTest.OnePersists | proj1/fermat.py:193-194 | Once a term of the squaring chain is 1, every later term is 1. |
| PrimeTest.MinusOneSightingReachesOne | proj1/fermat.py:188-194 | An `N - 1` seen before the last squaring makes the last term, `a^(N-1) mod N`, equal 1. |
| PrimeTest.LastTermIsFermatPower | proj1/fermat.py:174-179 | The term after `length` squarings is the Fermat power `a^(N-1) mod N`. |
| PrimeTest.StrongWitnessIsFermatWitness | proj1/fermat.py:183-197 | A witness that passes the Miller-Rabin check satisfies `a^(N-1) mod N == 1`, the Fermat check of line 122. |
| PrimeTest.MillerRabinPrimeImpliesFermatPrime | proj1/fermat.py:120-125 | On the same witness sequence, a Miller-Rabin 'prime' implies a Fermat 'prime', and a Fermat 'not prime' implies a Miller-Rabin 'composite'. |
| PrimeTest.NoSquaringsWhenNMinusOneOdd | proj1/fermat.py:185-197 | When `N - 1` is odd, `length == 0`, and a witness passes the Miller-Rabin check exactly when it passes the Fermat check. |
| PrimeTest.RunTests | proj1/fermat.py:4-16 | Returns the Fermat verdict and the Miller-Rabin verdict for N, each from its own k witnesses. Each verdict uses only its own test's labels, and both are 'prime' for `N == 1`. |
| PrimeTest.ModExpOfTwoToTheTen | proj1/fermat.py:57-65 | `mod_exp(2, 10, 1000) == 24`. |
| PrimeTest.SevenWitness | proj1/fermat.py:181-197 | Every base in `[2, 6]` passes the Miller-Rabin check for `N = 7`. |
| PrimeTest.SevenPassesBothTests | proj1/fermat.py:78-199 | `N = 7` is reported 'prime' by both tests with any valid witnesses. |
| PrimeTest.FermatLiarCaughtByMillerRabin | proj1/fermat.py:78-199 | For `N = 15` and witness 4, Fermat reports 'prime' (`4^14 mod 15 == 1`) while Miller-Rabin reports 'composite' (`4^7 mod 15 == 4`). |

## Left out

- `randint` (proj1/fermat.py:1, 121, 182) is replaced by a caller-supplied witness sequence. Each element lies in `[2, N - 1]` unless `N == 1`, where no witness is ever drawn. With k >= 1 this forces `N >= 3`; for `N == 2` the source's `randint(2, 1)` raises, and the model excludes that case rather than inventing behaviour for it.
- RunTests: each test takes its own witness sequence of the same length k. In the source both tests draw from one shared generator, so Miller-Rabin's witnesses start where Fermat's early exit left off; that interleaving is not modelled.
- `fprobability` and `mprobability` (proj1/fermat.py:68-75) are floating-point formulas with no logic to verify; floats are out of scope.
- Python 3 true division: `y / 2` (line 61) and `n /= 2` (line 178) produce floats. Both are modelled as exact integer halving of an even number. For values above 2^53 the source rounds: `(2^54 + 2) / 2` gives `2^53`, so its halving loop and `mod_exp` then work on wrong exponents. For values above about 2^1024 the source raises `OverflowError`. In both ranges the model gives the exact-integer behaviour, not the source's.
- Inputs with `N < 1` are outside the domain the callers validate, so every member requires `N >= 1`.
- The probabilistic error bounds `(1/2)^k` and `(1/4)^k`, "every prime passes" (Fermat's little theorem) and the behaviour on Carmichael numbers are theorems about the algorithms, not behaviour of this code. They are not proved. The Carmichael case `N = 561` (2^560 mod 561), where every base coprime to N fools Fermat, is not included. `FermatLiarCaughtByMillerRabin` shows one base on which the two tests disagree: for `N = 15` and base 4, Fermat says 'prime' and Miller-Rabin says 'composite'. 15 is not a Carmichael number (only the bases 4, 11 and 14 fool Fermat there, and 14 also fools Miller-Rabin), so that lemma says nothing about the Carmichael blind spot.
- The halving loop and the per-witness squaring loop are inline in `miller_rabin`. The model keeps them as the same loops but puts them in their own methods, `SplitPowersOfTwo` and `StrongRound`.
- The GUI hookup of `prime_test` (line 15) is external.
