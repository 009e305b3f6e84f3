/** Vocabulary shared by the two primality tests. */
module Primality {

  /** The three labels the tests return: 'prime' (both tests),
      'not prime' (the Fermat test) and 'composite' (the Miller-Rabin test). */
  datatype Verdict = Prime | NotPrime | Composite

  /** The witnesses a test may be handed in place of its random draws: every
      draw lies in [2, N - 1]. For N == 1 no witness is ever drawn, so the
      sequence is then unconstrained. */
  predicate ValidWitnesses(N: int, W: seq<int>)
  {
    N != 1 ==> forall i :: 0 <= i < |W| ==> 2 <= W[i] <= N - 1
  }
}
