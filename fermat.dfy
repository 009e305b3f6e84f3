/** The Fermat compositeness test, with its random bases supplied as a sequence. */
module FermatTester {
  import opened Primality
  import opened ModularExponentiation

  /** Base a does not expose N: a^(N-1) mod N == 1. */
  predicate FermatPasses(N: int, a: int)
    requires N >= 1
  {
    ModExp(a, N - 1, N) == 1
  }

  /** What the test concludes from the witnesses W: 'prime' for N == 1, otherwise
      'not prime' exactly when some witness fails. */
  function FermatTest(N: int, W: seq<int>): Verdict
    requires N >= 1
  {
    if N != 1 && exists i :: 0 <= i < |W| && !FermatPasses(N, W[i]) then NotPrime else Prime
  }

  /** The test as the source runs it: one witness per iteration, stopping at the
      first witness that fails. `drawn` is the number of witnesses consumed. */
  method Fermat(N: int, W: seq<int>) returns (v: Verdict, drawn: nat)
    requires N >= 1
    requires ValidWitnesses(N, W)
    ensures v == FermatTest(N, W)
    ensures drawn <= |W|
    ensures v == Prime ==> drawn == (if N == 1 then 0 else |W|)
    ensures v == NotPrime ==>
              && 0 < drawn
              && !FermatPasses(N, W[drawn - 1])
              && forall i :: 0 <= i < drawn - 1 ==> FermatPasses(N, W[i])
  {
    if N == 1 {
      return Prime, 0;
    }
    for i := 0 to |W|
      invariant forall j :: 0 <= j < i ==> FermatPasses(N, W[j])
    {
      var a := W[i];
      if ModExp(a, N - 1, N) != 1 {
        return NotPrime, i + 1;
      }
    }
    return Prime, |W|;
  }
}
