/** KRegularGraphTester: its own parameter check, the skip conditions its
    two sweeps test inline, and the key it stores graphs under. The sweeps,
    the storage and the printing are not part of this model. */
module KRegularTester {
  import opened JavaInt
  import opened DecimalLabels
  import KRegularGenerator

  /** validateParameters(n, k): the generator's four guards in the same
      order, then a check that k = 2 needs at least three vertices. */
  function ValidateParameters(n: int, k: int): (valid: bool)
    ensures valid <==> 1 <= k < n && (k == 1 ==> n == 2) && (n * k) % 2 == 0
  {
    KRegularGenerator.WrapKeepsParity(n * k);
    if k >= n then false
    else if k < 1 then false
    else if k == 1 && n != 2 then false
    else if Wrap(n * k) % 2 != 0 then false
    else if k == 2 && n < 3 then false
    else true
  }

  /** The k = 2, n < 3 test never decides anything: a pair that reaches it
      has k < n. */
  lemma SecondDegreeCheckUnreachable(n: int, k: int)
    requires k < n && k == 2
    ensures n >= 3
  {
  }

  /** The tester accepts exactly the pairs the generator does not reject
      up front. */
  lemma ValidateAgreesWithGenerator(n: int, k: int)
    ensures ValidateParameters(n, k) <==> KRegularGenerator.CheckParameters(n, k) == KRegularGenerator.Accepted
  {
  }

  /** The inline skip test of testSpecificK and testSpecificN. */
  function Skips(n: int, k: int): (skip: bool)
    ensures k >= 1 ==> (skip <==> !ValidateParameters(n, k))
  {
    KRegularGenerator.WrapKeepsParity(n * k);
    k >= n || (k == 1 && n != 2) || Wrap(n * k) % 2 != 0 || (k == 2 && n < 3)
  }

  /** The skip test omits k < 1: (4, 0) fails validation but is not
      skipped. */
  lemma SkipMissesZeroDegree()
    ensures !Skips(4, 0) && !ValidateParameters(4, 0)
  {
    assert Wrap(4 * 0) == 0;
  }

  /** getGraphKey(n, k): n + "-" + k. */
  function GraphKey(n: int, k: int): string {
    IntString(n) + "-" + IntString(k)
  }

  /** In the key of a non-negative n, the first '-' follows n's digits. */
  lemma SeparatorAfterDigits(n: int, k: int)
    requires n >= 0
    ensures |IntString(n)| < |GraphKey(n, k)| && GraphKey(n, k)[|IntString(n)|] == '-'
    ensures forall i :: 0 <= i < |IntString(n)| ==> GraphKey(n, k)[i] != '-'
  {
    var a := IntString(n);
    forall i | 0 <= i < |a|
      ensures GraphKey(n, k)[i] != '-'
    {
      assert GraphKey(n, k)[i] == a[i];
    }
  }

  /** Keys of non-negative pairs identify the pair. */
  lemma GraphKeyInjective(n: int, k: int, n': int, k': int)
    requires n >= 0 && k >= 0 && n' >= 0 && k' >= 0
    requires GraphKey(n, k) == GraphKey(n', k')
    ensures n == n' && k == k'
  {
    var a, a' := IntString(n), IntString(n');
    var key := GraphKey(n, k);
    SeparatorAfterDigits(n, k);
    SeparatorAfterDigits(n', k');
    if |a| < |a'| {
      assert false;
    } else if |a'| < |a| {
      assert false;
    }
    assert a == key[..|a|] == a';
    DecimalStringInjective(n, n');
    SamePrefixRest(a + "-", IntString(k), IntString(k'));
    DecimalStringInjective(k, k');
  }
}
