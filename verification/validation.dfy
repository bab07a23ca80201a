/** The argument check every driver opens with: an ordered `else if` chain of
    tests, each naming the (negated, 1-based) position of the argument it
    guards. The first test that fails decides the status code. */
module Validation {

  /** One link of the chain: `ok` is the test, `code` the status it reports
      when the test fails. */
  datatype Check = Check(ok: bool, code: int)

  predicate AllPass(checks: seq<Check>)
  {
    forall k :: 0 <= k < |checks| ==> checks[k].ok
  }

  /** Check k is the first one that fails. */
  predicate FirstFailureAt(checks: seq<Check>, k: int)
  {
    0 <= k < |checks| && !checks[k].ok && AllPass(checks[..k])
  }

  /** The status the chain reports: 0 when every test passes, otherwise the
      code of the first failing test. */
  function FirstFailure(checks: seq<Check>): (info: int)
    ensures AllPass(checks) ==> info == 0
    ensures forall k :: FirstFailureAt(checks, k) ==> info == checks[k].code
  {
    if |checks| == 0 then 0
    else if !checks[0].ok then checks[0].code
    else
      var rest := FirstFailure(checks[1..]);
      assert forall k :: FirstFailureAt(checks, k) ==> k >= 1 && FirstFailureAt(checks[1..], k - 1) by {
        forall k | FirstFailureAt(checks, k)
          ensures k >= 1 && FirstFailureAt(checks[1..], k - 1)
        {
          assert checks[1..][..k - 1] == checks[1..k];
        }
      }
      rest
  }

  /** When some test fails, there is a first one. */
  lemma {:induction false} SomeFailureHasFirst(checks: seq<Check>)
    requires !AllPass(checks)
    ensures exists k :: FirstFailureAt(checks, k)
  {
    if checks[0].ok {
      SomeFailureHasFirst(checks[1..]);
      var k :| FirstFailureAt(checks[1..], k);
      assert checks[..k + 1] == [checks[0]] + checks[1..][..k];
      assert FirstFailureAt(checks, k + 1);
    } else {
      assert FirstFailureAt(checks, 0);
    }
  }

  /** The codes of a chain are pairwise distinct and nonzero, so the status
      identifies the failing test. */
  predicate DistinctCodes(checks: seq<Check>)
  {
    && (forall k :: 0 <= k < |checks| ==> checks[k].code != 0)
    && (forall j, k :: 0 <= j < k < |checks| ==> checks[j].code != checks[k].code)
  }

  /** With distinct nonzero codes the chain's status is an exact decoding:
      it is 0 exactly when every test passes, and it is the code of test k
      exactly when test k is the first to fail. */
  lemma FirstFailureDecodes(checks: seq<Check>, k: int)
    requires DistinctCodes(checks)
    requires 0 <= k < |checks|
    ensures FirstFailure(checks) == 0 <==> AllPass(checks)
    ensures FirstFailure(checks) == checks[k].code <==> FirstFailureAt(checks, k)
  {
    if !AllPass(checks) {
      SomeFailureHasFirst(checks);
      var j :| FirstFailureAt(checks, j);
      if j < k {
        assert checks[k..][0] == checks[k];
      }
      if k < j {
        assert checks[..j][k] == checks[k];
      }
    }
  }
}
