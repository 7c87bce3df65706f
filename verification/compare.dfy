/** Element-wise comparison of two result vectors within an absolute tolerance,
    as done by the verifiers of the SpMV and matrix-multiplication kernels:
    count the indices whose difference exceeds the tolerance, remember the
    first five of them for the diagnostic printout, pass iff there are none.
 */
module Compare {
  import opened Partition

  function Abs(x: real): real {
    if x < 0.0 then -x else x
  }

  /** The source's error test: |a - b| > tol. */
  predicate Mismatch(a: real, b: real, tol: real) {
    Abs(a - b) > tol
  }

  /** How many mismatching indices are printed individually. */
  const MaxReported: nat := 5

  /** The indices below n where a and b differ by more than tol, in ascending order. */
  function Mismatches(a: seq<real>, b: seq<real>, tol: real, n: nat): seq<nat>
    requires n <= |a| && n <= |b|
    decreases n
  {
    if n == 0 then []
    else Mismatches(a, b, tol, n - 1) + (if Mismatch(a[n - 1], b[n - 1], tol) then [n - 1] else [])
  }

  /** Mismatches lists exactly the mismatching indices below n, each once, ascending. */
  lemma {:induction false} MismatchesFacts(a: seq<real>, b: seq<real>, tol: real, n: nat)
    requires n <= |a| && n <= |b|
    ensures forall k :: 0 <= k < |Mismatches(a, b, tol, n)| ==>
              Mismatches(a, b, tol, n)[k] < n &&
              Mismatch(a[Mismatches(a, b, tol, n)[k]], b[Mismatches(a, b, tol, n)[k]], tol)
    ensures forall i :: 0 <= i < n && Mismatch(a[i], b[i], tol) ==> i in Mismatches(a, b, tol, n)
    ensures forall k, l :: 0 <= k < l < |Mismatches(a, b, tol, n)| ==>
              Mismatches(a, b, tol, n)[k] < Mismatches(a, b, tol, n)[l]
    decreases n
  {
    if n > 0 {
      MismatchesFacts(a, b, tol, n - 1);
    }
  }

  /** No mismatch at all exactly when every pair is within tolerance. */
  lemma NoMismatchesIffClose(a: seq<real>, b: seq<real>, tol: real, n: nat)
    requires n <= |a| && n <= |b|
    ensures |Mismatches(a, b, tol, n)| == 0 <==> forall i :: 0 <= i < n ==> !Mismatch(a[i], b[i], tol)
  {
    MismatchesFacts(a, b, tol, n);
    if |Mismatches(a, b, tol, n)| > 0 {
      assert Mismatches(a, b, tol, n)[0] < n;
    }
  }

  /** Compare a and b element-wise: errors is the number of mismatching indices,
      reported holds the first MaxReported of them, and passed means no mismatch. */
  method VerifyResults(a: seq<real>, b: seq<real>, tol: real) returns (passed: bool, errors: nat, reported: seq<nat>)
    requires |a| == |b|
    ensures errors == |Mismatches(a, b, tol, |a|)|
    ensures reported == Mismatches(a, b, tol, |a|)[..Min(MaxReported, errors)]
    ensures passed <==> forall i :: 0 <= i < |a| ==> Abs(a[i] - b[i]) <= tol
  {
    errors := 0;
    reported := [];
    for i := 0 to |a|
      invariant errors == |Mismatches(a, b, tol, i)|
      invariant reported == Mismatches(a, b, tol, i)[..Min(MaxReported, errors)]
    {
      if Abs(a[i] - b[i]) > tol {
        errors := errors + 1;
        if errors <= MaxReported {
          reported := reported + [i];
        }
      }
    }
    NoMismatchesIffClose(a, b, tol, |a|);
    passed := errors == 0;
  }
}
