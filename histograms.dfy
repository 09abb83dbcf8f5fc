/**
 * The loop shared by the histograms of the research questions: the metric of
 * every window in turn, appended to a list, stopping at the first error.
 */
module Histograms {
  import opened Outcomes

  /** A metric as a loop step that always adds its value, or raises its error. */
  function Always(r: Result<real>): Result<Option<real>> {
    if r.Failure? then Failure(r.error) else Success(Some(r.value))
  }

  /**
   * The loop both histograms run: `for k in range(n): ys.append(m(k))`, the
   * metric of every window in order, or the first error.
   */
  function Hist(n: nat, m: int -> Result<real>): Result<seq<real>> {
    Collect(seq(n, k => Always(m(k))))
  }

  /** The loop completes exactly when every window has a metric, and then lists them. */
  lemma HistSpec(n: nat, m: int -> Result<real>)
    ensures Hist(n, m).Success? <==> forall k :: 0 <= k < n ==> m(k).Success?
    ensures Hist(n, m).Success? ==>
              |Hist(n, m).value| == n && forall k :: 0 <= k < n ==> m(k) == Success(Hist(n, m).value[k])
    ensures Hist(n, m).Failure? ==> exists k :: 0 <= k < n && m(k) == Failure(Hist(n, m).error)
  {
    var rs := seq(n, k => Always(m(k)));
    assert forall k :: 0 <= k < n ==> rs[k] == Always(m(k));
    CollectSuccess(rs);
    if Collect(rs).Success? {
      CollectAll(rs);
    } else {
      CollectFailure(rs);
    }
  }

  /** A histogram of fractions: every value in [0, 1], every error a division by zero. */
  predicate Fractions(r: Result<seq<real>>) {
    && (r.Success? ==> forall k :: 0 <= k < |r.value| ==> 0.0 <= r.value[k] <= 1.0)
    && (r.Failure? ==> r.error == ZeroDivision)
  }

  /** A single metric is a fraction in [0, 1], or a division by zero. */
  predicate Fraction(r: Result<real>) {
    && (r.Success? ==> 0.0 <= r.value <= 1.0)
    && (r.Failure? ==> r.error == ZeroDivision)
  }

  /** A loop over windows whose every metric is a fraction gives fractions. */
  lemma HistFractions(n: nat, m: int -> Result<real>)
    requires forall k :: 0 <= k < n ==> Fraction(m(k))
    ensures Fractions(Hist(n, m))
  {
    HistSpec(n, m);
  }

}
