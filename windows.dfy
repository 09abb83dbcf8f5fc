/**
 * The sliding windows of the research questions: the baseline histogram over
 * every run of W consecutive hadiths (`get_hist_all`) and the W windows that
 * overlap one hadith (`get_hist_by_hadith`).
 */
module Windows {
  import opened Outcomes
  import opened Sequences
  import opened Chains
  import opened Corpus
  import opened Metrics
  import opened Histograms

  // ---------------------------------------------------------------------------
  // get_hist_all
  // ---------------------------------------------------------------------------

  /** `len(range(NUM_H - W))`: how many baseline windows there are. */
  function WindowCount(n: nat, w: int): nat {
    if n - w < 0 then 0 else n - w
  }

  /** The metric of the baseline window of hadith positions [k, k + W). */
  function Baseline(q: Question, s: IsnadSet, accused: set<int>, w: int): int -> Result<real> {
    k => Metric(q, RangeHadith(s, k, k + w), accused)
  }

  /** What `get_hist_all(W)` returns. */
  function HistAll(q: Question, s: IsnadSet, accused: set<int>, w: int): Result<seq<real>> {
    Hist(WindowCount(|s.hadiths|, w), Baseline(q, s, accused, w))
  }

  /** `get_hist_all`: slides a window of `w` hadiths along the hadith list. */
  method GetHistAll(q: Question, s: IsnadSet, accused: set<int>, w: int) returns (r: Result<seq<real>>)
    ensures r == HistAll(q, s, accused, w)
  {
    ghost var m := Baseline(q, s, accused, w);
    ghost var rs := seq(WindowCount(|s.hadiths|, w), k => Always(m(k)));
    var ys: seq<real> := [];
    var hi := 0;
    while hi < |s.hadiths| - w
      invariant 0 <= hi <= |rs|
      invariant Collect(rs[..hi]) == Success(ys)
    {
      var window := GetByRangeHadith(s, hi, hi + w);
      var p := GetP(q, window, accused);
      assert rs[hi] == Always(p);
      if p.Failure? {
        CollectStops(rs, hi);
        return Failure(p.error);
      }
      CollectStep(rs, hi);
      ys := ys + [p.value];
      hi := hi + 1;
    }
    assert rs[..hi] == rs;
    r := Success(ys);
  }

  /**
   * The baseline has `max(0, N - W)` values; the k-th is the metric of the
   * hadiths at positions [k, k + W).
   */
  lemma HistAllSpec(q: Question, s: IsnadSet, accused: set<int>, w: int)
    ensures var r := HistAll(q, s, accused, w);
            r.Success? ==>
              && |r.value| == WindowCount(|s.hadiths|, w)
              && forall k :: 0 <= k < |r.value| ==> Metric(q, RangeHadith(s, k, k + w), accused) == Success(r.value[k])
  {
    HistSpec(WindowCount(|s.hadiths|, w), Baseline(q, s, accused, w));
  }

  /** Every baseline value is in [0, 1]; the only error is a division by zero. */
  lemma HistAllFractions(q: Question, s: IsnadSet, accused: set<int>, w: int)
    ensures Fractions(HistAll(q, s, accused, w))
  {
    var m := Baseline(q, s, accused, w);
    forall k | 0 <= k < WindowCount(|s.hadiths|, w)
      ensures Fraction(m(k))
    {
      MetricSpec(q, RangeHadith(s, k, k + w), accused);
    }
    HistFractions(WindowCount(|s.hadiths|, w), m);
  }

  /** A window over at least one hadith of a well-formed set has a metric. */
  lemma WindowDefined(q: Question, s: IsnadSet, accused: set<int>, a: int, b: int, h: int)
    requires Consistent(s) && AllWellFormed(s.isnads)
    requires h in RangeHadith(s, a, b).hadiths
    ensures Metric(q, RangeHadith(s, a, b), accused).Success?
  {
    var r := RangeHadith(s, a, b);
    RangeHadithSpec(s, a, b);
    BucketShape(r, h);
    BucketShape(s, h);
    var c := r.byHadith[h][0];
    assert c in r.byHadith[h] && c in s.byHadith[h];
    assert WellFormed(c);
    MetricDefined(q, r, accused);
  }

  /** The hadith at position `i` is in every slice around it. */
  lemma SliceHolds(hs: seq<int>, a: int, b: int, i: nat)
    requires a <= i < b && i < |hs|
    ensures PySlice(hs, ClampLow(a), b) == hs[ClampLow(a)..if b < |hs| then b else |hs|]
    ensures hs[i] in PySlice(hs, ClampLow(a), b)
  {
    var lo, up := ClampLow(a), if b < |hs| then b else |hs|;
    assert hs[lo..up][i - lo] == hs[i];
  }

  /** On a well-formed set, a baseline window of W >= 1 hadiths has a metric. */
  lemma BaselineDefined(q: Question, s: IsnadSet, accused: set<int>, w: int, k: nat)
    requires Consistent(s) && AllWellFormed(s.isnads) && w >= 1 && k < WindowCount(|s.hadiths|, w)
    ensures Baseline(q, s, accused, w)(k).Success?
  {
    var a, b := k, k + w;
    assert Baseline(q, s, accused, w)(k) == Metric(q, RangeHadith(s, a, b), accused);
    WindowSlice(s, a, b, k);
    WindowDefined(q, s, accused, a, b, s.hadiths[k]);
  }

  /** On a well-formed set the baseline never divides by zero when W >= 1. */
  lemma HistAllDefined(q: Question, s: IsnadSet, accused: set<int>, w: int)
    requires Consistent(s) && AllWellFormed(s.isnads) && w >= 1
    ensures HistAll(q, s, accused, w).Success?
  {
    var n, m := WindowCount(|s.hadiths|, w), Baseline(q, s, accused, w);
    forall k | 0 <= k < n
      ensures m(k).Success?
    {
      BaselineDefined(q, s, accused, w, k);
    }
    HistSpec(n, m);
  }

  // ---------------------------------------------------------------------------
  // get_hist_by_hadith
  // ---------------------------------------------------------------------------

  /** Whether `hadiths_list[hi]` is a valid Python index. */
  predicate IndexOk(n: nat, hi: int) {
    -(n as int) <= hi < n
  }

  /** The position `hadiths_list[hi]` reads, for a valid index. */
  function Position(n: nat, hi: int): (r: nat)
    requires IndexOk(n, hi)
    ensures r < n
  {
    if hi < 0 then hi + n else hi
  }

  /** The k-th window overlapping position `hi`: hadith positions [hi+k-W+1, hi+k+1). */
  function Overlap(s: IsnadSet, hi: int, w: int, k: int): IsnadSet {
    RangeHadith(s, hi + k - w + 1, hi + k + 1)
  }

  /**
   * Iteration k of `get_hist_by_hadith`: the window is built, the hadith id
   * is read (which raises on a bad index), then the metric is computed.
   */
  function Overlapping(q: Question, s: IsnadSet, accused: set<int>, hi: int, w: int): int -> Result<real> {
    k => if !IndexOk(|s.hadiths|, hi) then Failure(IndexError) else Metric(q, Overlap(s, hi, w, k), accused)
  }

  /** What `get_hist_by_hadith(hi, W)` returns. */
  function HistByHadith(q: Question, s: IsnadSet, accused: set<int>, hi: int, w: int): Result<seq<real>> {
    Hist(if w < 0 then 0 else w, Overlapping(q, s, accused, hi, w))
  }

  /** `get_hist_by_hadith`: the metric of every window of `w` hadiths that overlaps hadith `hi`. */
  method GetHistByHadith(q: Question, s: IsnadSet, accused: set<int>, hi: int, w: int)
    returns (r: Result<seq<real>>)
    ensures r == HistByHadith(q, s, accused, hi, w)
  {
    ghost var m := Overlapping(q, s, accused, hi, w);
    ghost var rs := seq(if w < 0 then 0 else w, k => Always(m(k)));
    var ys: seq<real> := [];
    var i := 0;
    while i < w
      invariant 0 <= i <= |rs|
      invariant Collect(rs[..i]) == Success(ys)
    {
      var window := GetByRangeHadith(s, hi + i - w + 1, hi + i + 1);
      if !IndexOk(|s.hadiths|, hi) {
        assert m(i) == Failure(IndexError);
        CollectStops(rs, i);
        return Failure(IndexError);
      }
      var hid := s.hadiths[Position(|s.hadiths|, hi)];
      var p := GetP(q, window, accused);
      assert rs[i] == Always(p);
      if p.Failure? {
        CollectStops(rs, i);
        return Failure(p.error);
      }
      CollectStep(rs, i);
      ys := ys + [p.value];
      i := i + 1;
    }
    assert rs[..i] == rs;
    r := Success(ys);
  }

  /**
   * A non-positive W gives no windows; otherwise a bad index raises
   * IndexError, and a good one gives W values, the k-th the metric of the
   * k-th overlapping window.
   */
  lemma HistByHadithSpec(q: Question, s: IsnadSet, accused: set<int>, hi: int, w: int)
    ensures w <= 0 ==> HistByHadith(q, s, accused, hi, w) == Success([])
    ensures w > 0 && !IndexOk(|s.hadiths|, hi) ==> HistByHadith(q, s, accused, hi, w) == Failure(IndexError)
    ensures var r := HistByHadith(q, s, accused, hi, w);
            r.Success? ==>
              && |r.value| == (if w < 0 then 0 else w)
              && forall k :: 0 <= k < |r.value| ==> Metric(q, Overlap(s, hi, w, k), accused) == Success(r.value[k])
  {
    var m := Overlapping(q, s, accused, hi, w);
    HistSpec(if w < 0 then 0 else w, m);
    if w > 0 && !IndexOk(|s.hadiths|, hi) {
      assert m(0) == Failure(IndexError);
    }
  }

  /** With a valid index every value is in [0, 1] and the only error is a division by zero. */
  lemma HistByHadithFractions(q: Question, s: IsnadSet, accused: set<int>, hi: int, w: int)
    requires IndexOk(|s.hadiths|, hi)
    ensures Fractions(HistByHadith(q, s, accused, hi, w))
  {
    var m := Overlapping(q, s, accused, hi, w);
    forall k | 0 <= k < w
      ensures Fraction(m(k))
    {
      MetricSpec(q, Overlap(s, hi, w, k), accused);
    }
    HistFractions(if w < 0 then 0 else w, m);
  }

  /**
   * Every window overlapping hadith position `hi` holds that hadith: the k-th
   * holds exactly the hadiths at positions [max(0, hi+k-W+1), min(N, hi+k+1)).
   */
  lemma OverlapContains(s: IsnadSet, hi: int, w: int, k: int)
    requires Consistent(s) && 0 <= hi < |s.hadiths| && 0 <= k < w
    ensures Overlap(s, hi, w, k).hadiths ==
            s.hadiths[ClampLow(hi + k - w + 1)..if hi + k + 1 < |s.hadiths| then hi + k + 1 else |s.hadiths|]
    ensures s.hadiths[hi] in Overlap(s, hi, w, k).hadiths
  {
    var a, b := hi + k - w + 1, hi + k + 1;
    assert Overlap(s, hi, w, k) == RangeHadith(s, a, b);
    WindowSlice(s, a, b, hi);
  }

  /** A window of hadith positions [a, b) around position `i` holds the hadiths of the clipped range. */
  lemma WindowSlice(s: IsnadSet, a: int, b: int, i: nat)
    requires Consistent(s) && a <= i < b && i < |s.hadiths|
    ensures RangeHadith(s, a, b).hadiths == s.hadiths[ClampLow(a)..if b < |s.hadiths| then b else |s.hadiths|]
    ensures s.hadiths[i] in RangeHadith(s, a, b).hadiths
  {
    RangeHadithSpec(s, a, b);
    SliceHolds(s.hadiths, a, b, i);
  }

  /** On a well-formed set, a window overlapping a hadith position has a metric. */
  lemma OverlapDefined(q: Question, s: IsnadSet, accused: set<int>, hi: int, w: int, k: nat)
    requires Consistent(s) && AllWellFormed(s.isnads) && 0 <= hi < |s.hadiths| && k < w
    ensures Metric(q, Overlap(s, hi, w, k), accused).Success?
  {
    var a, b := hi + k - w + 1, hi + k + 1;
    assert Overlap(s, hi, w, k) == RangeHadith(s, a, b);
    WindowSlice(s, a, b, hi);
    WindowDefined(q, s, accused, a, b, s.hadiths[hi]);
  }

  /** On a well-formed set, every window overlapping a hadith position has a metric. */
  lemma HistByHadithDefined(q: Question, s: IsnadSet, accused: set<int>, hi: int, w: int)
    requires Consistent(s) && AllWellFormed(s.isnads) && 0 <= hi < |s.hadiths|
    ensures HistByHadith(q, s, accused, hi, w).Success?
  {
    var n, m := if w < 0 then 0 else w, Overlapping(q, s, accused, hi, w);
    forall k | 0 <= k < n
      ensures m(k).Success?
    {
      OverlapDefined(q, s, accused, hi, w, k);
      assert IndexOk(|s.hadiths|, hi);
    }
    HistSpec(n, m);
  }
}
