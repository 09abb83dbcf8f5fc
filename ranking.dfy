/**
 * The significance gate `f` and the ranking of `load_hists`: a hadith is kept
 * when the metrics of the windows around it are significantly and largely
 * higher than the baseline, and the kept hadiths are ranked by effect size.
 */
module Ranking {
  import opened Outcomes
  import opened Sequences
  import opened Corpus
  import opened Metrics
  import opened Histograms
  import opened Windows

  /** One row of `load_hists`: (hid, cliff-delta d, cliff-delta res, MW p, MW stat, hist-of-hid). */
  datatype Hist = Hist(hid: int, d: real, res: string, p: real, stat: real, ys: seq<real>)

  /** `mannwhitneyu(xs, ys)`: the statistic and the p-value of the Mann-Whitney U test. */
  type MannWhitney = (seq<real>, seq<real>) -> (real, real)

  /** `cliffs_delta(xs, ys)`: Cliff's delta and its verbal label. */
  type CliffsDelta = (seq<real>, seq<real>) -> (real, string)

  /** The significance level of the test. */
  const Alpha: real := 0.05

  /** The smallest Cliff's delta counted as a large effect. */
  const LargeEffect: real := 0.474

  /** A hadith is kept when its p-value is below the level and its effect is large. */
  predicate Significant(p: real, d: real) {
    p < Alpha && d >= LargeEffect
  }

  /**
   * What `f(self, isnadsets_full, ys_all, i, W)` returns. It gives a row
   * exactly when the windows around hadith `i` have metrics, `i` is a valid
   * index, the test is significant and the effect large; the row carries the
   * hadith id at position `i`, the test results and the windows' metrics. It
   * gives None exactly when the windows have metrics and the result is not
   * significant; otherwise it raises.
   */
  function Gate(q: Question, s: IsnadSet, accused: set<int>, ysAll: seq<real>, i: int, w: int,
                mw: MannWhitney, cd: CliffsDelta): (g: Result<Option<Hist>>)
    ensures var ys := HistByHadith(q, s, accused, i, w);
            g.Success? && g.value.Some? <==>
              ys.Success? && IndexOk(|s.hadiths|, i) && Significant(mw(ys.value, ysAll).1, cd(ys.value, ysAll).0)
    ensures var ys := HistByHadith(q, s, accused, i, w);
            g.Success? && g.value.None? <==>
              ys.Success? && !Significant(mw(ys.value, ysAll).1, cd(ys.value, ysAll).0)
    ensures var ys := HistByHadith(q, s, accused, i, w);
            g.Success? && g.value.Some? ==>
              && (0 <= i ==> g.value.value.hid == s.hadiths[i])
              && g.value.value.ys == ys.value
              && g.value.value.p == mw(ys.value, ysAll).1 && g.value.value.stat == mw(ys.value, ysAll).0
              && g.value.value.d == cd(ys.value, ysAll).0 && g.value.value.res == cd(ys.value, ysAll).1
  {
    var ys := HistByHadith(q, s, accused, i, w);
    if ys.Failure? then Failure(ys.error)
    else
      var (stat, p) := mw(ys.value, ysAll);
      if p < Alpha then
        var (d, res) := cd(ys.value, ysAll);
        if d >= LargeEffect then
          if IndexOk(|s.hadiths|, i) then Success(Some(Hist(s.hadiths[Position(|s.hadiths|, i)], d, res, p, stat, ys.value)))
          else Failure(IndexError)
        else Success(None)
      else Success(None)
  }

  /** `f`: tests the windows around hadith `i` against the baseline `ysAll`. */
  method F(q: Question, s: IsnadSet, accused: set<int>, ysAll: seq<real>, i: int, w: int,
           mw: MannWhitney, cd: CliffsDelta) returns (r: Result<Option<Hist>>)
    ensures r == Gate(q, s, accused, ysAll, i, w, mw, cd)
  {
    var ys := GetHistByHadith(q, s, accused, i, w);
    if ys.Failure? {
      return Failure(ys.error);
    }
    var (stat, p) := mw(ys.value, ysAll);
    if p < Alpha {
      var (d, res) := cd(ys.value, ysAll);
      if d >= LargeEffect {
        if !IndexOk(|s.hadiths|, i) {
          return Failure(IndexError);
        }
        var hid := s.hadiths[Position(|s.hadiths|, i)];
        return Success(Some(Hist(hid, d, res, p, stat, ys.value)));
      }
    }
    r := Success(None);
  }

  // ---------------------------------------------------------------------------
  // load_hists
  // ---------------------------------------------------------------------------

  /** The sort key of `load_hists`: Cliff's delta. */
  function ByDelta(): Hist -> real {
    (h: Hist) => h.d
  }

  /** The gate at every hadith position, in order. */
  function Gates(q: Question, s: IsnadSet, accused: set<int>, ysAll: seq<real>, w: int,
                 mw: MannWhitney, cd: CliffsDelta): seq<Result<Option<Hist>>>
  {
    seq(|s.hadiths|, i => Gate(q, s, accused, ysAll, i, w, mw, cd))
  }

  /** `pool.starmap(f, ...)` over every hadith position, with the Nones dropped. */
  function Gated(q: Question, s: IsnadSet, accused: set<int>, ysAll: seq<real>, w: int,
                 mw: MannWhitney, cd: CliffsDelta): Result<seq<Hist>>
  {
    Collect(Gates(q, s, accused, ysAll, w, mw, cd))
  }

  /** What `load_hists(W)` computes: the kept rows, largest effect first. */
  function LoadHists(q: Question, s: IsnadSet, accused: set<int>, w: int,
                     mw: MannWhitney, cd: CliffsDelta): Result<seq<Hist>>
  {
    var all := HistAll(q, s, accused, w);
    if all.Failure? then Failure(all.error)
    else
      var g := Gated(q, s, accused, all.value, w, mw, cd);
      if g.Failure? then Failure(g.error) else Success(SortDesc(g.value, ByDelta()))
  }

  /** `pool.starmap(f, args)`: the gate at every hadith position, or the first error. */
  method StarMap(q: Question, s: IsnadSet, accused: set<int>, ysAll: seq<real>, w: int,
                 mw: MannWhitney, cd: CliffsDelta) returns (r: Result<seq<Option<Hist>>>)
    ensures var rs := Gates(q, s, accused, ysAll, w, mw, cd);
            r.Success? ==> |r.value| == |rs| && forall j :: 0 <= j < |rs| ==> rs[j] == Success(r.value[j])
    ensures r.Failure? ==> Gated(q, s, accused, ysAll, w, mw, cd) == Failure(r.error)
  {
    ghost var rs := Gates(q, s, accused, ysAll, w, mw, cd);
    var hists: seq<Option<Hist>> := [];
    var i := 0;
    while i < |s.hadiths|
      invariant 0 <= i <= |s.hadiths| && |hists| == i
      invariant forall j :: 0 <= j < i ==> rs[j] == Success(hists[j])
    {
      var h := F(q, s, accused, ysAll, i, w, mw, cd);
      if h.Failure? {
        assert rs[i] == h;
        CollectStopsAfter(rs, hists, i);
        return Failure(h.error);
      }
      hists := hists + [h.value];
      i := i + 1;
    }
    r := Success(hists);
  }

  /** `load_hists`: the baseline, the gate at every hadith, the Nones dropped, then the sort. */
  method ComputeHists(q: Question, s: IsnadSet, accused: set<int>, w: int,
                      mw: MannWhitney, cd: CliffsDelta) returns (r: Result<seq<Hist>>)
    ensures r == LoadHists(q, s, accused, w, mw, cd)
  {
    var all := GetHistAll(q, s, accused, w);
    if all.Failure? {
      return Failure(all.error);
    }
    var hists := StarMap(q, s, accused, all.value, w, mw, cd);
    if hists.Failure? {
      return Failure(hists.error);
    }
    var kept := DropNones(Gates(q, s, accused, all.value, w, mw, cd), hists.value);
    r := Success(SortDesc(kept, ByDelta()));
  }

  /** The ranking is a permutation of the kept rows, sorted by Cliff's delta, largest first. */
  lemma LoadHistsRanked(q: Question, s: IsnadSet, accused: set<int>, w: int, mw: MannWhitney, cd: CliffsDelta)
    requires LoadHists(q, s, accused, w, mw, cd).Success?
    ensures var r, all := LoadHists(q, s, accused, w, mw, cd).value, HistAll(q, s, accused, w).value;
            && multiset(r) == multiset(Gated(q, s, accused, all, w, mw, cd).value)
            && SortedDesc(r, ByDelta())
  {
    var all := HistAll(q, s, accused, w).value;
    SortDescSpec(Gated(q, s, accused, all, w, mw, cd).value, ByDelta());
  }

  /** A row is ranked exactly when the gate gives it for some hadith position. */
  lemma LoadHistsMembers(q: Question, s: IsnadSet, accused: set<int>, w: int, mw: MannWhitney, cd: CliffsDelta)
    requires LoadHists(q, s, accused, w, mw, cd).Success?
    ensures var r, all := LoadHists(q, s, accused, w, mw, cd).value, HistAll(q, s, accused, w).value;
            forall h :: h in r <==>
              exists i :: 0 <= i < |s.hadiths| && Gate(q, s, accused, all, i, w, mw, cd) == Success(Some(h))
  {
    var all := HistAll(q, s, accused, w).value;
    var rs := Gates(q, s, accused, all, w, mw, cd);
    var g := Collect(rs).value;
    SortDescSpec(g, ByDelta());
    CollectMembers(rs);
    forall h | h in LoadHists(q, s, accused, w, mw, cd).value
      ensures exists i :: 0 <= i < |s.hadiths| && Gate(q, s, accused, all, i, w, mw, cd) == Success(Some(h))
    {
      assert h in multiset(g);
      var i :| 0 <= i < |rs| && rs[i] == Success(Some(h));
    }
    forall h, i | 0 <= i < |s.hadiths| && Gate(q, s, accused, all, i, w, mw, cd) == Success(Some(h))
      ensures h in LoadHists(q, s, accused, w, mw, cd).value
    {
      assert rs[i] == Success(Some(h));
      CollectKeeps(rs, i);
      assert h in multiset(SortDesc(g, ByDelta()));
    }
  }

  /** Every ranked row is significant with a large effect and names a hadith of the set. */
  lemma LoadHistsSignificant(q: Question, s: IsnadSet, accused: set<int>, w: int, mw: MannWhitney, cd: CliffsDelta)
    requires LoadHists(q, s, accused, w, mw, cd).Success?
    ensures forall h :: h in LoadHists(q, s, accused, w, mw, cd).value ==>
              Significant(h.p, h.d) && h.hid in s.hadiths
  {
    var all := HistAll(q, s, accused, w).value;
    LoadHistsMembers(q, s, accused, w, mw, cd);
    forall h | h in LoadHists(q, s, accused, w, mw, cd).value
      ensures Significant(h.p, h.d) && h.hid in s.hadiths
    {
      var i :| 0 <= i < |s.hadiths| && Gate(q, s, accused, all, i, w, mw, cd) == Success(Some(h));
    }
  }

  /** At a hadith position the gate raises only a division by zero, and never on a well-formed set. */
  lemma GateAt(q: Question, s: IsnadSet, accused: set<int>, ysAll: seq<real>, i: nat, w: int,
               mw: MannWhitney, cd: CliffsDelta)
    requires i < |s.hadiths|
    ensures Gate(q, s, accused, ysAll, i, w, mw, cd).Failure? ==> Gate(q, s, accused, ysAll, i, w, mw, cd).error == ZeroDivision
    ensures Consistent(s) && AllWellFormed(s.isnads) ==> Gate(q, s, accused, ysAll, i, w, mw, cd).Success?
  {
    HistByHadithFractions(q, s, accused, i, w);
    if Consistent(s) && AllWellFormed(s.isnads) {
      HistByHadithDefined(q, s, accused, i, w);
    }
  }

  /** `load_hists` raises only a division by zero in some window. */
  lemma LoadHistsErrors(q: Question, s: IsnadSet, accused: set<int>, w: int, mw: MannWhitney, cd: CliffsDelta)
    requires LoadHists(q, s, accused, w, mw, cd).Failure?
    ensures LoadHists(q, s, accused, w, mw, cd).error == ZeroDivision
  {
    HistAllFractions(q, s, accused, w);
    var all := HistAll(q, s, accused, w);
    if all.Success? {
      var rs := Gates(q, s, accused, all.value, w, mw, cd);
      CollectFailure(rs);
      var i :| 0 <= i < |rs| && rs[i] == Failure(Collect(rs).error);
      GateAt(q, s, accused, all.value, i, w, mw, cd);
    }
  }

  /** On a consistent set of well-formed isnads and W >= 1, `load_hists` never raises. */
  lemma LoadHistsDefined(q: Question, s: IsnadSet, accused: set<int>, w: int, mw: MannWhitney, cd: CliffsDelta)
    requires Consistent(s) && AllWellFormed(s.isnads) && w >= 1
    ensures LoadHists(q, s, accused, w, mw, cd).Success?
  {
    HistAllDefined(q, s, accused, w);
    var all := HistAll(q, s, accused, w).value;
    var rs := Gates(q, s, accused, all, w, mw, cd);
    forall i | 0 <= i < |rs|
      ensures rs[i].Success?
    {
      GateAt(q, s, accused, all, i, w, mw, cd);
    }
    CollectSuccess(rs);
  }
}
