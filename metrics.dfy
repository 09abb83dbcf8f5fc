/**
 * The window metrics of rqs.py: `RQ1.get_p`, the share of hadiths whose every
 * chain passes through an accused narrator, and `RQ2.get_p`, the share of
 * distinct transmission links whose both ends are accused. The accused ids
 * (read from two text files in the original) are a parameter.
 */
module Metrics {
  import opened Outcomes
  import opened Sequences
  import opened Chains
  import opened Corpus
  import opened Indexes

  /** The research questions; each defines its own `get_p`. */
  datatype Question = RQ1 | RQ2

  /** Python's `num / den` on counts: ZeroDivisionError when `den` is zero. */
  function Ratio(num: nat, den: nat): Result<real> {
    if den == 0 then Failure(ZeroDivision) else Success(num as real / den as real)
  }

  /** A ratio fails exactly on a zero denominator, and a part over a whole lies in [0, 1]. */
  lemma RatioSpec(num: nat, den: nat)
    ensures Ratio(num, den).Failure? <==> den == 0
    ensures Ratio(num, den).Failure? ==> Ratio(num, den).error == ZeroDivision
    ensures Ratio(num, den).Success? ==> Ratio(num, den).value * den as real == num as real
    ensures Ratio(num, den).Success? && num <= den ==> 0.0 <= Ratio(num, den).value <= 1.0
  {
    if den > 0 {
      var q := num as real / den as real;
      assert q * den as real == num as real;
      if num <= den {
        assert q <= 1.0 by {
          if q > 1.0 {
            assert q * den as real > 1.0 * den as real;
          }
        }
      }
    }
  }

  // ---------------------------------------------------------------------------
  // RQ1: influence
  // ---------------------------------------------------------------------------

  /** Some narrator of the chain is accused: `not all([v not in ACCUSED_IDs for v in nl])`. */
  predicate HasAccused(c: Isnad, accused: set<int>) {
    exists v :: v in c.nodes && v in accused
  }

  /** Every chain of a hadith has an accused narrator: the inner loop ends without `break`. */
  predicate Influenced(cs: seq<Isnad>, accused: set<int>) {
    forall c :: c in cs ==> HasAccused(c, accused)
  }

  /** The hadiths among `hs` whose chains are all influenced. */
  function InfluencedAmong(g: map<int, seq<Isnad>>, hs: set<int>, accused: set<int>): set<int> {
    set h | h in hs && h in g && Influenced(g[h], accused)
  }

  /** `RQ1.get_p`: influenced hadiths over all hadiths of the set. */
  function Influence(s: IsnadSet, accused: set<int>): Result<real> {
    Ratio(|InfluencedAmong(s.byHadith, s.byHadith.Keys, accused)|, |s.byHadith|)
  }

  /** One more hadith visited adds one to the count exactly when it is influenced. */
  lemma InfluencedStep(g: map<int, seq<Isnad>>, done: set<int>, h: int, accused: set<int>)
    requires h !in done
    ensures |InfluencedAmong(g, done + {h}, accused)| ==
            |InfluencedAmong(g, done, accused)| + (if h in g && Influenced(g[h], accused) then 1 else 0)
  {
    var before := InfluencedAmong(g, done, accused);
    if h in g && Influenced(g[h], accused) {
      assert InfluencedAmong(g, done + {h}, accused) == before + {h};
      assert h !in before;
    } else {
      assert InfluencedAmong(g, done + {h}, accused) == before;
    }
  }

  /**
   * The inner `for ... break ... else` of `RQ1.get_p`: stops at the first
   * chain free of accused narrators; true when it runs to the `else`.
   */
  method ChainsScan(isnads: seq<Isnad>, accused: set<int>) returns (influenced: bool)
    ensures influenced <==> Influenced(isnads, accused)
  {
    var j := 0;
    var broke := false;
    while j < |isnads| && !broke
      invariant 0 <= j <= |isnads|
      invariant forall k :: 0 <= k < j ==> HasAccused(isnads[k], accused)
      invariant broke ==> j < |isnads| && !HasAccused(isnads[j], accused)
      decreases |isnads| - j, !broke
    {
      if forall v | v in isnads[j].nodes :: v !in accused {
        broke := true;
      } else {
        j := j + 1;
      }
    }
    if broke {
      assert isnads[j] in isnads;
    }
    return !broke;
  }

  /**
   * `RQ1.get_p` (the ablation branch left out): for each hadith, looks for a
   * chain free of accused narrators and counts the hadith when there is none.
   */
  method InfluenceP(s: IsnadSet, accused: set<int>) returns (r: Result<real>)
    ensures r == Influence(s, accused)
  {
    var num := 0;
    var todo := s.byHadith.Keys;
    ghost var done: set<int> := {};
    while todo != {}
      invariant todo + done == s.byHadith.Keys && todo !! done
      invariant num == |InfluencedAmong(s.byHadith, done, accused)|
      decreases |todo|
    {
      assert exists h :: h in todo by {
        var x := PickOne(todo);
      }
      var hid :| hid in todo;
      var influenced := ChainsScan(s.byHadith[hid], accused);
      InfluencedStep(s.byHadith, done, hid, accused);
      if influenced {
        num := num + 1;
      }
      todo := todo - {hid};
      done := done + {hid};
    }
    if |s.byHadith| == 0 {
      return Failure(ZeroDivision);
    }
    return Success(num as real / |s.byHadith| as real);
  }

  /**
   * `RQ1.get_p` fails with division by zero exactly on a set without hadiths;
   * otherwise it is a fraction in [0, 1].
   */
  lemma InfluenceSpec(s: IsnadSet, accused: set<int>)
    ensures Influence(s, accused).Failure? <==> |s.byHadith| == 0
    ensures Influence(s, accused).Failure? ==> Influence(s, accused).error == ZeroDivision
    ensures Influence(s, accused).Success? ==> 0.0 <= Influence(s, accused).value <= 1.0
  {
    var hs := InfluencedAmong(s.byHadith, s.byHadith.Keys, accused);
    assert |hs| <= |s.byHadith.Keys| by {
      SubsetCard(hs, s.byHadith.Keys);
    }
    RatioSpec(|hs|, |s.byHadith|);
  }

  /** The whole over itself is one. */
  lemma RatioWhole(n: nat)
    requires n > 0
    ensures Ratio(n, n) == Success(1.0)
  {
    var d := n as real;
    assert d > 0.0;
    assert d / d == 1.0;
  }

  /** With nobody accused, no hadith of a consistent set is influenced. */
  lemma InfluenceNoneAccused(s: IsnadSet)
    requires Consistent(s) && s.isnads != []
    ensures Influence(s, {}) == Success(0.0)
  {
    ConsistentGrouped(s);
    assert InfluencedAmong(s.byHadith, s.byHadith.Keys, {}) == {} by {
      forall h | h in s.byHadith ensures !Influenced(s.byHadith[h], {}) {
        assert s.byHadith[h][0] in s.byHadith[h];
      }
    }
    HadithListed(s, s.isnads[0]);
  }

  /** When every narrator of every chain is accused, every hadith of a consistent set is influenced. */
  lemma InfluenceAllAccused(s: IsnadSet, accused: set<int>)
    requires Consistent(s) && s.isnads != []
    requires forall c :: c in s.isnads ==> c.nodes != [] && forall v :: v in c.nodes ==> v in accused
    ensures Influence(s, accused) == Success(1.0)
  {
    ConsistentGrouped(s);
    assert InfluencedAmong(s.byHadith, s.byHadith.Keys, accused) == s.byHadith.Keys by {
      forall h | h in s.byHadith ensures Influenced(s.byHadith[h], accused) {
        forall c | c in s.byHadith[h] ensures HasAccused(c, accused) {
          assert c in s.isnads;
          var v := c.nodes[0];
          assert v in c.nodes;
          assert v in accused;
        }
      }
    }
    HadithListed(s, s.isnads[0]);
    RatioWhole(|s.byHadith|);
  }

  // ---------------------------------------------------------------------------
  // RQ2: mutual links
  // ---------------------------------------------------------------------------

  /** Both ends of the link are accused. */
  predicate BothAccused(e: Edge, accused: set<int>) {
    e.u in accused && e.v in accused
  }

  /** The links among `es` between two accused narrators. */
  function MutualAmong(es: set<Edge>, accused: set<int>): set<Edge> {
    set e | e in es && BothAccused(e, accused)
  }

  /** `RQ2.get_p`: accused-to-accused links over all distinct links of the set. */
  function Mutual(s: IsnadSet, accused: set<int>): Result<real> {
    var es := AllEdges(s.isnads);
    Ratio(|MutualAmong(es, accused)|, |es|)
  }

  /** `RQ2.get_p`: keeps the keys of `get_edges_sids_dict` whose both ends are accused. */
  method MutualP(s: IsnadSet, accused: set<int>) returns (r: Result<real>)
    ensures r == Mutual(s, accused)
  {
    var es := EdgesSids(s);
    var mes := set e | e in es && e.u in accused && e.v in accused;
    assert mes == MutualAmong(AllEdges(s.isnads), accused);
    assert |es| == |es.Keys|;
    if |es| == 0 {
      return Failure(ZeroDivision);
    }
    return Success(|mes| as real / |es| as real);
  }

  /**
   * `RQ2.get_p` fails with division by zero exactly when no isnad has an
   * edge; otherwise it is a fraction in [0, 1].
   */
  lemma MutualSpec(s: IsnadSet, accused: set<int>)
    ensures Mutual(s, accused).Failure? <==> forall c :: c in s.isnads ==> c.edges == []
    ensures Mutual(s, accused).Failure? ==> Mutual(s, accused).error == ZeroDivision
    ensures Mutual(s, accused).Success? ==> 0.0 <= Mutual(s, accused).value <= 1.0
  {
    var es := AllEdges(s.isnads);
    SubsetCard(MutualAmong(es, accused), es);
    RatioSpec(|MutualAmong(es, accused)|, |es|);
    if c :| c in s.isnads && c.edges != [] {
      assert c.edges[0] in c.edges;
      assert c.edges[0] in es;
    }
    if es != {} {
      var e :| e in es;
      var c :| c in s.isnads && e in c.edges;
    }
  }

  /** With nobody accused the share of mutual links is zero. */
  lemma MutualNoneAccused(s: IsnadSet)
    requires exists c :: c in s.isnads && c.edges != []
    ensures Mutual(s, {}) == Success(0.0)
  {
    var c :| c in s.isnads && c.edges != [];
    assert c.edges[0] in c.edges;
    assert c.edges[0] in AllEdges(s.isnads);
    assert MutualAmong(AllEdges(s.isnads), {}) == {};
  }

  /** When every narrator on a link is accused, every link is mutual. */
  lemma MutualAllAccused(s: IsnadSet, accused: set<int>)
    requires exists c :: c in s.isnads && c.edges != []
    requires forall c, e :: c in s.isnads && e in c.edges ==> BothAccused(e, accused)
    ensures Mutual(s, accused) == Success(1.0)
  {
    var c :| c in s.isnads && c.edges != [];
    assert c.edges[0] in c.edges;
    assert c.edges[0] in AllEdges(s.isnads);
    assert MutualAmong(AllEdges(s.isnads), accused) == AllEdges(s.isnads);
    RatioWhole(|AllEdges(s.isnads)|);
  }

  // ---------------------------------------------------------------------------
  // self.get_p
  // ---------------------------------------------------------------------------

  /** The metric of the research question `q`. */
  function Metric(q: Question, s: IsnadSet, accused: set<int>): Result<real> {
    match q
    case RQ1 => Influence(s, accused)
    case RQ2 => Mutual(s, accused)
  }

  /** `self.get_p(isnadset)`: dispatches on the research question. */
  method GetP(q: Question, s: IsnadSet, accused: set<int>) returns (r: Result<real>)
    ensures r == Metric(q, s, accused)
  {
    match q
    case RQ1 =>
      r := InfluenceP(s, accused);
    case RQ2 =>
      r := MutualP(s, accused);
  }

  /** Every metric is a fraction in [0, 1], or division by zero. */
  lemma MetricSpec(q: Question, s: IsnadSet, accused: set<int>)
    ensures Metric(q, s, accused).Success? ==> 0.0 <= Metric(q, s, accused).value <= 1.0
    ensures Metric(q, s, accused).Failure? ==> Metric(q, s, accused).error == ZeroDivision
  {
    InfluenceSpec(s, accused);
    MutualSpec(s, accused);
  }

  /** Neither metric fails on a consistent set holding at least one isnad with an edge. */
  lemma MetricDefined(q: Question, s: IsnadSet, accused: set<int>)
    requires Consistent(s) && exists c :: c in s.isnads && c.edges != []
    ensures Metric(q, s, accused).Success?
  {
    InfluenceSpec(s, accused);
    MutualSpec(s, accused);
    var c :| c in s.isnads && c.edges != [];
    assert c.edges[0] in c.edges;
    HadithListed(s, c);
  }
}
