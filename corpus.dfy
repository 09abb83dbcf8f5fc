/**
 * A set of isnads grouped by hadith (the `IsnadSet` class of utils.py):
 * construction, slicing by isnad index and by hadith index, and difference.
 */
module Corpus {
  import opened Outcomes
  import opened Sequences
  import opened Chains

  /**
   * An isnad set: the isnads in database order, the distinct hadith ids in
   * first-seen order (`hadiths_list`), the isnads of each hadith
   * (`hadiths_dict`) and the database the set was read from.
   */
  datatype IsnadSet = IsnadSet(
    isnads: seq<Isnad>,
    hadiths: seq<int>,
    byHadith: map<int, seq<Isnad>>,
    dbUrl: string)

  /** The hadith id of every isnad, in list order. */
  function Hids(cs: seq<Isnad>): seq<int> {
    seq(|cs|, i requires 0 <= i < |cs| => cs[i].hid)
  }

  /** The (hid, isnad) pairs the constructor appends into `hadiths_dict`. */
  function HidPairs(cs: seq<Isnad>): seq<(int, Isnad)> {
    seq(|cs|, i requires 0 <= i < |cs| => (cs[i].hid, cs[i]))
  }

  /** Selects the isnads of hadith `h`. */
  function OfHadith(h: int): Isnad -> bool {
    (c: Isnad) => c.hid == h
  }

  /** The fields `IsnadSet.__init__` derives from an isnad list. */
  function Build(cs: seq<Isnad>, dbUrl: string): IsnadSet {
    IsnadSet(cs, Dedup(Hids(cs)), Buckets(HidPairs(cs)), dbUrl)
  }

  /** The derived fields agree with the isnad list. */
  predicate Consistent(s: IsnadSet) {
    s == Build(s.isnads, s.dbUrl)
  }

  /** The keys of `isnads_dict`. */
  function Sids(cs: seq<Isnad>): set<int> {
    set c | c in cs :: c.sid
  }

  predicate UniqueSids(cs: seq<Isnad>) {
    forall i, j :: 0 <= i < j < |cs| ==> cs[i].sid != cs[j].sid
  }

  predicate AllWellFormed(cs: seq<Isnad>) {
    forall c :: c in cs ==> WellFormed(c)
  }

  // ---------------------------------------------------------------------------
  // Construction
  // ---------------------------------------------------------------------------

  lemma HidsAppend(cs: seq<Isnad>, c: Isnad)
    ensures Hids(cs + [c]) == Hids(cs) + [c.hid]
    ensures HidPairs(cs + [c]) == HidPairs(cs) + [(c.hid, c)]
  {
  }

  lemma HidsConcat(a: seq<Isnad>, b: seq<Isnad>)
    ensures Hids(a + b) == Hids(a) + Hids(b)
  {
  }

  /** One isnad more in the constructor's loop. */
  lemma GroupStep(cs: seq<Isnad>, i: nat)
    requires i < |cs|
    ensures Dedup(Hids(cs[..i + 1])) == AddNew(Dedup(Hids(cs[..i])), cs[i].hid)
    ensures var m := Buckets(HidPairs(cs[..i]));
            Buckets(HidPairs(cs[..i + 1])) == m[cs[i].hid := (if cs[i].hid in m then m[cs[i].hid] else []) + [cs[i]]]
  {
    assert cs[..i + 1] == cs[..i] + [cs[i]];
    HidsAppend(cs[..i], cs[i]);
    DedupAppend(Hids(cs[..i]), cs[i].hid);
    BucketsAppend(HidPairs(cs[..i]), cs[i].hid, cs[i]);
  }

  /**
   * `IsnadSet.__init__`: one pass over the isnads appending each to the list
   * of its hadith, and appending its hadith id when not yet listed.
   */
  method NewIsnadSet(cs: seq<Isnad>, dbUrl: string) returns (s: IsnadSet)
    ensures s == Build(cs, dbUrl)
    ensures Consistent(s)
  {
    var hl: seq<int> := [];
    var hd: map<int, seq<Isnad>> := map[];
    var i := 0;
    assert HidPairs(cs[..0]) == [];
    assert Buckets(HidPairs(cs[..0])) == map[];
    while i < |cs|
      invariant 0 <= i <= |cs|
      invariant hl == Dedup(Hids(cs[..i]))
      invariant hd == Buckets(HidPairs(cs[..i]))
    {
      var c := cs[i];
      GroupStep(cs, i);
      hd := hd[c.hid := (if c.hid in hd then hd[c.hid] else []) + [c]];
      if c.hid !in hl {
        hl := hl + [c.hid];
      }
      i := i + 1;
    }
    assert cs[..i] == cs;
    s := IsnadSet(cs, hl, hd, dbUrl);
  }

  /** The bucket of `h` is the isnad list filtered by hadith id. */
  lemma {:induction false} BucketIsFilter(cs: seq<Isnad>, h: int)
    ensures Bucket(HidPairs(cs), h) == Filter(cs, OfHadith(h))
  {
    if cs != [] {
      var p, c := cs[..|cs| - 1], cs[|cs| - 1];
      assert cs == p + [c];
      BucketIsFilter(p, h);
      HidsAppend(p, c);
      assert HidPairs(cs)[..|p|] == HidPairs(p);
      FilterAppend(p, c, OfHadith(h));
    }
  }

  lemma HidKeys(cs: seq<Isnad>)
    ensures forall h :: h in KeysOf(HidPairs(cs)) <==> h in Hids(cs)
  {
    forall h ensures h in KeysOf(HidPairs(cs)) <==> h in Hids(cs) {
      if h in Hids(cs) {
        var i :| 0 <= i < |cs| && Hids(cs)[i] == h;
        assert HidPairs(cs)[i].0 == h;
      }
      if h in KeysOf(HidPairs(cs)) {
        var i :| 0 <= i < |cs| && HidPairs(cs)[i].0 == h;
        assert Hids(cs)[i] == h;
      }
    }
  }

  /**
   * Grouping: the hadith list holds each hadith id of the isnads exactly once,
   * in order of first occurrence; the keys of the dictionary are those ids;
   * the list of hadith h is the order-preserving subsequence of the isnads
   * whose hid is h, holding every copy of each such isnad and nothing else, so
   * every isnad lands in exactly one list.
   */
  lemma BuildGrouping(cs: seq<Isnad>, dbUrl: string)
    ensures NoDup(Build(cs, dbUrl).hadiths)
    ensures forall h :: h in Build(cs, dbUrl).hadiths <==> h in Hids(cs)
    ensures forall h :: h in Build(cs, dbUrl).hadiths <==> exists c :: c in cs && c.hid == h
    ensures forall i, j :: 0 <= i < j < |Build(cs, dbUrl).hadiths| ==>
              FirstIndex(Hids(cs), Build(cs, dbUrl).hadiths[i]) <
              FirstIndex(Hids(cs), Build(cs, dbUrl).hadiths[j])
    ensures forall h :: h in Build(cs, dbUrl).byHadith <==> h in Build(cs, dbUrl).hadiths
    ensures forall h :: h in Build(cs, dbUrl).byHadith ==>
              IsSubseq(Build(cs, dbUrl).byHadith[h], cs)
    ensures forall h, c :: h in Build(cs, dbUrl).byHadith ==>
              multiset(Build(cs, dbUrl).byHadith[h])[c] == if c.hid == h then multiset(cs)[c] else 0
  {
    var s := Build(cs, dbUrl);
    DedupSpec(Hids(cs));
    HidKeys(cs);
    forall h ensures h in s.hadiths <==> exists c :: c in cs && c.hid == h {
      if h in Hids(cs) {
        var i :| 0 <= i < |cs| && Hids(cs)[i] == h;
        assert cs[i] in cs;
      }
      if c :| c in cs && c.hid == h {
        var i :| 0 <= i < |cs| && cs[i] == c;
        assert Hids(cs)[i] == h;
      }
    }
    forall h | h in s.byHadith
      ensures IsSubseq(s.byHadith[h], cs)
      ensures forall c :: multiset(s.byHadith[h])[c] == if c.hid == h then multiset(cs)[c] else 0
    {
      BucketIsFilter(cs, h);
      FilterSpec(cs, OfHadith(h));
    }
  }

  /** Every list of a consistent set is non-empty and holds only isnads of its hadith. */
  lemma BucketShape(s: IsnadSet, h: int)
    requires Consistent(s) && h in s.byHadith
    ensures |s.byHadith[h]| > 0
    ensures forall c :: c in s.byHadith[h] ==> c.hid == h && c in s.isnads
  {
    var cs := s.isnads;
    HidKeys(cs);
    BucketIsFilter(cs, h);
    FilterKeeps(cs, OfHadith(h));
    var i :| 0 <= i < |cs| && Hids(cs)[i] == h;
    assert multiset(s.byHadith[h])[cs[i]] == multiset(cs)[cs[i]];
    forall c | c in s.byHadith[h] ensures c.hid == h && c in s.isnads {
      assert multiset(s.byHadith[h])[c] > 0;
    }
  }

  /** Every list of the dictionary is non-empty and holds only isnads of its hadith. */
  predicate Grouped(s: IsnadSet) {
    forall h :: h in s.byHadith ==>
      |s.byHadith[h]| > 0 && forall c :: c in s.byHadith[h] ==> c.hid == h && c in s.isnads
  }

  lemma ConsistentGrouped(s: IsnadSet)
    requires Consistent(s)
    ensures Grouped(s)
  {
    forall h | h in s.byHadith {
      BucketShape(s, h);
    }
  }

  /** The hadith of every isnad of a consistent set is listed and has a list. */
  lemma HadithListed(s: IsnadSet, c: Isnad)
    requires Consistent(s) && c in s.isnads
    ensures c.hid in s.hadiths && c.hid in s.byHadith
  {
    var cs := s.isnads;
    var i :| 0 <= i < |cs| && cs[i] == c;
    assert Hids(cs)[i] == c.hid;
    HidKeys(cs);
    DedupMember(Hids(cs), c.hid);
  }

  // ---------------------------------------------------------------------------
  // Slicing
  // ---------------------------------------------------------------------------

  /** A negative lower bound is clamped to 0 before slicing. */
  function ClampLow(a: int): nat {
    if a < 0 then 0 else a
  }

  /** `get_by_range(a, b)`: the isnads at list positions [a, b) as a new set. */
  function GetByRange(s: IsnadSet, a: int, b: int): IsnadSet {
    Build(PySlice(s.isnads, ClampLow(a), b), s.dbUrl)
  }

  /**
   * The slice holds the isnads from position max(a, 0) up to the end bound
   * as Python normalises it, in order, and the new set is consistent.
   */
  lemma GetByRangeSpec(s: IsnadSet, a: int, b: int)
    ensures var lo, hi := Clip(a, |s.isnads|), SliceBound(b, |s.isnads|);
            && |GetByRange(s, a, b).isnads| == (if lo < hi then hi - lo else 0)
            && (forall k :: 0 <= k < |GetByRange(s, a, b).isnads| ==>
                  GetByRange(s, a, b).isnads[k] == s.isnads[lo + k])
    ensures Consistent(GetByRange(s, a, b)) && GetByRange(s, a, b).dbUrl == s.dbUrl
  {
  }

  /** `Clip(i, n)` is `i` brought into [0, n]. */
  function Clip(i: int, n: nat): nat {
    if i < 0 then 0 else if i > n then n else i
  }

  /** The isnads of the hadiths `hs`, hadith by hadith (`ret.extend(hadiths_dict[hid])`). */
  function Gather(g: map<int, seq<Isnad>>, hs: seq<int>): seq<Isnad> {
    if hs == [] then []
    else Gather(g, hs[..|hs| - 1]) + (if hs[|hs| - 1] in g then g[hs[|hs| - 1]] else [])
  }

  /** What `get_by_range_hadith(a, b)` returns. */
  function RangeHadith(s: IsnadSet, a: int, b: int): IsnadSet {
    Build(Gather(s.byHadith, PySlice(s.hadiths, ClampLow(a), b)), s.dbUrl)
  }

  /**
   * `get_by_range_hadith(a, b)`: clamps a negative `a` to 0 and collects the
   * isnads of the hadiths listed at positions [a, b).
   */
  method GetByRangeHadith(s: IsnadSet, a: int, b: int) returns (r: IsnadSet)
    ensures r == RangeHadith(s, a, b)
  {
    var ret: seq<Isnad> := [];
    var lo := if a < 0 then 0 else a;
    var hs := PySlice(s.hadiths, lo, b);
    var i := 0;
    while i < |hs|
      invariant 0 <= i <= |hs|
      invariant ret == Gather(s.byHadith, hs[..i])
    {
      var hid := hs[i];
      ret := ret + (if hid in s.byHadith then s.byHadith[hid] else []);
      assert hs[..i + 1][..i] == hs[..i];
      i := i + 1;
    }
    assert hs[..i] == hs;
    r := NewIsnadSet(ret, s.dbUrl);
  }

  lemma GatherAppend(g: map<int, seq<Isnad>>, hs: seq<int>, h: int)
    ensures Gather(g, hs + [h]) == Gather(g, hs) + (if h in g then g[h] else [])
  {
    assert (hs + [h])[..|hs|] == hs;
  }

  /** The isnads gathered for some hadiths are isnads of those hadiths. */
  lemma {:induction false} GatherMembers(s: IsnadSet, hs: seq<int>)
    requires Grouped(s)
    requires forall h :: h in hs ==> h in s.byHadith
    ensures forall c :: c in Gather(s.byHadith, hs) ==> c.hid in hs && c in s.isnads
  {
    if hs != [] {
      var p, h := hs[..|hs| - 1], hs[|hs| - 1];
      assert forall x :: x in p ==> x in hs;
      GatherMembers(s, p);
      GatherAppend(s.byHadith, p, h);
    }
  }

  /** Gathering lists of distinct hadiths of a consistent set lists those hadiths in order. */
  lemma {:induction false} GatherSpec(s: IsnadSet, hs: seq<int>)
    requires Grouped(s)
    requires NoDup(hs) && forall h :: h in hs ==> h in s.byHadith
    ensures Dedup(Hids(Gather(s.byHadith, hs))) == hs
  {
    if hs != [] {
      var p, h := hs[..|hs| - 1], hs[|hs| - 1];
      assert hs == p + [h];
      assert NoDup(p) && h !in p;
      GatherSpec(s, p);
      var front, back := Gather(s.byHadith, p), s.byHadith[h];
      GatherAppend(s.byHadith, p, h);
      HidsConcat(front, back);
      assert h !in Hids(front) by {
        GatherMembers(s, p);
      }
      assert |Hids(back)| > 0 && forall y :: y in Hids(back) ==> y == h by {
        assert forall k :: 0 <= k < |back| ==> back[k] in back;
      }
      DedupAppendRun(Hids(front), Hids(back), h);
    }
  }

  /**
   * The window of hadiths [a, b): its hadith list is the slice of the parent's
   * hadith list, and each of those hadiths keeps all its isnads, in the
   * parent's order.
   */
  lemma RangeHadithSpec(s: IsnadSet, a: int, b: int)
    requires Consistent(s)
    ensures RangeHadith(s, a, b).hadiths == PySlice(s.hadiths, ClampLow(a), b)
    ensures forall h :: h in RangeHadith(s, a, b).hadiths ==>
              h in RangeHadith(s, a, b).byHadith && h in s.byHadith && RangeHadith(s, a, b).byHadith[h] == s.byHadith[h]
    ensures Consistent(RangeHadith(s, a, b)) && RangeHadith(s, a, b).dbUrl == s.dbUrl
  {
    var hs := PySlice(s.hadiths, ClampLow(a), b);
    BuildGrouping(s.isnads, s.dbUrl);
    assert forall h :: h in hs ==> h in s.hadiths;
    ConsistentGrouped(s);
    GatherSpec(s, hs);
    GatherMembers(s, hs);
    var r := RangeHadith(s, a, b);
    BuildGrouping(r.isnads, r.dbUrl);
    forall h | h in r.hadiths
      ensures r.byHadith[h] == s.byHadith[h]
    {
      HidKeys(r.isnads);
      BucketIsFilter(r.isnads, h);
      GatherFilter(s, hs, h);
    }
  }

  /** Filtering the gathered isnads by one of the gathered hadiths gives back its list. */
  lemma {:induction false} GatherFilter(s: IsnadSet, hs: seq<int>, h: int)
    requires Grouped(s)
    requires NoDup(hs) && h in hs && forall x :: x in hs ==> x in s.byHadith
    ensures Filter(Gather(s.byHadith, hs), OfHadith(h)) == s.byHadith[h]
  {
    var p, x := hs[..|hs| - 1], hs[|hs| - 1];
    assert hs == p + [x];
    GatherAppend(s.byHadith, p, x);
    FilterConcat(Gather(s.byHadith, p), s.byHadith[x], OfHadith(h));
    if x == h {
      assert h !in p;
      GatherMembers(s, p);
      FilterNone(Gather(s.byHadith, p), OfHadith(h));
      FilterAll(s.byHadith[x], OfHadith(h));
    } else {
      GatherFilter(s, p, h);
      FilterNone(s.byHadith[x], OfHadith(h));
    }
  }

  // ---------------------------------------------------------------------------
  // The isnads dictionary
  // ---------------------------------------------------------------------------

  /** The isnad id of every isnad, in list order. */
  function SidList(cs: seq<Isnad>): seq<int> {
    seq(|cs|, i requires 0 <= i < |cs| => cs[i].sid)
  }

  /** `isnads_dict`: each isnad id maps to the last isnad carrying it. */
  function SidMap(cs: seq<Isnad>): map<int, Isnad> {
    if cs == [] then map[] else SidMap(cs[..|cs| - 1])[cs[|cs| - 1].sid := cs[|cs| - 1]]
  }

  /** The values of `m` at those keys of `ks` it holds, in the order of `ks`. */
  function ValuesAt(m: map<int, Isnad>, ks: seq<int>): seq<Isnad> {
    if ks == [] then []
    else ValuesAt(m, ks[..|ks| - 1]) + (if ks[|ks| - 1] in m then [m[ks[|ks| - 1]]] else [])
  }

  /**
   * `isnads_dict.items()` in iteration order: the ids in the order they were
   * first inserted, each with the last isnad stored under it.
   */
  function DictItems(cs: seq<Isnad>): seq<Isnad> {
    ValuesAt(SidMap(cs), Dedup(SidList(cs)))
  }

  lemma SidListAppend(cs: seq<Isnad>, c: Isnad)
    ensures SidList(cs + [c]) == SidList(cs) + [c.sid]
  {
  }

  lemma {:induction false} ValuesAtFresh(m: map<int, Isnad>, ks: seq<int>, k: int, v: Isnad)
    requires k !in ks
    ensures ValuesAt(m[k := v], ks) == ValuesAt(m, ks)
  {
    if ks != [] {
      ValuesAtFresh(m, ks[..|ks| - 1], k, v);
    }
  }

  lemma ValuesAtAppend(m: map<int, Isnad>, ks: seq<int>, k: int)
    ensures ValuesAt(m, ks + [k]) == ValuesAt(m, ks) + (if k in m then [m[k]] else [])
  {
    assert (ks + [k])[..|ks|] == ks;
  }

  /** Every value of the dictionary is an isnad of the list, stored under its own id. */
  lemma {:induction false} SidMapValues(cs: seq<Isnad>)
    ensures forall k :: k in SidMap(cs) ==> SidMap(cs)[k] in cs && SidMap(cs)[k].sid == k
  {
    if cs != [] {
      var p := cs[..|cs| - 1];
      SidMapValues(p);
      assert forall c :: c in p ==> c in cs;
    }
  }

  lemma {:induction false} ValuesAtMembers(m: map<int, Isnad>, ks: seq<int>)
    ensures forall c :: c in ValuesAt(m, ks) ==> exists k :: k in m && m[k] == c
  {
    if ks != [] {
      var l := ks[|ks| - 1];
      ValuesAtMembers(m, ks[..|ks| - 1]);
      forall c | c in ValuesAt(m, ks) ensures exists k :: k in m && m[k] == c {
        if c !in ValuesAt(m, ks[..|ks| - 1]) {
          assert l in m && m[l] == c;
        }
      }
    }
  }

  /** The dictionary's items are isnads of the list. */
  lemma DictItemsMembers(cs: seq<Isnad>)
    ensures forall c :: c in DictItems(cs) ==> c in cs
  {
    SidMapValues(cs);
    ValuesAtMembers(SidMap(cs), Dedup(SidList(cs)));
  }

  /** With distinct isnad ids, iterating the dictionary is iterating the list. */
  lemma {:induction false} DictItemsUnique(cs: seq<Isnad>)
    requires UniqueSids(cs)
    ensures DictItems(cs) == cs
  {
    if cs != [] {
      var p, c := cs[..|cs| - 1], cs[|cs| - 1];
      assert cs == p + [c];
      DictItemsUnique(p);
      SidListAppend(p, c);
      assert c.sid !in SidList(p) by {
        forall i | 0 <= i < |p| ensures SidList(p)[i] != c.sid {
          assert p[i] == cs[i];
        }
      }
      DedupAppend(SidList(p), c.sid);
      DedupSpec(SidList(p));
      ValuesAtFresh(SidMap(p), Dedup(SidList(p)), c.sid, c);
      ValuesAtAppend(SidMap(cs), Dedup(SidList(p)), c.sid);
    }
  }

  // ---------------------------------------------------------------------------
  // Difference
  // ---------------------------------------------------------------------------

  /** Selects the isnads whose id is not in `sids`. */
  function NotIn(sids: set<int>): Isnad -> bool {
    (c: Isnad) => c.sid !in sids
  }

  /**
   * `__sub__`: fails unless both sets come from the same database; otherwise
   * keeps, in order, the isnads of `s` whose id is not an isnad id of `other`.
   */
  method Difference(s: IsnadSet, other: IsnadSet) returns (r: Result<IsnadSet>)
    ensures r.Failure? <==> s.dbUrl != other.dbUrl
    ensures r.Failure? ==> r.error == MismatchedSource
    ensures r.Success? ==> r.value == Build(Filter(s.isnads, NotIn(Sids(other.isnads))), s.dbUrl)
  {
    if s.dbUrl != other.dbUrl {
      return Failure(MismatchedSource);
    }
    var otherSids := Sids(other.isnads);
    var ret: seq<Isnad> := [];
    var i := 0;
    while i < |s.isnads|
      invariant 0 <= i <= |s.isnads|
      invariant ret == Filter(s.isnads[..i], NotIn(otherSids))
    {
      var isn := s.isnads[i];
      if isn.sid !in otherSids {
        ret := ret + [isn];
      }
      assert s.isnads[..i + 1] == s.isnads[..i] + [isn];
      FilterAppend(s.isnads[..i], isn, NotIn(otherSids));
      i := i + 1;
    }
    assert s.isnads[..i] == s.isnads;
    var built := NewIsnadSet(ret, s.dbUrl);
    return Success(built);
  }

  /**
   * The difference keeps exactly the isnads of `s` whose id `other` lacks,
   * every copy, in their original order.
   */
  lemma DifferenceSpec(s: IsnadSet, other: IsnadSet)
    ensures var d := Filter(s.isnads, NotIn(Sids(other.isnads)));
            && (forall c :: c in d <==> c in s.isnads && c.sid !in Sids(other.isnads))
            && IsSubseq(d, s.isnads)
  {
    var d := Filter(s.isnads, NotIn(Sids(other.isnads)));
    FilterSpec(s.isnads, NotIn(Sids(other.isnads)));
    forall c ensures c in d <==> c in s.isnads && c.sid !in Sids(other.isnads) {
      assert c in d <==> c in multiset(d);
      assert c in s.isnads <==> c in multiset(s.isnads);
    }
  }
}
