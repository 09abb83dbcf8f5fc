/**
 * Curation of an isnad set (`IsnadSet.get_curated`): drops anachronistic
 * edges, then edges touching an indefinite or Imam narrator, then the isnads
 * left without edges.
 */
module Curation {
  import opened Outcomes
  import opened Sequences
  import opened Chains
  import opened Corpus
  import opened Indexes

  function Abs(x: int): nat {
    if x < 0 then -x else x
  }

  /** Both ends have a generation and the generations differ by at most 2. */
  predicate Synchronic(gens: map<int, int>, e: Edge) {
    e.u in gens && e.v in gens && Abs(gens[e.u] - gens[e.v]) <= 2
  }

  function SynchronicIn(gens: map<int, int>): Edge -> bool {
    (e: Edge) => Synchronic(gens, e)
  }

  /** "غير " (other than), with a trailing space. */
  const GhayrSpace: string := "\U{063A}\U{064A}\U{0631} "
  /** "غير-" (other than), with a hyphen. */
  const GhayrHyphen: string := "\U{063A}\U{064A}\U{0631}-"
  /** "بعض " (some), with a trailing space. */
  const BaadSpace: string := "\U{0628}\U{0639}\U{0636} "
  /** " ع", the honorific that marks an Imam. */
  const ImamSuffix: string := " \U{0639}"

  predicate StartsWith(s: string, prefix: string) {
    |prefix| <= |s| && s[..|prefix|] == prefix
  }

  predicate EndsWith(s: string, suffix: string) {
    |suffix| <= |s| && s[|s| - |suffix|..] == suffix
  }

  /** The name of an indefinite narrator or of an Imam. */
  predicate Excluded(name: string) {
    StartsWith(name, GhayrSpace) || StartsWith(name, GhayrHyphen) ||
    StartsWith(name, BaadSpace) || EndsWith(name, ImamSuffix)
  }

  /** Both ends have a name (otherwise `node_names[u]` raises KeyError). */
  predicate Named(names: map<int, string>, e: Edge) {
    e.u in names && e.v in names
  }

  /** Both ends are named, definite and not an Imam. */
  predicate Definite(names: map<int, string>, e: Edge) {
    Named(names, e) && !Excluded(names[e.u]) && !Excluded(names[e.v])
  }

  function DefiniteIn(names: map<int, string>): Edge -> bool {
    (e: Edge) => Definite(names, e)
  }

  /** The edges of one isnad that survive both filters (`nne`). */
  function KeptEdges(es: seq<Edge>, gens: map<int, int>, names: map<int, string>): seq<Edge> {
    Filter(Filter(es, SynchronicIn(gens)), DefiniteIn(names))
  }

  /** The name lookups of one isnad succeed. */
  predicate NamesFound(c: Isnad, gens: map<int, int>, names: map<int, string>) {
    forall e :: e in Filter(c.edges, SynchronicIn(gens)) ==> Named(names, e)
  }

  /** The curated copy of one isnad. */
  function Rebuilt(c: Isnad, gens: map<int, int>, names: map<int, string>): Isnad {
    var kept := KeptEdges(c.edges, gens, names);
    Isnad(c.sid, c.hid, kept, NodesOf(kept))
  }

  /** The curated isnads, in order, leaving out those with no edge left. */
  function CurateList(cs: seq<Isnad>, gens: map<int, int>, names: map<int, string>): seq<Isnad> {
    if cs == [] then []
    else
      var c := cs[|cs| - 1];
      CurateList(cs[..|cs| - 1], gens, names) +
      (if KeptEdges(c.edges, gens, names) == [] then [] else [Rebuilt(c, gens, names)])
  }

  /** The generations used: the given ones, or else the estimate of the set itself. */
  function GensUsed(s: IsnadSet, gens: Option<map<int, int>>): map<int, int> {
    if gens.Some? then gens.value else Gens(s.isnads)
  }

  /** What `get_curated(gens_dict)` returns. */
  function Curated(s: IsnadSet, gens: Option<map<int, int>>, names: map<int, string>): Result<IsnadSet> {
    var g := GensUsed(s, gens);
    var cs := DictItems(s.isnads);
    if forall c :: c in cs ==> NamesFound(c, g, names) then
      Success(Build(CurateList(cs, g, names), s.dbUrl))
    else
      Failure(KeyError)
  }

  // ---------------------------------------------------------------------------
  // The loops
  // ---------------------------------------------------------------------------

  /** The first loop of get_curated: keeps the edges whose generations are close. */
  method KeepSynchronic(es: seq<Edge>, gens: map<int, int>) returns (ne: seq<Edge>)
    ensures ne == Filter(es, SynchronicIn(gens))
    ensures forall e :: e in ne <==> e in es && Synchronic(gens, e)
  {
    ne := [];
    var i := 0;
    while i < |es|
      invariant 0 <= i <= |es|
      invariant ne == Filter(es[..i], SynchronicIn(gens))
    {
      var e := es[i];
      if e.u in gens && e.v in gens && Abs(gens[e.u] - gens[e.v]) <= 2 {
        ne := ne + [e];
      }
      assert es[..i + 1] == es[..i] + [e];
      FilterAppend(es[..i], e, SynchronicIn(gens));
      i := i + 1;
    }
    assert es[..i] == es;
    forall e ensures e in ne <==> e in es && Synchronic(gens, e) {
      FilterMember(es, SynchronicIn(gens), e);
    }
  }

  /**
   * The second loop of get_curated: looks up both names of every edge
   * (KeyError if one is missing) and keeps the edges whose names are neither
   * indefinite nor an Imam's.
   */
  method KeepDefinite(ne: seq<Edge>, names: map<int, string>) returns (r: Result<seq<Edge>>)
    ensures r.Failure? <==> exists e :: e in ne && !Named(names, e)
    ensures r.Failure? ==> r.error == KeyError
    ensures r.Success? ==> r.value == Filter(ne, DefiniteIn(names))
  {
    var nne: seq<Edge> := [];
    var i := 0;
    while i < |ne|
      invariant 0 <= i <= |ne|
      invariant forall e :: e in ne[..i] ==> Named(names, e)
      invariant nne == Filter(ne[..i], DefiniteIn(names))
    {
      var e := ne[i];
      if e.u !in names || e.v !in names {
        assert e in ne && !Named(names, e);
        return Failure(KeyError);
      }
      var un, vn := names[e.u], names[e.v];
      if !(StartsWith(un, GhayrSpace) || StartsWith(un, GhayrHyphen) || StartsWith(un, BaadSpace) ||
           StartsWith(vn, GhayrSpace) || StartsWith(vn, GhayrHyphen) || StartsWith(vn, BaadSpace) ||
           EndsWith(un, ImamSuffix) || EndsWith(vn, ImamSuffix)) {
        nne := nne + [e];
      }
      assert ne[..i + 1] == ne[..i] + [e];
      FilterAppend(ne[..i], e, DefiniteIn(names));
      i := i + 1;
    }
    assert ne[..i] == ne;
    return Success(nne);
  }

  /** What one isnad becomes: nothing when no edge is left, else its trimmed copy. */
  function Survivor(c: Isnad, gens: map<int, int>, names: map<int, string>): Option<Isnad> {
    if KeptEdges(c.edges, gens, names) == [] then None else Some(Rebuilt(c, gens, names))
  }

  /** The body of get_curated's loop, for one isnad. */
  method CurateOne(c: Isnad, gens: map<int, int>, names: map<int, string>) returns (r: Result<Option<Isnad>>)
    ensures r.Failure? <==> !NamesFound(c, gens, names)
    ensures r.Failure? ==> r.error == KeyError
    ensures r.Success? ==> r.value == Survivor(c, gens, names)
  {
    var ne := KeepSynchronic(c.edges, gens);
    var nne := KeepDefinite(ne, names);
    if nne.Failure? {
      return Failure(KeyError);
    }
    if |nne.value| == 0 {
      return Success(None);
    }
    var ni := MakeIsnad(c.sid, c.hid, nne.value);
    return Success(Some(ni.value));
  }

  lemma CurateListStep(cs: seq<Isnad>, i: nat, gens: map<int, int>, names: map<int, string>)
    requires i < |cs|
    ensures CurateList(cs[..i + 1], gens, names) ==
            CurateList(cs[..i], gens, names) +
            (if Survivor(cs[i], gens, names).Some? then [Survivor(cs[i], gens, names).value] else [])
  {
    assert cs[..i + 1][..i] == cs[..i];
  }

  /** The name lookups of every isnad in `cs` succeed. */
  predicate AllNamesFound(cs: seq<Isnad>, gens: map<int, int>, names: map<int, string>) {
    forall c :: c in cs ==> NamesFound(c, gens, names)
  }

  lemma AllNamesFoundStep(cs: seq<Isnad>, i: nat, gens: map<int, int>, names: map<int, string>)
    requires i < |cs| && AllNamesFound(cs[..i], gens, names) && NamesFound(cs[i], gens, names)
    ensures AllNamesFound(cs[..i + 1], gens, names)
  {
    assert cs[..i + 1] == cs[..i] + [cs[i]];
  }

  /** The loop of get_curated over the isnads `cs`, before the new set is built. */
  method CurateAll(cs: seq<Isnad>, g: map<int, int>, names: map<int, string>) returns (r: Result<seq<Isnad>>)
    ensures r.Failure? <==> exists c :: c in cs && !NamesFound(c, g, names)
    ensures r.Failure? ==> r.error == KeyError
    ensures r.Success? ==> r.value == CurateList(cs, g, names)
  {
    var ret: seq<Isnad> := [];
    var i := 0;
    while i < |cs|
      invariant 0 <= i <= |cs|
      invariant AllNamesFound(cs[..i], g, names)
      invariant ret == CurateList(cs[..i], g, names)
    {
      var one := CurateOne(cs[i], g, names);
      if one.Failure? {
        assert cs[i] in cs;
        return Failure(KeyError);
      }
      AllNamesFoundStep(cs, i, g, names);
      CurateListStep(cs, i, g, names);
      if one.value.Some? {
        ret := ret + [one.value.value];
      }
      i := i + 1;
    }
    assert cs[..i] == cs;
    return Success(ret);
  }

  /**
   * `get_curated`: with the given generations, or the set's own estimate when
   * none are given, curates every isnad in dictionary order and builds a new
   * set from the isnads that keep at least one edge.
   */
  method Curate(s: IsnadSet, gens: Option<map<int, int>>, names: map<int, string>)
    returns (r: Result<IsnadSet>)
    ensures r == Curated(s, gens, names)
  {
    var g: map<int, int>;
    if gens.None? {
      g := GensDict(s);
    } else {
      g := gens.value;
    }
    assert g == GensUsed(s, gens);
    var ret := CurateAll(DictItems(s.isnads), g, names);
    if ret.Failure? {
      return Failure(KeyError);
    }
    var built := NewIsnadSet(ret.value, s.dbUrl);
    return Success(built);
  }

  // ---------------------------------------------------------------------------
  // Properties
  // ---------------------------------------------------------------------------

  /** Each curated isnad is the trimmed copy of an original one with some edge left. */
  lemma {:induction false} CurateListOrigin(cs: seq<Isnad>, gens: map<int, int>, names: map<int, string>, c': Isnad)
    requires c' in CurateList(cs, gens, names)
    ensures exists i :: 0 <= i < |cs| && c' == Rebuilt(cs[i], gens, names) &&
              KeptEdges(cs[i].edges, gens, names) != []
  {
    var p := cs[..|cs| - 1];
    if c' in CurateList(p, gens, names) {
      CurateListOrigin(p, gens, names, c');
      var i :| 0 <= i < |p| && c' == Rebuilt(p[i], gens, names) && KeptEdges(p[i].edges, gens, names) != [];
      assert cs[i] == p[i];
    }
  }

  /** Every original isnad with some edge left has its trimmed copy in the curated list. */
  lemma {:induction false} CurateListKeeps(cs: seq<Isnad>, gens: map<int, int>, names: map<int, string>, i: nat)
    requires i < |cs| && KeptEdges(cs[i].edges, gens, names) != []
    ensures Rebuilt(cs[i], gens, names) in CurateList(cs, gens, names)
  {
    var p := cs[..|cs| - 1];
    if i < |p| {
      CurateListKeeps(p, gens, names, i);
      assert cs[i] == p[i];
    }
  }

  /** Sum of the edge counts of a list of isnads. */
  function TotalEdges(cs: seq<Isnad>): nat {
    if cs == [] then 0 else TotalEdges(cs[..|cs| - 1]) + |cs[|cs| - 1].edges|
  }

  /** Curation never adds edges: the total edge count does not grow. */
  lemma {:induction false} CurateListShrinks(cs: seq<Isnad>, gens: map<int, int>, names: map<int, string>)
    ensures TotalEdges(CurateList(cs, gens, names)) <= TotalEdges(cs)
  {
    if cs != [] {
      var p, c := cs[..|cs| - 1], cs[|cs| - 1];
      var rest := CurateList(p, gens, names);
      CurateListShrinks(p, gens, names);
      KeptEdgesSpec(c.edges, gens, names);
      if KeptEdges(c.edges, gens, names) != [] {
        var t := Rebuilt(c, gens, names);
        assert (rest + [t])[..|rest|] == rest;
      } else {
        assert rest + [] == rest;
      }
    }
  }

  /**
   * The kept edges are exactly the edges, in their original order, that join
   * two narrators with known generations at most 2 apart and with definite,
   * non-Imam names.
   */
  lemma KeptEdgesSpec(es: seq<Edge>, gens: map<int, int>, names: map<int, string>)
    ensures IsSubseq(KeptEdges(es, gens, names), es)
    ensures |KeptEdges(es, gens, names)| <= |es|
    ensures forall e :: e in KeptEdges(es, gens, names) <==>
              e in es && Synchronic(gens, e) && Definite(names, e)
  {
    var both := Both(SynchronicIn(gens), DefiniteIn(names));
    FilterTwice(es, SynchronicIn(gens), DefiniteIn(names));
    FilterSpec(es, both);
    forall e ensures e in KeptEdges(es, gens, names) <==> e in es && Synchronic(gens, e) && Definite(names, e)
    {
      assert e in KeptEdges(es, gens, names) <==> e in multiset(Filter(es, both));
      assert e in es <==> e in multiset(es);
    }
  }

  /**
   * Each isnad of a curated list is well formed and is the trimmed copy of an
   * original isnad: same ids, and edges forming an order-preserving
   * subsequence of the original's, each joining two synchronic, definite
   * narrators.
   */
  lemma CurateSurvivor(cs: seq<Isnad>, gens: map<int, int>, names: map<int, string>, c': Isnad)
    requires c' in CurateList(cs, gens, names)
    ensures WellFormed(c')
    ensures exists c :: c in cs && c.sid == c'.sid && c.hid == c'.hid && IsSubseq(c'.edges, c.edges)
    ensures forall e :: e in c'.edges ==> Synchronic(gens, e) && Definite(names, e)
  {
    CurateListOrigin(cs, gens, names, c');
    var i :| 0 <= i < |cs| && c' == Rebuilt(cs[i], gens, names) && KeptEdges(cs[i].edges, gens, names) != [];
    KeptEdgesSpec(cs[i].edges, gens, names);
    assert cs[i] in cs;
  }

  /**
   * With distinct isnad ids, an isnad is dropped by curation exactly when
   * none of its edges survive.
   */
  lemma CurateDropped(cs: seq<Isnad>, gens: map<int, int>, names: map<int, string>, c: Isnad)
    requires UniqueSids(cs) && c in cs
    ensures (exists c' :: c' in CurateList(cs, gens, names) && c'.sid == c.sid) <==>
            KeptEdges(c.edges, gens, names) != []
  {
    var k :| 0 <= k < |cs| && cs[k] == c;
    if KeptEdges(c.edges, gens, names) != [] {
      CurateListKeeps(cs, gens, names, k);
      assert Rebuilt(cs[k], gens, names) in CurateList(cs, gens, names);
    }
    if c' :| c' in CurateList(cs, gens, names) && c'.sid == c.sid {
      CurateListOrigin(cs, gens, names, c');
      var i :| 0 <= i < |cs| && c' == Rebuilt(cs[i], gens, names) && KeptEdges(cs[i].edges, gens, names) != [];
      assert cs[i].sid == cs[k].sid;
      assert i == k;
    }
  }

  /** The name lookups of an isnad succeed exactly when every synchronic edge is named. */
  lemma NamesFoundIff(c: Isnad, g: map<int, int>, names: map<int, string>)
    ensures NamesFound(c, g, names) <==> forall e :: e in c.edges && Synchronic(g, e) ==> Named(names, e)
  {
    forall e ensures e in Filter(c.edges, SynchronicIn(g)) <==> e in c.edges && Synchronic(g, e) {
      FilterMember(c.edges, SynchronicIn(g), e);
    }
  }

  /** `get_curated` fails exactly when a synchronic edge of an isnad it visits has an unnamed end. */
  lemma CurateFailure(s: IsnadSet, gens: Option<map<int, int>>, names: map<int, string>)
    ensures Curated(s, gens, names).Failure? <==>
            exists c, e :: c in DictItems(s.isnads) && e in c.edges &&
              Synchronic(GensUsed(s, gens), e) && !Named(names, e)
    ensures Curated(s, gens, names).Failure? ==> Curated(s, gens, names).error == KeyError
  {
    var cs, g := DictItems(s.isnads), GensUsed(s, gens);
    assert Curated(s, gens, names).Failure? <==> exists c :: c in cs && !NamesFound(c, g, names);
    forall c | c in cs {
      NamesFoundIff(c, g, names);
    }
  }

  /**
   * When `get_curated` succeeds, the result is a consistent set over the same
   * database whose isnads are the surviving trimmed copies, each well formed
   * and derived from an isnad of the set, with no more edges in total than
   * the isnads visited.
   */
  lemma CurateSpec(s: IsnadSet, gens: Option<map<int, int>>, names: map<int, string>)
    requires Curated(s, gens, names).Success?
    ensures var r := Curated(s, gens, names).value;
              && Consistent(r) && r.dbUrl == s.dbUrl
              && r.isnads == CurateList(DictItems(s.isnads), GensUsed(s, gens), names)
              && (forall c' :: c' in r.isnads ==>
                    WellFormed(c') &&
                    exists c :: c in s.isnads && c.sid == c'.sid && c.hid == c'.hid && IsSubseq(c'.edges, c.edges))
              && TotalEdges(r.isnads) <= TotalEdges(DictItems(s.isnads))
  {
    var g, cs := GensUsed(s, gens), DictItems(s.isnads);
    assert Curated(s, gens, names).value == Build(CurateList(cs, g, names), s.dbUrl);
    CurateListShrinks(cs, g, names);
    DictItemsMembers(s.isnads);
    forall c' | c' in CurateList(cs, g, names)
      ensures WellFormed(c')
      ensures exists c :: c in s.isnads && c.sid == c'.sid && c.hid == c'.hid && IsSubseq(c'.edges, c.edges)
    {
      CurateSurvivor(cs, g, names, c');
    }
  }

  /**
   * With distinct isnad ids (the database's primary key), curation visits the
   * isnads in list order, and an isnad is dropped exactly when none of its
   * edges survive.
   */
  lemma CurateUnique(s: IsnadSet, gens: Option<map<int, int>>, names: map<int, string>)
    requires UniqueSids(s.isnads) && Curated(s, gens, names).Success?
    ensures Curated(s, gens, names).value.isnads == CurateList(s.isnads, GensUsed(s, gens), names)
    ensures forall c :: c in s.isnads ==>
              ((exists c' :: c' in Curated(s, gens, names).value.isnads && c'.sid == c.sid) <==>
               KeptEdges(c.edges, GensUsed(s, gens), names) != [])
  {
    DictItemsUnique(s.isnads);
    forall c | c in s.isnads
      ensures (exists c' :: c' in Curated(s, gens, names).value.isnads && c'.sid == c.sid) <==>
              KeptEdges(c.edges, GensUsed(s, gens), names) != []
    {
      CurateDropped(s.isnads, GensUsed(s, gens), names, c);
    }
  }
}
