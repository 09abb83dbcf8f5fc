/**
 * Derived indexes of an isnad set: edge -> isnad ids, node -> isnad ids, and
 * the estimated generation of each narrator (the `get_edges_sids_dict`,
 * `get_nodes_sids_dict` and `get_gens_dict` methods of `IsnadSet`).
 */
module Indexes {
  import opened Outcomes
  import opened Sequences
  import opened Chains
  import opened Corpus

  // ---------------------------------------------------------------------------
  // The (key, value) pairs the loops append, isnad by isnad
  // ---------------------------------------------------------------------------

  /** (edge, sid) for every edge of one isnad. */
  function EdgeRow(c: Isnad): seq<(Edge, int)> {
    seq(|c.edges|, j requires 0 <= j < |c.edges| => (c.edges[j], c.sid))
  }

  /** (node, sid) for every node of one isnad. */
  function NodeRow(c: Isnad): seq<(int, int)> {
    seq(|c.nodes|, j requires 0 <= j < |c.nodes| => (c.nodes[j], c.sid))
  }

  /** (node, position) for every node of one isnad: `enumerate(nodes_list)`. */
  function PosRow(c: Isnad): seq<(int, int)> {
    seq(|c.nodes|, j requires 0 <= j < |c.nodes| => (c.nodes[j], j))
  }

  function EdgePairs(cs: seq<Isnad>): seq<(Edge, int)> {
    if cs == [] then [] else EdgePairs(cs[..|cs| - 1]) + EdgeRow(cs[|cs| - 1])
  }

  function NodePairs(cs: seq<Isnad>): seq<(int, int)> {
    if cs == [] then [] else NodePairs(cs[..|cs| - 1]) + NodeRow(cs[|cs| - 1])
  }

  function PosPairs(cs: seq<Isnad>): seq<(int, int)> {
    if cs == [] then [] else PosPairs(cs[..|cs| - 1]) + PosRow(cs[|cs| - 1])
  }

  /** `list(set(v))` for every value list of a dictionary; list order is not modelled. */
  function ToSets<K>(m: map<K, seq<int>>): map<K, set<int>> {
    map k | k in m :: set x | x in m[k]
  }

  /** The distinct edges of a list of isnads. */
  function AllEdges(cs: seq<Isnad>): set<Edge> {
    set c, e | c in cs && e in c.edges :: e
  }

  /** The distinct nodes of a list of isnads. */
  function AllNodes(cs: seq<Isnad>): set<int> {
    set c, x | c in cs && x in c.nodes :: x
  }

  lemma EdgePairsMember(cs: seq<Isnad>, e: Edge, sid: int)
    ensures (e, sid) in EdgePairs(cs) <==> exists c :: c in cs && c.sid == sid && e in c.edges
  {
    if cs != [] {
      var p, c := cs[..|cs| - 1], cs[|cs| - 1];
      assert cs == p + [c];
      EdgePairsMember(p, e, sid);
      if (e, sid) in EdgeRow(c) {
        var j :| 0 <= j < |c.edges| && EdgeRow(c)[j] == (e, sid);
        assert c.edges[j] == e;
      }
      if c.sid == sid && e in c.edges {
        var j :| 0 <= j < |c.edges| && c.edges[j] == e;
        assert EdgeRow(c)[j] == (e, sid);
      }
    }
  }

  lemma NodePairsMember(cs: seq<Isnad>, x: int, sid: int)
    ensures (x, sid) in NodePairs(cs) <==> exists c :: c in cs && c.sid == sid && x in c.nodes
  {
    if cs != [] {
      var p, c := cs[..|cs| - 1], cs[|cs| - 1];
      assert cs == p + [c];
      NodePairsMember(p, x, sid);
      if (x, sid) in NodeRow(c) {
        var j :| 0 <= j < |c.nodes| && NodeRow(c)[j] == (x, sid);
        assert c.nodes[j] == x;
      }
      if c.sid == sid && x in c.nodes {
        var j :| 0 <= j < |c.nodes| && c.nodes[j] == x;
        assert NodeRow(c)[j] == (x, sid);
      }
    }
  }

  /** An isnad id is listed under an edge iff that isnad has that edge. */
  lemma EdgeIndexSpec(cs: seq<Isnad>)
    ensures ToSets(Buckets(EdgePairs(cs))).Keys == AllEdges(cs)
    ensures forall e, sid :: e in AllEdges(cs) ==>
              (sid in ToSets(Buckets(EdgePairs(cs)))[e] <==>
               exists c :: c in cs && c.sid == sid && e in c.edges)
  {
    var ps := EdgePairs(cs);
    forall e ensures e in KeysOf(ps) <==> e in AllEdges(cs) {
      if e in KeysOf(ps) {
        var sid := KeysOfWitness(ps, e);
        EdgePairsMember(cs, e, sid);
      }
      if e in AllEdges(cs) {
        var c :| c in cs && e in c.edges;
        EdgePairsMember(cs, e, c.sid);
        KeysOfIntro(ps, e, c.sid);
      }
    }
    forall e, sid | e in AllEdges(cs)
      ensures sid in ToSets(Buckets(ps))[e] <==> exists c :: c in cs && c.sid == sid && e in c.edges
    {
      BucketMember(ps, e, sid);
      EdgePairsMember(cs, e, sid);
    }
  }

  /** An isnad id is listed under a node iff that isnad passes through that node. */
  lemma NodeIndexSpec(cs: seq<Isnad>)
    ensures ToSets(Buckets(NodePairs(cs))).Keys == AllNodes(cs)
    ensures forall x, sid :: x in AllNodes(cs) ==>
              (sid in ToSets(Buckets(NodePairs(cs)))[x] <==>
               exists c :: c in cs && c.sid == sid && x in c.nodes)
  {
    var ps := NodePairs(cs);
    forall x ensures x in KeysOf(ps) <==> x in AllNodes(cs) {
      if x in KeysOf(ps) {
        var sid := KeysOfWitness(ps, x);
        NodePairsMember(cs, x, sid);
      }
      if x in AllNodes(cs) {
        var c :| c in cs && x in c.nodes;
        NodePairsMember(cs, x, c.sid);
        KeysOfIntro(ps, x, c.sid);
      }
    }
    forall x, sid | x in AllNodes(cs)
      ensures sid in ToSets(Buckets(ps))[x] <==> exists c :: c in cs && c.sid == sid && x in c.nodes
    {
      BucketMember(ps, x, sid);
      NodePairsMember(cs, x, sid);
    }
  }

  // ---------------------------------------------------------------------------
  // The loops
  // ---------------------------------------------------------------------------

  lemma PairsStep<K>(done: seq<(K, int)>, row: seq<(K, int)>, j: nat)
    requires j < |row|
    ensures done + row[..j + 1] == (done + row[..j]) + [row[j]]
  {
  }

  /**
   * `get_edges_sids_dict`: appends the isnad id under each of its edges, then
   * turns each list into a duplicate-free one. Keys are exactly the distinct
   * edges, and an id is listed under an edge iff that isnad has the edge.
   */
  method EdgesSids(s: IsnadSet) returns (r: map<Edge, set<int>>)
    ensures r == ToSets(Buckets(EdgePairs(s.isnads)))
    ensures r.Keys == AllEdges(s.isnads)
    ensures forall e, sid :: e in r ==>
              (sid in r[e] <==> exists c :: c in s.isnads && c.sid == sid && e in c.edges)
  {
    var cs := s.isnads;
    var ret: map<Edge, seq<int>> := map[];
    var i := 0;
    assert Buckets(EdgePairs(cs[..0])) == map[];
    while i < |cs|
      invariant 0 <= i <= |cs|
      invariant ret == Buckets(EdgePairs(cs[..i]))
    {
      var c := cs[i];
      var row := EdgeRow(c);
      var j := 0;
      assert EdgePairs(cs[..i]) + row[..0] == EdgePairs(cs[..i]);
      while j < |c.edges|
        invariant 0 <= j <= |c.edges|
        invariant ret == Buckets(EdgePairs(cs[..i]) + row[..j])
      {
        var e := c.edges[j];
        ret := ret[e := (if e in ret then ret[e] else []) + [c.sid]];
        PairsStep(EdgePairs(cs[..i]), row, j);
        BucketsAppend(EdgePairs(cs[..i]) + row[..j], e, c.sid);
        j := j + 1;
      }
      assert cs[..i + 1][..i] == cs[..i];
      assert row[..j] == row;
      i := i + 1;
    }
    assert cs[..i] == cs;
    r := map k | k in ret :: set x | x in ret[k];
    EdgeIndexSpec(cs);
  }

  /**
   * `get_nodes_sids_dict`: fails on an empty isnad set; otherwise keys are
   * exactly the distinct nodes, and an id is listed under a node iff that
   * isnad passes through the node.
   */
  method NodesSids(s: IsnadSet) returns (r: Result<map<int, set<int>>>)
    ensures r.Failure? <==> s.isnads == []
    ensures r.Failure? ==> r.error == EmptyCorpus
    ensures r.Success? ==> r.value == ToSets(Buckets(NodePairs(s.isnads)))
    ensures r.Success? ==> r.value.Keys == AllNodes(s.isnads)
    ensures r.Success? ==> forall x, sid :: x in r.value ==>
              (sid in r.value[x] <==> exists c :: c in s.isnads && c.sid == sid && x in c.nodes)
  {
    var cs := s.isnads;
    if |cs| == 0 {
      return Failure(EmptyCorpus);
    }
    var ret: map<int, seq<int>> := map[];
    var i := 0;
    assert Buckets(NodePairs(cs[..0])) == map[];
    while i < |cs|
      invariant 0 <= i <= |cs|
      invariant ret == Buckets(NodePairs(cs[..i]))
    {
      var c := cs[i];
      var row := NodeRow(c);
      var j := 0;
      assert NodePairs(cs[..i]) + row[..0] == NodePairs(cs[..i]);
      while j < |c.nodes|
        invariant 0 <= j <= |c.nodes|
        invariant ret == Buckets(NodePairs(cs[..i]) + row[..j])
      {
        var u := c.nodes[j];
        ret := ret[u := (if u in ret then ret[u] else []) + [c.sid]];
        PairsStep(NodePairs(cs[..i]), row, j);
        BucketsAppend(NodePairs(cs[..i]) + row[..j], u, c.sid);
        j := j + 1;
      }
      assert cs[..i + 1][..i] == cs[..i];
      assert row[..j] == row;
      i := i + 1;
    }
    assert cs[..i] == cs;
    NodeIndexSpec(cs);
    return Success(map k | k in ret :: set x | x in ret[k]);
  }

  // ---------------------------------------------------------------------------
  // Generation estimate
  // ---------------------------------------------------------------------------

  /** The positions at which every node occurs, gathered isnad by isnad. */
  function Positions(cs: seq<Isnad>): map<int, seq<int>> {
    Buckets(PosPairs(cs))
  }

  /** `{u: Counter(aret[u]).most_common()[0][0] for u in aret}` */
  function ModeOfEach(aret: map<int, seq<int>>): map<int, int>
    requires forall u :: u in aret ==> |aret[u]| > 0
  {
    map u | u in aret :: Mode(aret[u])
  }

  lemma PositionsNonEmpty(cs: seq<Isnad>)
    ensures forall u :: u in Positions(cs) ==> |Positions(cs)[u]| > 0
  {
    forall u | u in Positions(cs) ensures |Positions(cs)[u]| > 0 {
      var p := KeysOfWitness(PosPairs(cs), u);
      BucketMember(PosPairs(cs), u, p);
    }
  }

  /** What `get_gens_dict` returns. */
  function Gens(cs: seq<Isnad>): map<int, int> {
    PositionsNonEmpty(cs);
    ModeOfEach(Positions(cs))
  }

  lemma PosPairsMember(cs: seq<Isnad>, x: int, p: int)
    ensures (x, p) in PosPairs(cs) <==> exists c :: c in cs && 0 <= p < |c.nodes| && c.nodes[p] == x
  {
    if cs != [] {
      var q, c := cs[..|cs| - 1], cs[|cs| - 1];
      assert cs == q + [c];
      PosPairsMember(q, x, p);
      if (x, p) in PosRow(c) {
        var j :| 0 <= j < |c.nodes| && PosRow(c)[j] == (x, p);
      }
      if 0 <= p < |c.nodes| && c.nodes[p] == x {
        assert PosRow(c)[p] == (x, p);
      }
    }
  }

  lemma GensKeys(cs: seq<Isnad>)
    ensures Gens(cs).Keys == AllNodes(cs)
  {
    var ps := PosPairs(cs);
    forall u ensures u in KeysOf(ps) <==> u in AllNodes(cs) {
      if u in KeysOf(ps) {
        var p := KeysOfWitness(ps, u);
        PosPairsMember(cs, u, p);
        var c :| c in cs && 0 <= p < |c.nodes| && c.nodes[p] == u;
        assert u in c.nodes;
      }
      if u in AllNodes(cs) {
        var c :| c in cs && u in c.nodes;
        var p :| 0 <= p < |c.nodes| && c.nodes[p] == u;
        PosPairsMember(cs, u, p);
        KeysOfIntro(ps, u, p);
      }
    }
  }

  lemma GensAt(cs: seq<Isnad>, u: int)
    requires u in Gens(cs)
    ensures exists c :: c in cs && 0 <= Gens(cs)[u] < |c.nodes| && c.nodes[Gens(cs)[u]] == u
    ensures forall p :: p in Positions(cs)[u] ==>
              multiset(Positions(cs)[u])[p] <= multiset(Positions(cs)[u])[Gens(cs)[u]]
    ensures forall p :: (p in Positions(cs)[u] &&
              multiset(Positions(cs)[u])[p] == multiset(Positions(cs)[u])[Gens(cs)[u]]) ==>
              FirstIndex(Positions(cs)[u], Gens(cs)[u]) <= FirstIndex(Positions(cs)[u], p)
  {
    PositionsNonEmpty(cs);
    var pos := Positions(cs)[u];
    assert Gens(cs)[u] == Mode(pos);
    ModeSpec(pos);
    BucketMember(PosPairs(cs), u, Mode(pos));
    PosPairsMember(cs, u, Mode(pos));
  }

  /**
   * The generation estimate has a key for exactly the nodes of the isnads;
   * the value of a node is a 0-based position at which it occurs, occurring
   * there at least as often as at any other position, and among positions of
   * equal count the one met first.
   */
  lemma GensSpec(cs: seq<Isnad>)
    ensures Gens(cs).Keys == AllNodes(cs)
    ensures forall u :: u in Gens(cs) ==>
              exists c :: c in cs && 0 <= Gens(cs)[u] < |c.nodes| && c.nodes[Gens(cs)[u]] == u
    ensures forall u, p :: u in Gens(cs) && p in Positions(cs)[u] ==>
              multiset(Positions(cs)[u])[p] <= multiset(Positions(cs)[u])[Gens(cs)[u]]
    ensures forall u, p :: (u in Gens(cs) && p in Positions(cs)[u] &&
              multiset(Positions(cs)[u])[p] == multiset(Positions(cs)[u])[Gens(cs)[u]]) ==>
              FirstIndex(Positions(cs)[u], Gens(cs)[u]) <= FirstIndex(Positions(cs)[u], p)
  {
    GensKeys(cs);
    forall u | u in Gens(cs)
      ensures exists c :: c in cs && 0 <= Gens(cs)[u] < |c.nodes| && c.nodes[Gens(cs)[u]] == u
      ensures forall p :: p in Positions(cs)[u] ==>
                multiset(Positions(cs)[u])[p] <= multiset(Positions(cs)[u])[Gens(cs)[u]]
      ensures forall p :: (p in Positions(cs)[u] &&
                multiset(Positions(cs)[u])[p] == multiset(Positions(cs)[u])[Gens(cs)[u]]) ==>
                FirstIndex(Positions(cs)[u], Gens(cs)[u]) <= FirstIndex(Positions(cs)[u], p)
    {
      GensAt(cs, u);
    }
  }

  /**
   * `get_gens_dict`: collects, for each node, the positions at which it
   * occurs across the isnads, then takes the most common position of each.
   */
  method GensDict(s: IsnadSet) returns (r: map<int, int>)
    ensures r == Gens(s.isnads)
  {
    var cs := s.isnads;
    var aret: map<int, seq<int>> := map[];
    var i := 0;
    assert Buckets(PosPairs(cs[..0])) == map[];
    while i < |cs|
      invariant 0 <= i <= |cs|
      invariant aret == Buckets(PosPairs(cs[..i]))
    {
      var c := cs[i];
      var row := PosRow(c);
      var ui := 0;
      assert PosPairs(cs[..i]) + row[..0] == PosPairs(cs[..i]);
      while ui < |c.nodes|
        invariant 0 <= ui <= |c.nodes|
        invariant aret == Buckets(PosPairs(cs[..i]) + row[..ui])
      {
        var u := c.nodes[ui];
        aret := aret[u := (if u in aret then aret[u] else []) + [ui]];
        PairsStep(PosPairs(cs[..i]), row, ui);
        BucketsAppend(PosPairs(cs[..i]) + row[..ui], u, ui);
        ui := ui + 1;
      }
      assert cs[..i + 1][..i] == cs[..i];
      assert row[..ui] == row;
      i := i + 1;
    }
    assert cs[..i] == cs;
    assert aret == Positions(cs);
    PositionsNonEmpty(cs);
    r := map u | u in aret :: Mode(aret[u]);
  }
}
