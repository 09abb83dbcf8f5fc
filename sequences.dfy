/**
 * The list and dictionary idioms the isnad code is built from, each defined
 * once with the facts the rest of the model needs:
 *   - `if x not in l: l.append(x)`            -> Dedup
 *   - `d = defaultdict(list); d[k].append(v)` -> Buckets
 *   - `l[a:b]` with Python's bound rules      -> PySlice
 *   - `Counter(l).most_common()[0][0]`        -> Mode
 *   - `sorted(l, key=..., reverse=True)`      -> SortDesc
 */
module Sequences {

  // ---------------------------------------------------------------------------
  // First occurrences
  // ---------------------------------------------------------------------------

  /** `if x not in s: s.append(x)` */
  function AddNew<T(==)>(s: seq<T>, x: T): seq<T> {
    if x in s then s else s + [x]
  }

  /** The distinct elements of `s`, in the order of their first occurrence. */
  function Dedup<T(==)>(s: seq<T>): seq<T> {
    if s == [] then [] else AddNew(Dedup(s[..|s| - 1]), s[|s| - 1])
  }

  predicate NoDup<T(==)>(s: seq<T>) {
    forall i, j :: 0 <= i < j < |s| ==> s[i] != s[j]
  }

  /** The position of the first occurrence of `x` in `s`. */
  function FirstIndex<T(==)>(s: seq<T>, x: T): (k: nat)
    requires x in s
    ensures k < |s| && s[k] == x && x !in s[..k]
  {
    if s[0] == x then 0
    else
      assert s == [s[0]] + s[1..];
      var k' := FirstIndex(s[1..], x);
      assert s[..1 + k'] == [s[0]] + s[1..][..k'];
      1 + k'
  }

  lemma FirstIndexAppend<T>(p: seq<T>, x: T, y: T)
    requires y in p + [x]
    ensures FirstIndex(p + [x], y) == if y in p then FirstIndex(p, y) else |p|
  {
    var k1 := FirstIndex(p + [x], y);
    forall i | 0 <= i < k1 ensures (p + [x])[i] != y {
      assert (p + [x])[..k1][i] == (p + [x])[i];
    }
    assert k1 < |p| ==> p[k1] == (p + [x])[k1];
    if y in p {
      var k2 := FirstIndex(p, y);
      forall i | 0 <= i < k2 ensures p[i] != y {
        assert p[..k2][i] == p[i];
      }
      assert (p + [x])[k2] == y;
    }
  }

  lemma DedupAppend<T>(s: seq<T>, x: T)
    ensures Dedup(s + [x]) == AddNew(Dedup(s), x)
  {
    assert (s + [x])[..|s|] == s;
  }

  /** Dedup keeps exactly the elements of `s`. */
  lemma {:induction false} DedupMember<T>(s: seq<T>, x: T)
    ensures x in Dedup(s) <==> x in s
  {
    if s != [] {
      var p := s[..|s| - 1];
      assert s == p + [s[|s| - 1]];
      DedupMember(p, x);
      DedupAppend(p, s[|s| - 1]);
    }
  }

  /** Dedup keeps every element once. */
  lemma {:induction false} DedupNoDup<T>(s: seq<T>)
    ensures NoDup(Dedup(s))
  {
    if s != [] {
      var p, x := s[..|s| - 1], s[|s| - 1];
      assert s == p + [x];
      DedupNoDup(p);
      DedupAppend(p, x);
    }
  }

  /** Dedup lists the elements in the order of their first occurrence in `s`. */
  lemma {:induction false} DedupOrder<T>(s: seq<T>)
    ensures forall x :: x in Dedup(s) ==> x in s
    ensures forall i, j :: 0 <= i < j < |Dedup(s)| ==>
              FirstIndex(s, Dedup(s)[i]) < FirstIndex(s, Dedup(s)[j])
  {
    if s != [] {
      var p, x := s[..|s| - 1], s[|s| - 1];
      assert s == p + [x];
      DedupOrder(p);
      DedupOrderStep(p, x);
    }
  }

  /** The elements of Dedup(p) keep their first positions when one element is appended. */
  lemma DedupKeepsFirst<T>(p: seq<T>, x: T)
    ensures forall y :: y in Dedup(p) ==> y in p && FirstIndex(p + [x], y) == FirstIndex(p, y) < |p|
  {
    forall y | y in Dedup(p)
      ensures y in p && FirstIndex(p + [x], y) == FirstIndex(p, y) < |p|
    {
      DedupMember(p, y);
      FirstIndexAppend(p, x, y);
    }
  }

  /** Appending one element keeps Dedup in first-occurrence order. */
  lemma DedupOrderStep<T>(p: seq<T>, x: T)
    requires forall y :: y in Dedup(p) ==> y in p
    requires forall i, j :: 0 <= i < j < |Dedup(p)| ==>
               FirstIndex(p, Dedup(p)[i]) < FirstIndex(p, Dedup(p)[j])
    ensures forall y :: y in Dedup(p + [x]) ==> y in p + [x]
    ensures forall i, j :: 0 <= i < j < |Dedup(p + [x])| ==>
              FirstIndex(p + [x], Dedup(p + [x])[i]) < FirstIndex(p + [x], Dedup(p + [x])[j])
  {
    DedupAppend(p, x);
    DedupMember(p, x);
    DedupKeepsFirst(p, x);
    if x !in p {
      DedupOrderNew(p, x);
    }
  }

  /** Appending a new element puts it last in Dedup, after every earlier first occurrence. */
  lemma DedupOrderNew<T>(p: seq<T>, x: T)
    requires x !in p
    requires forall y :: y in Dedup(p) ==> y in p && FirstIndex(p + [x], y) == FirstIndex(p, y) < |p|
    requires forall i, j :: 0 <= i < j < |Dedup(p)| ==>
               FirstIndex(p, Dedup(p)[i]) < FirstIndex(p, Dedup(p)[j])
    requires Dedup(p + [x]) == Dedup(p) + [x]
    ensures forall i, j :: 0 <= i < j < |Dedup(p + [x])| ==>
              FirstIndex(p + [x], Dedup(p + [x])[i]) < FirstIndex(p + [x], Dedup(p + [x])[j])
  {
    var d, q := Dedup(p), p + [x];
    FirstIndexAppend(p, x, x);
    forall i, j | 0 <= i < j < |Dedup(q)|
      ensures FirstIndex(q, Dedup(q)[i]) < FirstIndex(q, Dedup(q)[j])
    {
      assert Dedup(q)[i] == d[i] && d[i] in d;
      if j < |d| {
        assert Dedup(q)[j] == d[j] && d[j] in d;
      }
    }
  }

  /**
   * Dedup keeps every element once, keeps nothing else, and lists the
   * elements in the order of their first occurrence in `s`.
   */
  lemma DedupSpec<T>(s: seq<T>)
    ensures NoDup(Dedup(s))
    ensures forall x :: x in Dedup(s) <==> x in s
    ensures forall i, j :: 0 <= i < j < |Dedup(s)| ==>
              FirstIndex(s, Dedup(s)[i]) < FirstIndex(s, Dedup(s)[j])
  {
    DedupNoDup(s);
    DedupOrder(s);
    forall x | x in s ensures x in Dedup(s) {
      DedupMember(s, x);
    }
  }


  /** Deduplicating two element-disjoint lists one after the other. */
  lemma {:induction false} DedupDisjoint<T>(a: seq<T>, b: seq<T>)
    requires forall y :: y in b ==> y !in a
    ensures Dedup(a + b) == Dedup(a) + Dedup(b)
  {
    if b == [] {
      assert a + b == a;
    } else {
      var b', y := b[..|b| - 1], b[|b| - 1];
      assert b == b' + [y];
      assert a + b == (a + b') + [y];
      DedupAppend(a + b', y);
      DedupDisjoint(a, b');
      DedupAppend(b', y);
      DedupSpec(a);
      DedupSpec(b');
      assert y in Dedup(a) + Dedup(b') <==> y in Dedup(b');
    }
  }

  /** A non-empty run of one value deduplicates to that value alone. */
  lemma {:induction false} DedupRun<T>(b: seq<T>, h: T)
    requires |b| > 0 && forall y :: y in b ==> y == h
    ensures Dedup(b) == [h]
  {
    var b', y := b[..|b| - 1], b[|b| - 1];
    assert b == b' + [y];
    DedupAppend(b', y);
    assert y in b;
    if b' != [] {
      assert forall z :: z in b' ==> z in b;
      DedupRun(b', h);
    }
  }

  /** Appending a run of a value not yet present adds that value once. */
  lemma DedupAppendRun<T>(a: seq<T>, b: seq<T>, h: T)
    requires h !in a && |b| > 0 && forall y :: y in b ==> y == h
    ensures Dedup(a + b) == Dedup(a) + [h]
  {
    DedupDisjoint(a, b);
    DedupRun(b, h);
  }

  // ---------------------------------------------------------------------------
  // Order-preserving selection
  // ---------------------------------------------------------------------------

  /** The elements of `s` satisfying `keep`, in their original order. */
  function Filter<T>(s: seq<T>, keep: T -> bool): seq<T> {
    if s == [] then []
    else Filter(s[..|s| - 1], keep) + (if keep(s[|s| - 1]) then [s[|s| - 1]] else [])
  }

  /** `a` can be obtained from `b` by deleting elements. */
  predicate IsSubseq<T(==)>(a: seq<T>, b: seq<T>) {
    if a == [] then true
    else if b == [] then false
    else if a[|a| - 1] == b[|b| - 1] then IsSubseq(a[..|a| - 1], b[..|b| - 1])
    else IsSubseq(a, b[..|b| - 1])
  }

  lemma FilterAppend<T>(s: seq<T>, x: T, keep: T -> bool)
    ensures Filter(s + [x], keep) == Filter(s, keep) + (if keep(x) then [x] else [])
  {
    assert (s + [x])[..|s|] == s;
  }

  lemma {:induction false} FilterConcat<T>(a: seq<T>, b: seq<T>, keep: T -> bool)
    ensures Filter(a + b, keep) == Filter(a, keep) + Filter(b, keep)
  {
    if b == [] {
      assert a + b == a;
    } else {
      var b', y := b[..|b| - 1], b[|b| - 1];
      assert b == b' + [y];
      assert a + b == (a + b') + [y];
      FilterConcat(a, b', keep);
      FilterAppend(a + b', y, keep);
      FilterAppend(b', y, keep);
    }
  }

  lemma {:induction false} FilterKeeps<T>(s: seq<T>, keep: T -> bool)
    ensures forall x :: x in Filter(s, keep) ==> keep(x)
    ensures forall x :: multiset(Filter(s, keep))[x] == if keep(x) then multiset(s)[x] else 0
    ensures |Filter(s, keep)| <= |s|
  {
    if s != [] {
      var p, x := s[..|s| - 1], s[|s| - 1];
      assert s == p + [x];
      FilterKeeps(p, keep);
      FilterAppend(p, x, keep);
    }
  }

  lemma {:induction false} FilterSubseq<T>(s: seq<T>, keep: T -> bool)
    ensures IsSubseq(Filter(s, keep), s)
  {
    if s != [] {
      var p, x := s[..|s| - 1], s[|s| - 1];
      FilterSubseq(p, keep);
      assert s == p + [x];
      FilterAppend(p, x, keep);
      var f := Filter(p, keep);
      if keep(x) {
        assert (f + [x])[..|f|] == f;
      } else if f != [] {
        FilterKeeps(p, keep);
        assert f[|f| - 1] in f;
        assert f[|f| - 1] != s[|s| - 1];
        assert Filter(s, keep) == f;
        assert IsSubseq(f, s[..|s| - 1]);
      }
    }
  }

  /**
   * Filtering keeps exactly the elements satisfying `keep`, every copy of
   * them, in their original order.
   */
  lemma FilterSpec<T>(s: seq<T>, keep: T -> bool)
    ensures forall x :: x in Filter(s, keep) ==> keep(x)
    ensures forall x :: multiset(Filter(s, keep))[x] == if keep(x) then multiset(s)[x] else 0
    ensures IsSubseq(Filter(s, keep), s)
    ensures |Filter(s, keep)| <= |s|
  {
    FilterKeeps(s, keep);
    FilterSubseq(s, keep);
  }

  /** A sequence is its first `i` elements, the middle, and its last `j` elements. */
  lemma CutThree<T>(s: seq<T>, i: nat, j: nat)
    requires i <= |s| && j <= |s| - i
    ensures var t := s[i..]; s == s[..i] + t[..|t| - j] + t[|t| - j..]
  {
    var t := s[i..];
    assert t == t[..|t| - j] + t[|t| - j..];
    assert s == s[..i] + t;
  }

  /** An element is kept exactly when it occurs and passes the test. */
  lemma FilterMember<T>(s: seq<T>, keep: T -> bool, x: T)
    ensures x in Filter(s, keep) <==> x in s && keep(x)
  {
    FilterKeeps(s, keep);
    assert x in Filter(s, keep) <==> x in multiset(Filter(s, keep));
    assert x in s <==> x in multiset(s);
  }

  lemma {:induction false} FilterNone<T>(s: seq<T>, keep: T -> bool)
    requires forall x :: x in s ==> !keep(x)
    ensures Filter(s, keep) == []
  {
    if s != [] {
      var p := s[..|s| - 1];
      assert forall x :: x in p ==> x in s;
      FilterNone(p, keep);
    }
  }

  lemma {:induction false} FilterAll<T>(s: seq<T>, keep: T -> bool)
    requires forall k :: 0 <= k < |s| ==> keep(s[k])
    ensures Filter(s, keep) == s
  {
    if s != [] {
      var p := s[..|s| - 1];
      FilterAll(p, keep);
      assert s == p + [s[|s| - 1]];
    }
  }

  /** The conjunction of two tests. */
  function Both<T>(f: T -> bool, g: T -> bool): T -> bool {
    x => f(x) && g(x)
  }

  /** Filtering twice is filtering once by both tests. */
  lemma {:induction false} FilterTwice<T>(s: seq<T>, f: T -> bool, g: T -> bool)
    ensures Filter(Filter(s, f), g) == Filter(s, Both(f, g))
  {
    if s != [] {
      var p, x := s[..|s| - 1], s[|s| - 1];
      FilterTwice(p, f, g);
      if f(x) {
        FilterAppend(Filter(p, f), x, g);
      } else {
        assert Filter(p, f) + [] == Filter(p, f);
      }
    }
  }

  // ---------------------------------------------------------------------------
  // defaultdict(list) filled by appends
  // ---------------------------------------------------------------------------

  /** The keys of a list of (key, value) pairs. */
  function KeysOf<K, V>(ps: seq<(K, V)>): set<K> {
    set i | 0 <= i < |ps| :: ps[i].0
  }

  /** The values paired with `k`, in list order. */
  function Bucket<K(==), V>(ps: seq<(K, V)>, k: K): seq<V> {
    if ps == [] then []
    else Bucket(ps[..|ps| - 1], k) + (if ps[|ps| - 1].0 == k then [ps[|ps| - 1].1] else [])
  }

  /**
   * The dictionary `d` left by `for (k, v) in ps: d[k].append(v)` on an
   * initially empty `defaultdict(list)`.
   */
  function Buckets<K(==), V>(ps: seq<(K, V)>): map<K, seq<V>> {
    map k | k in KeysOf(ps) :: Bucket(ps, k)
  }

  lemma {:induction false} BucketAbsent<K, V>(ps: seq<(K, V)>, k: K)
    requires k !in KeysOf(ps)
    ensures Bucket(ps, k) == []
  {
    if ps != [] {
      var p := ps[..|ps| - 1];
      assert KeysOf(p) <= KeysOf(ps) by {
        forall key | key in KeysOf(p) ensures key in KeysOf(ps) {
          var i :| 0 <= i < |p| && p[i].0 == key;
          assert ps[i] == p[i];
        }
      }
      BucketAbsent(p, k);
    }
  }

  /** One `d[k].append(v)` step. */
  lemma BucketsAppend<K, V>(ps: seq<(K, V)>, k: K, v: V)
    ensures Buckets(ps + [(k, v)]) ==
            Buckets(ps)[k := (if k in Buckets(ps) then Buckets(ps)[k] else []) + [v]]
  {
    var qs := ps + [(k, v)];
    assert qs[..|ps|] == ps;
    assert KeysOf(qs) == KeysOf(ps) + {k} by {
      forall key | key in KeysOf(qs) ensures key in KeysOf(ps) + {k} {
        var i :| 0 <= i < |qs| && qs[i].0 == key;
        if i < |ps| { assert ps[i] == qs[i]; }
      }
      forall key | key in KeysOf(ps) ensures key in KeysOf(qs) {
        var i :| 0 <= i < |ps| && ps[i].0 == key;
        assert qs[i] == ps[i];
      }
      assert qs[|ps|].0 == k;
    }
    var m := Buckets(ps);
    var upd := m[k := (if k in m then m[k] else []) + [v]];
    var n := Buckets(qs);
    assert n.Keys == upd.Keys;
    forall key | key in upd
      ensures n[key] == upd[key]
    {
      assert Bucket(qs, key) == Bucket(ps, key) + (if key == k then [v] else []);
      if key == k && k !in m {
        BucketAbsent(ps, k);
      }
    }
  }

  /** A value sits in the bucket of `k` iff the pair (k, v) is in the list. */
  lemma {:induction false} BucketMember<K, V>(ps: seq<(K, V)>, k: K, v: V)
    ensures v in Bucket(ps, k) <==> (k, v) in ps
  {
    if ps != [] {
      var p := ps[..|ps| - 1];
      assert ps == p + [ps[|ps| - 1]];
      BucketMember(p, k, v);
    }
  }

  lemma KeysOfWitness<K, V>(ps: seq<(K, V)>, k: K) returns (v: V)
    requires k in KeysOf(ps)
    ensures (k, v) in ps
  {
    var i :| 0 <= i < |ps| && ps[i].0 == k;
    v := ps[i].1;
    assert ps[i] == (k, v);
  }

  lemma KeysOfIntro<K, V>(ps: seq<(K, V)>, k: K, v: V)
    requires (k, v) in ps
    ensures k in KeysOf(ps)
  {
    var i :| 0 <= i < |ps| && ps[i] == (k, v);
    assert ps[i].0 == k;
  }

  // ---------------------------------------------------------------------------
  // Python slices
  // ---------------------------------------------------------------------------

  /** How Python normalises a slice bound `i` against a length `n`. */
  function SliceBound(i: int, n: nat): (r: nat)
    ensures r <= n
  {
    if i < 0 then (if i + n < 0 then 0 else i + n)
    else if i > n then n
    else i
  }

  /** `s[a:b]` with Python's rules for negative and out-of-range bounds. */
  function PySlice<T>(s: seq<T>, a: int, b: int): seq<T> {
    var lo, hi := SliceBound(a, |s|), SliceBound(b, |s|);
    if lo < hi then s[lo..hi] else []
  }

  // ---------------------------------------------------------------------------
  // Counter(...).most_common()[0][0]
  // ---------------------------------------------------------------------------

  /**
   * The candidate occurring most often in `s`; among candidates of equal
   * count, the one listed first.
   */
  function MostCommon<T(==)>(s: seq<T>, cands: seq<T>): (r: T)
    requires |cands| > 0
    ensures r in cands
    ensures forall c :: c in cands ==> multiset(s)[c] <= multiset(s)[r]
    ensures forall i :: 0 <= i < |cands| && multiset(s)[cands[i]] == multiset(s)[r] ==>
              FirstIndex(cands, r) <= i
  {
    if |cands| == 1 then cands[0]
    else
      var p, c := cands[..|cands| - 1], cands[|cands| - 1];
      assert cands == p + [c];
      var b := MostCommon(s, p);
      if multiset(s)[c] > multiset(s)[b] then c
      else FirstIndexAppend(p, c, b); b
  }

  /**
   * The statistical mode of `s`: the value with the highest count, ties going
   * to the value met first.
   */
  function Mode<T(==)>(s: seq<T>): T
    requires |s| > 0
  {
    DedupSpec(s);
    assert s[0] in Dedup(s);
    MostCommon(s, Dedup(s))
  }

  lemma ModeSpec<T>(s: seq<T>)
    requires |s| > 0
    ensures Mode(s) in s
    ensures forall x :: x in s ==> multiset(s)[x] <= multiset(s)[Mode(s)]
    ensures forall x :: x in s && multiset(s)[x] == multiset(s)[Mode(s)] ==>
              FirstIndex(s, Mode(s)) <= FirstIndex(s, x)
  {
    DedupSpec(s);
    var d, m := Dedup(s), Mode(s);
    forall x | x in s && multiset(s)[x] == multiset(s)[m]
      ensures FirstIndex(s, m) <= FirstIndex(s, x)
    {
      var i, j := FirstIndex(d, m), FirstIndex(d, x);
      assert i <= j;
      if i < j {
        assert FirstIndex(s, d[i]) < FirstIndex(s, d[j]);
      }
    }
  }

  // ---------------------------------------------------------------------------
  // sorted(..., key=key, reverse=True)
  // ---------------------------------------------------------------------------

  predicate SortedDesc<T>(s: seq<T>, key: T -> real) {
    forall i, j :: 0 <= i < j < |s| ==> key(s[i]) >= key(s[j])
  }

  /** Puts `x` after every element whose key is at least `key(x)`. */
  function InsertDesc<T>(s: seq<T>, x: T, key: T -> real): seq<T> {
    if s == [] then [x]
    else if key(s[0]) >= key(x) then [s[0]] + InsertDesc(s[1..], x, key)
    else [x] + s
  }

  /** A stable sort by non-increasing key. */
  function SortDesc<T>(s: seq<T>, key: T -> real): seq<T> {
    if s == [] then []
    else InsertDesc(SortDesc(s[..|s| - 1], key), s[|s| - 1], key)
  }

  lemma {:induction false} InsertDescPerm<T>(s: seq<T>, x: T, key: T -> real)
    ensures multiset(InsertDesc(s, x, key)) == multiset(s) + multiset{x}
  {
    if s != [] && key(s[0]) >= key(x) {
      assert s == [s[0]] + s[1..];
      InsertDescPerm(s[1..], x, key);
    }
  }

  lemma {:induction false} InsertDescSorted<T>(s: seq<T>, x: T, key: T -> real)
    requires SortedDesc(s, key)
    ensures SortedDesc(InsertDesc(s, x, key), key)
  {
    if s != [] && key(s[0]) >= key(x) {
      var t := s[1..];
      assert s == [s[0]] + t;
      InsertDescSorted(t, x, key);
      InsertDescPerm(t, x, key);
      var r := InsertDesc(t, x, key);
      forall j | 0 <= j < |r| ensures key(s[0]) >= key(r[j]) {
        assert r[j] in multiset(r);
        if r[j] != x {
          assert r[j] in t;
        }
      }
      assert InsertDesc(s, x, key) == [s[0]] + r;
    }
  }

  /** The sorted list is a permutation of the input, in non-increasing key order. */
  lemma {:induction false} SortDescSpec<T>(s: seq<T>, key: T -> real)
    ensures multiset(SortDesc(s, key)) == multiset(s)
    ensures SortedDesc(SortDesc(s, key), key)
  {
    if s != [] {
      var p := s[..|s| - 1];
      assert s == p + [s[|s| - 1]];
      SortDescSpec(p, key);
      InsertDescPerm(SortDesc(p, key), s[|s| - 1], key);
      InsertDescSorted(SortDesc(p, key), s[|s| - 1], key);
    }
  }

  // ---------------------------------------------------------------------------
  // Sets
  // ---------------------------------------------------------------------------

  /** An element of a non-empty set. */
  lemma PickOne<T>(s: set<T>) returns (x: T)
    requires s != {}
    ensures x in s
  {
    x :| x in s;
  }

  /** A subset is no larger than its superset. */
  lemma {:induction false} SubsetCard<T>(a: set<T>, b: set<T>)
    requires a <= b
    ensures |a| <= |b|
  {
    if a != {} {
      var x :| x in a;
      SubsetCard(a - {x}, b - {x});
    }
  }
}
