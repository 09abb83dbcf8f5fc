/**
 * Outcomes of the operations of the isnad analysis: a value, or the Python
 * exception the original code raises instead.
 */
module Outcomes {

  /** The exceptions the modelled code can raise. */
  datatype Error =
    | EmptyChain        // `assert len(edges_list) != 0` in Isnad.__init__
    | EmptyCorpus       // `assert len(self.isnads_list) != 0` in get_nodes_sids_dict
    | MismatchedSource  // `assert self.db_url == other.db_url` in __sub__
    | KeyError          // a dictionary lookup of an absent key
    | IndexError        // a list index out of range
    | ValueError        // `int(...)` of a text that is not an integer
    | UnpackError       // `data, _ = line.split('#')` with more than two parts
    | ZeroDivision      // a ratio whose denominator is zero

  datatype Option<+T> = None | Some(value: T)

  datatype Result<+T> = Success(value: T) | Failure(error: Error)

  /**
   * A loop that handles its inputs one by one, each adding nothing, adding a
   * value, or raising: the values in order, or the first error raised.
   */
  function Collect<T>(rs: seq<Result<Option<T>>>): Result<seq<T>> {
    if rs == [] then Success([])
    else
      var prev := Collect(rs[..|rs| - 1]);
      var last := rs[|rs| - 1];
      if prev.Failure? then prev
      else if last.Failure? then Failure(last.error)
      else Success(prev.value + (if last.value.Some? then [last.value.value] else []))
  }

  /** One more input handled without error. */
  lemma CollectStep<T>(rs: seq<Result<Option<T>>>, i: nat)
    requires i < |rs| && Collect(rs[..i]).Success? && rs[i].Success?
    ensures Collect(rs[..i + 1]) ==
            Success(Collect(rs[..i]).value + (if rs[i].value.Some? then [rs[i].value.value] else []))
  {
    assert rs[..i + 1][..i] == rs[..i];
  }

  /** The first input that raises ends the loop with its error. */
  lemma {:induction false} CollectStops<T>(rs: seq<Result<Option<T>>>, i: nat)
    requires i < |rs| && Collect(rs[..i]).Success? && rs[i].Failure?
    ensures Collect(rs) == Failure(rs[i].error)
    decreases |rs|
  {
    assert rs[..i + 1][..i] == rs[..i];
    if i + 1 < |rs| {
      var p := rs[..|rs| - 1];
      assert p[..i] == rs[..i] && p[i] == rs[i];
      CollectStops(p, i);
    } else {
      assert rs[..i + 1] == rs;
    }
  }

  /** The loop completes exactly when no input raises, with at most one value per input. */
  lemma {:induction false} CollectSuccess<T>(rs: seq<Result<Option<T>>>)
    ensures Collect(rs).Success? <==> forall i :: 0 <= i < |rs| ==> rs[i].Success?
    ensures Collect(rs).Success? ==> |Collect(rs).value| <= |rs|
  {
    if rs != [] {
      var p := rs[..|rs| - 1];
      CollectSuccess(p);
      assert forall i :: 0 <= i < |p| ==> p[i] == rs[i];
    }
  }

  /** A failed loop raises the error of its first raising input. */
  lemma {:induction false} CollectFailure<T>(rs: seq<Result<Option<T>>>)
    requires Collect(rs).Failure?
    ensures exists i :: 0 <= i < |rs| && rs[i] == Failure(Collect(rs).error) &&
              forall j :: 0 <= j < i ==> rs[j].Success?
  {
    var p := rs[..|rs| - 1];
    CollectSuccess(p);
    if Collect(p).Failure? {
      CollectFailure(p);
      var i :| 0 <= i < |p| && p[i] == Failure(Collect(p).error) && forall j :: 0 <= j < i ==> p[j].Success?;
      assert rs[i] == p[i];
      assert forall j :: 0 <= j < i ==> rs[j] == p[j];
    } else {
      assert forall j :: 0 <= j < |p| ==> rs[j] == p[j];
    }
  }

  /** Every value collected is the value of one of the inputs. */
  lemma {:induction false} CollectMembers<T>(rs: seq<Result<Option<T>>>)
    requires Collect(rs).Success?
    ensures forall x :: x in Collect(rs).value ==> exists i :: 0 <= i < |rs| && rs[i] == Success(Some(x))
  {
    if rs != [] {
      var p := rs[..|rs| - 1];
      CollectMembers(p);
      forall x | x in Collect(rs).value ensures exists i :: 0 <= i < |rs| && rs[i] == Success(Some(x)) {
        if x in Collect(p).value {
          var i :| 0 <= i < |p| && p[i] == Success(Some(x));
          assert rs[i] == p[i];
        } else {
          assert rs[|rs| - 1] == Success(Some(x));
        }
      }
    }
  }

  /** Every value an input adds is in the result of a completed loop. */
  lemma {:induction false} CollectKeeps<T>(rs: seq<Result<Option<T>>>, i: nat)
    requires Collect(rs).Success? && i < |rs| && rs[i].Success? && rs[i].value.Some?
    ensures rs[i].value.value in Collect(rs).value
  {
    var p := rs[..|rs| - 1];
    if i < |p| {
      assert p[i] == rs[i];
      CollectKeeps(p, i);
    }
  }

  /** When every input adds a value, the loop completes with exactly those values. */
  lemma {:induction false} CollectAll<T>(rs: seq<Result<Option<T>>>)
    requires forall i :: 0 <= i < |rs| ==> rs[i].Success? && rs[i].value.Some?
    ensures Collect(rs).Success? && |Collect(rs).value| == |rs|
    ensures forall i :: 0 <= i < |rs| ==> Collect(rs).value[i] == rs[i].value.value
  {
    if rs != [] {
      var p := rs[..|rs| - 1];
      assert forall i :: 0 <= i < |p| ==> p[i] == rs[i];
      CollectAll(p);
    }
  }

  /** An input that raises after inputs that all succeeded ends the loop with its error. */
  lemma CollectStopsAfter<T>(rs: seq<Result<Option<T>>>, hs: seq<Option<T>>, i: nat)
    requires i < |rs| && |hs| == i && rs[i].Failure?
    requires forall j :: 0 <= j < i ==> rs[j] == Success(hs[j])
    ensures Collect(rs) == Failure(rs[i].error)
  {
    var p := rs[..i];
    assert forall j :: 0 <= j < |p| ==> p[j] == rs[j];
    CollectSuccess(p);
    CollectStops(rs, i);
  }

  /** `[h for h in hs if h is not None]`, where every input of the loop was handled without error. */
  method DropNones<T>(ghost rs: seq<Result<Option<T>>>, hs: seq<Option<T>>) returns (kept: seq<T>)
    requires |rs| == |hs| && forall j :: 0 <= j < |hs| ==> rs[j] == Success(hs[j])
    ensures Collect(rs) == Success(kept)
  {
    kept := [];
    var j := 0;
    while j < |hs|
      invariant 0 <= j <= |hs|
      invariant Collect(rs[..j]) == Success(kept)
    {
      assert rs[j] == Success(hs[j]);
      CollectStep(rs, j);
      ghost var k0 := kept;
      assert Collect(rs[..j + 1]) == Success(k0 + (if hs[j].Some? then [hs[j].value] else []));
      if hs[j].Some? {
        kept := kept + [hs[j].value];
      }
      assert kept == k0 + (if hs[j].Some? then [hs[j].value] else []);
      j := j + 1;
    }
    assert rs[..j] == rs;
  }

  /**
   * `list(map(f, xs))` with an `f` that may raise (None): every result in
   * order, or None as soon as one input raises.
   */
  function MapAll<A, B>(xs: seq<A>, f: A -> Option<B>): Option<seq<B>> {
    if xs == [] then Some([])
    else
      var p := MapAll(xs[..|xs| - 1], f);
      var y := f(xs[|xs| - 1]);
      if p.None? || y.None? then None else Some(p.value + [y.value])
  }

  /** Inputs that each map to the matching output map to the whole list. */
  lemma {:induction false} MapAllOf<A, B>(xs: seq<A>, ys: seq<B>, f: A -> Option<B>)
    requires |xs| == |ys| && forall k :: 0 <= k < |xs| ==> f(xs[k]) == Some(ys[k])
    ensures MapAll(xs, f) == Some(ys)
  {
    if xs != [] {
      var n := |xs| - 1;
      MapAllOf(xs[..n], ys[..n], f);
      assert ys == ys[..n] + [ys[n]];
    }
  }

  /** The map raises exactly when one of its inputs does; otherwise it keeps the length. */
  lemma {:induction false} MapAllSpec<A, B>(xs: seq<A>, f: A -> Option<B>)
    ensures MapAll(xs, f).None? <==> exists k :: 0 <= k < |xs| && f(xs[k]).None?
    ensures MapAll(xs, f).Some? ==>
              |MapAll(xs, f).value| == |xs| &&
              forall k :: 0 <= k < |xs| ==> f(xs[k]) == Some(MapAll(xs, f).value[k])
  {
    if xs != [] {
      var n := |xs| - 1;
      var p := xs[..n];
      MapAllSpec(p, f);
      assert forall k :: 0 <= k < n ==> xs[k] == p[k];
    }
  }
}
