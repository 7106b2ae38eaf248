/**
 * The positions a line-by-line filter keeps. Both the awk program and the
 * sites builder walk their input in order and act on some of the entries;
 * `Positions` names which ones, in the order they are met.
 */
module Filtering {
  import opened Wrappers

  /** The positions of `xs` whose entry satisfies `p`, in the order of `xs`. */
  function Positions<T>(xs: seq<T>, p: T -> bool): seq<nat> {
    if xs == [] then []
    else
      var n := |xs| - 1;
      Positions(xs[..n], p) + (if p(xs[n]) then [n] else [])
  }

  /** The positions are in range and strictly increasing. */
  lemma {:induction false} PositionsAscending<T>(xs: seq<T>, p: T -> bool)
    ensures forall k :: 0 <= k < |Positions(xs, p)| ==> Positions(xs, p)[k] < |xs|
    ensures forall k, l :: 0 <= k < l < |Positions(xs, p)| ==> Positions(xs, p)[k] < Positions(xs, p)[l]
  {
    if xs != [] {
      var n := |xs| - 1;
      PositionsAscending(xs[..n], p);
      var ks0 := Positions(xs[..n], p);
      var ks := Positions(xs, p);
      assert |xs[..n]| == n;
      assert forall k :: 0 <= k < |ks0| ==> ks0[k] < n;
      assert forall k :: 0 <= k < |ks0| ==> ks[k] == ks0[k];
    }
  }

  /** A position is listed exactly when its entry satisfies `p`. */
  lemma {:induction false} PositionsExactly<T>(xs: seq<T>, p: T -> bool)
    ensures forall i :: 0 <= i < |xs| ==> (p(xs[i]) <==> i in Positions(xs, p))
  {
    if xs != [] {
      var n := |xs| - 1;
      var init := xs[..n];
      PositionsExactly(init, p);
      PositionsAscending(init, p);
      assert forall i :: 0 <= i < n ==> init[i] == xs[i];
      assert n !in Positions(init, p);
    }
  }

  /** The first position of `xs` whose entry satisfies `p`, if there is one. */
  function First<T>(xs: seq<T>, p: T -> bool): (r: Option<nat>)
    ensures r.None? <==> forall j :: 0 <= j < |xs| ==> !p(xs[j])
    ensures r.Some? ==> r.value < |xs| && p(xs[r.value])
    ensures r.Some? ==> forall j :: 0 <= j < r.value ==> !p(xs[j])
  {
    if xs == [] then None
    else
      var n := |xs| - 1;
      var init := xs[..n];
      var r0 := First(init, p);
      assert forall j :: 0 <= j < n ==> init[j] == xs[j];
      if r0.Some? then r0
      else if p(xs[n]) then Some(n) else None
  }

  /** What `f` gives for each entry `keep` accepts, in the order of `xs`. */
  function MapKept<T, U>(xs: seq<T>, keep: T -> bool, f: T --> U): seq<U>
    requires forall i :: 0 <= i < |xs| && keep(xs[i]) ==> f.requires(xs[i])
  {
    if xs == [] then []
    else
      var n := |xs| - 1;
      assert forall i :: 0 <= i < n ==> xs[..n][i] == xs[i];
      MapKept(xs[..n], keep, f) + (if keep(xs[n]) then [f(xs[n])] else [])
  }

  /** The k-th result belongs to the k-th accepted entry. */
  lemma {:induction false} MapKeptAt<T, U>(xs: seq<T>, keep: T -> bool, f: T --> U)
    requires forall i :: 0 <= i < |xs| && keep(xs[i]) ==> f.requires(xs[i])
    ensures |MapKept(xs, keep, f)| == |Positions(xs, keep)|
    ensures forall k :: 0 <= k < |Positions(xs, keep)| ==>
      && Positions(xs, keep)[k] < |xs|
      && keep(xs[Positions(xs, keep)[k]])
      && MapKept(xs, keep, f)[k] == f(xs[Positions(xs, keep)[k]])
  {
    if xs != [] {
      var n := |xs| - 1;
      var init := xs[..n];
      assert forall i :: 0 <= i < n ==> init[i] == xs[i];
      MapKeptAt(init, keep, f);
      var ks0 := Positions(init, keep);
      var ms0 := MapKept(init, keep, f);
      var ks := Positions(xs, keep);
      var ms := MapKept(xs, keep, f);
      forall k | 0 <= k < |ks|
        ensures ks[k] < |xs| && keep(xs[ks[k]]) && ms[k] == f(xs[ks[k]])
      {
        if k < |ks0| {
          assert ks[k] == ks0[k] && ms[k] == ms0[k];
          assert init[ks0[k]] == xs[ks0[k]];
        }
      }
    }
  }

  /** Extending the prefix by one entry extends the results by that entry's, if kept. */
  lemma MapKeptSnoc<T, U>(xs: seq<T>, i: nat, keep: T -> bool, f: T --> U)
    requires i < |xs|
    requires forall j :: 0 <= j <= i && keep(xs[j]) ==> f.requires(xs[j])
    ensures MapKept(xs[..i + 1], keep, f) ==
      MapKept(xs[..i], keep, f) + (if keep(xs[i]) then [f(xs[i])] else [])
  {
    assert forall j :: 0 <= j <= i ==> xs[..i + 1][j] == xs[j];
    assert xs[..i + 1][..i] == xs[..i];
  }

  /** The first accepted position is the one all earlier entries fail to reach. */
  lemma FirstAt<T>(xs: seq<T>, p: T -> bool, i: nat)
    requires i < |xs| && p(xs[i])
    requires forall j :: 0 <= j < i ==> !p(xs[j])
    ensures First(xs, p) == Some(i)
  {
  }

  /** When every entry is kept, every entry's result is there, in order. */
  lemma {:induction false} MapKeptAll<T, U>(xs: seq<T>, keep: T -> bool, f: T --> U)
    requires forall i :: 0 <= i < |xs| ==> keep(xs[i]) && f.requires(xs[i])
    ensures |MapKept(xs, keep, f)| == |xs|
    ensures forall i :: 0 <= i < |xs| ==> MapKept(xs, keep, f)[i] == f(xs[i])
  {
    if xs != [] {
      var n := |xs| - 1;
      assert forall i :: 0 <= i < n ==> xs[..n][i] == xs[i];
      MapKeptAll(xs[..n], keep, f);
    }
  }
}
