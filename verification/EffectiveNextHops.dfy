/** The next hops the FIB is meant to hold, stated without links, sets or walks: a direct
    route; otherwise nothing if the name captures; otherwise the route on the face that the
    nearest ancestor offers to its children, looking no further than the first capturing one. */
module EffectiveNextHops {
  import opened Names
  import opened Options
  import opened RibModel

  type RouteMap = map<Name, seq<Route>>

  function RoutesOf(t: Table): RouteMap {
    map n | n in t :: t[n].routes
  }

  /** The child-inherit route an entry offers on a face: the first in its list. */
  function Offered(routes: seq<Route>, face: nat): (r: Option<Route>)
    ensures r.Some? <==> HasChildInherit(routes, face)
    ensures r.Some? ==> r.value in routes && r.value.faceId == face && r.value.IsChildInherit()
  {
    if routes == [] then None
    else if routes[0].faceId == face && routes[0].IsChildInherit() then Some(routes[0])
    else
      assert HasChildInherit(routes, face) ==> HasChildInherit(routes[1..], face) by {
        if HasChildInherit(routes, face) {
          var i :| 0 <= i < |routes| && routes[i].faceId == face && routes[i].IsChildInherit();
          assert routes[1..][i - 1].faceId == face;
        }
      }
      assert forall j :: 0 <= j < |routes[1..]| ==> routes[1..][j] == routes[j + 1];
      Offered(routes[1..], face)
  }

  /** The route inherited on `face` from the prefixes of `n` shorter than `k`. */
  function InheritedRoute(m: RouteMap, n: Name, k: nat, face: nat): (r: Option<Route>)
    requires k <= |n|
    ensures r.Some? ==> r.value.faceId == face && r.value.IsChildInherit()
  {
    if k == 0 then None
    else
      var p := n[..k - 1];
      if p in m && Offered(m[p], face).Some? then Offered(m[p], face)
      else if p in m && Captures(m[p]) then None
      else InheritedRoute(m, n, k - 1, face)
  }

  function Ancestor(m: RouteMap, n: Name, face: nat): Option<Route> {
    InheritedRoute(m, n, |n|, face)
  }

  /** The effective next hop: the cost on `face` at `n`, if there is one. */
  function Effective(m: RouteMap, n: Name, face: nat): Option<nat> {
    if n !in m then None
    else if LowestCost(m[n], face, false).Some? then Some(LowestCost(m[n], face, false).value.cost)
    else if Captures(m[n]) then None
    else
      var a := Ancestor(m, n, face);
      if a.Some? then Some(a.value.cost) else None
  }

  /** No entry on the way to `d`, at the prefix lengths from `k` up to but not including
      `hi`, captures or offers a route on the face. */
  ghost predicate Clear(m: RouteMap, d: Name, k: nat, hi: nat, face: nat)
    requires hi <= |d|
  {
    forall j {:trigger d[..j]} :: k <= j < hi && d[..j] in m ==>
      !Captures(m[d[..j]]) && !HasChildInherit(m[d[..j]], face)
  }

  /** A clear stretch hands the question up to its upper end. */
  lemma {:induction false} ClearSkips(m: RouteMap, d: Name, k: nat, hi: nat, face: nat)
    requires k <= hi <= |d| && Clear(m, d, k, hi, face)
    ensures InheritedRoute(m, d, hi, face) == InheritedRoute(m, d, k, face)
    decreases hi
  {
    if hi > k {
      var p := d[..hi - 1];
      assert p in m ==> !Captures(m[p]) && !HasChildInherit(m[p], face);
      ClearSkips(m, d, k, hi - 1, face);
    }
  }

  lemma ClearStep(m: RouteMap, d: Name, k: nat, hi: nat, face: nat)
    requires k < hi <= |d|
    ensures Clear(m, d, k, hi, face)
            <==> Clear(m, d, k, hi - 1, face)
                 && (d[..hi - 1] in m ==> !Captures(m[d[..hi - 1]]) && !HasChildInherit(m[d[..hi - 1]], face))
  {
  }

  /** A stretch that is not clear decides the question below its upper end. */
  lemma {:induction false} BlockedDecides(m: RouteMap, m': RouteMap, d: Name, k: nat, hi: nat, face: nat)
    requires k <= hi <= |d| && !Clear(m, d, k, hi, face)
    requires forall j {:trigger d[..j]} :: k <= j < hi ==>
               (d[..j] in m <==> d[..j] in m') && (d[..j] in m ==> m[d[..j]] == m'[d[..j]])
    ensures InheritedRoute(m, d, hi, face) == InheritedRoute(m', d, hi, face)
    decreases hi
  {
    if hi > k {
      var p := d[..hi - 1];
      if !(p in m && (Captures(m[p]) || HasChildInherit(m[p], face))) {
        ClearStep(m, d, k, hi, face);
        BlockedDecides(m, m', d, k, hi - 1, face);
      }
    }
  }

  /** What lies at the prefixes of `n` shorter than `k` decides the answer there. */
  lemma {:induction false} InheritedDependsOnPrefixes(m: RouteMap, m': RouteMap, n: Name, d: Name, k: nat, face: nat)
    requires k <= |n| && n <= d
    requires forall j {:trigger n[..j]} :: 0 <= j < k ==>
               (n[..j] in m <==> n[..j] in m') && (n[..j] in m ==> m[n[..j]] == m'[n[..j]])
    ensures InheritedRoute(m, n, k, face) == InheritedRoute(m', d, k, face)
  {
    if k > 0 {
      assert n[..k - 1] == d[..k - 1];
      InheritedDependsOnPrefixes(m, m', n, d, k - 1, face);
    }
  }

  /** What an entry hands to the names below it. */
  function HandedDown(m: RouteMap, n: Name, face: nat): Option<Route> {
    if n in m && Offered(m[n], face).Some? then Offered(m[n], face)
    else if n in m && Captures(m[n]) then None
    else Ancestor(m, n, face)
  }

  /** Below `n`: the stretch between decides, or `n` hands down. */
  lemma AncestorSplit(m: RouteMap, n: Name, d: Name, face: nat)
    requires n < d && Clear(m, d, |n| + 1, |d|, face)
    ensures Ancestor(m, d, face) == HandedDown(m, n, face)
  {
    ClearSkips(m, d, |n| + 1, |d|, face);
    assert d[..|n|] == n;
    InheritedDependsOnPrefixes(m, m, n, d, |n|, face);
  }

  /** Two route maps that differ at `n` at most. */
  ghost predicate DifferAtMost(m: RouteMap, m': RouteMap, n: Name) {
    forall d :: d != n ==> (d in m <==> d in m') && (d in m ==> m[d] == m'[d])
  }

  /** Changing the routes of `n` leaves alone what names not below `n` inherit, and what names
      behind a capturing or offering entry inherit. */
  lemma AncestorFrame(m: RouteMap, m': RouteMap, n: Name, d: Name, face: nat)
    requires DifferAtMost(m, m', n)
    requires !(n < d) || !Clear(m, d, |n| + 1, |d|, face)
    ensures Ancestor(m, d, face) == Ancestor(m', d, face)
  {
    if n < d {
      forall j {:trigger d[..j]} | |n| + 1 <= j < |d|
        ensures (d[..j] in m <==> d[..j] in m') && (d[..j] in m ==> m[d[..j]] == m'[d[..j]])
      {
        assert d[..j] != n;
      }
      BlockedDecides(m, m', d, |n| + 1, |d|, face);
    } else {
      forall j {:trigger d[..j]} | 0 <= j < |d|
        ensures (d[..j] in m <==> d[..j] in m') && (d[..j] in m ==> m[d[..j]] == m'[d[..j]])
      {
        assert d[..j] < d;
      }
      InheritedDependsOnPrefixes(m, m', d, d, |d|, face);
    }
  }

  /** Clearness between `n` and `d` does not depend on `n`. */
  lemma ClearFrame(m: RouteMap, m': RouteMap, n: Name, d: Name, hi: nat, face: nat)
    requires DifferAtMost(m, m', n) && hi <= |d|
    ensures Clear(m, d, |n| + 1, hi, face) == Clear(m', d, |n| + 1, hi, face)
  {
    forall j {:trigger d[..j]} | |n| + 1 <= j < hi
      ensures (d[..j] in m <==> d[..j] in m') && (d[..j] in m ==> m[d[..j]] == m'[d[..j]])
    {
      assert d[..j] != n;
    }
  }
}
