/** Each RIB command, name by name and face by face: when the delta reaches the new effective
    next hops, and exactly when it does not. */
module FibSteps {
  import opened Names
  import opened Options
  import opened RibModel
  import opened EffectiveNextHops
  import opened FibDelta
  import opened FibCompute
  import opened FibRefinement

  function CostOf(r: Option<Route>): Option<nat> {
    if r.Some? then Some(r.value.cost) else None
  }

  /** The add and remove sets given to the children of `n` say on this face how what `n` hands
      down changes: added if it is there afterwards, removed if it is not, silent if it stays. */
  ghost predicate SetsFollow(m: RouteMap, m': RouteMap, n: Name, face: nat, add: RouteSet, rem: RouteSet) {
    var a, b := Lookup(add, face), Lookup(rem, face);
    var h, h' := HandedDown(m, n, face), HandedDown(m', n, face);
    if a.Some? then CostOf(h') == CostOf(a)
    else if b.Some? then h' == None
    else CostOf(h') == CostOf(h)
  }

  /** An entry below `n` that takes what `n` hands down on the face. */
  ghost predicate Takes(t: Table, n: Name, d: Name, face: nat) {
    d in t && n < d && Open(t, |n| + 1, d, face) && !HasFace(t[d].routes, face)
  }

  lemma OneRoute(routes: seq<Route>, face: nat)
    requires |routes| == 1
    ensures HasFace(routes, face) <==> routes[0].faceId == face
    ensures HasChildInherit(routes, face) <==> routes[0].faceId == face && routes[0].IsChildInherit()
    ensures Captures(routes) <==> routes[0].IsCapture()
    ensures Offered(routes, face) == if routes[0].faceId == face && routes[0].IsChildInherit() then Some(routes[0])
                else None
    ensures LowestCost(routes, face, false) == if routes[0].faceId == face then Some(routes[0]) else None
    ensures LowestCost(routes, face, true)
            == if routes[0].faceId == face && routes[0].IsChildInherit() then Some(routes[0]) else None
    ensures OnFace(routes, face) == if routes[0].faceId == face then [routes[0]] else []
    ensures SecondLowestCost(routes, face) == None
  {
    assert routes[..0] == [] && routes[1..] == [];
    assert OnFace([], face) == [];
    assert SortByCost([]) == [];
    assert InsertByCost([], routes[0]) == [routes[0]];
    assert SortByCost(routes) == [routes[0]];
  }

  /** An entry that takes from `n` has as effective next hop what `n` hands down. */
  lemma TakerEffective(t: Table, m: RouteMap, m': RouteMap, n: Name, d: Name, face: nat)
    requires Shape(t) && CountsOk(t) && m == RoutesOf(t) && Single(t) && Takes(t, n, d, face)
    requires DifferAtMost(m, m', n)
    ensures Effective(m, d, face) == CostOf(HandedDown(m, n, face))
    ensures Effective(m', d, face) == CostOf(HandedDown(m', n, face))
  {
    OneRoute(t[d].routes, face);
    assert d[..|d|] == d;
    assert Clear(m, d, |n| + 1, |d|, face);
    ClearFrame(m, m', n, d, |d|, face);
    AncestorSplit(m, n, d, face);
    AncestorSplit(m', n, d, face);
  }

  /** Other entries below `n` keep their effective next hop, whatever changes at `n`. */
  lemma OthersKeep(t: Table, m: RouteMap, m': RouteMap, n: Name, d: Name, face: nat)
    requires Shape(t) && CountsOk(t) && m == RoutesOf(t) && Single(t)
    requires d in t && d != n && !Takes(t, n, d, face) && DifferAtMost(m, m', n)
    ensures Effective(m, d, face) == Effective(m', d, face)
  {
    OneRoute(t[d].routes, face);
    if !HasFace(t[d].routes, face) && !Captures(t[d].routes) {
      assert d[..|d|] == d;
      assert n < d && Clear(m, d, |n| + 1, |d|, face) ==> Open(t, |n| + 1, d, face);
      AncestorFrame(m, m', n, d, face);
    }
  }

  /** An entry that does not take from `n` is not logged at all. */
  lemma NonTakerSilent(t: Table, n: Name, add: RouteSet, rem: RouteSet, d: Name, face: nat)
    requires RecordsOk(t) && !Takes(t, n, d, face) && n < d
    ensures ReachedAt(t, |n| + 1, d, face, add, rem) == []
  {
    if d in t {
      assert t[d].HasInherited(face) ==> !HasFace(t[d].routes, face);
    }
  }

  /** The heart of the refinement: below `n`, whatever the walk logs is right, provided its
      sets follow what `n` hands down. */
  lemma PointBelow(t: Table, t1: Table, log: seq<Event>, n: Name, add: RouteSet, rem: RouteSet, d: Name, face: nat)
    requires Shape(t) && CountsOk(t) && Single(t) && RecordsOk(t)
    requires n < d && DifferAtMost(RoutesOf(t), RoutesOf(t1), n)
    requires d in t ==> d in t1 && t1[d].inherited == t[d].inherited
    requires EventsAt(log, d, face) == ReachedAt(t, |n| + 1, d, face, add, rem)
    requires Takes(t, n, d, face) ==> SetsFollow(RoutesOf(t), RoutesOf(t1), n, face, add, rem)
    ensures PointGood(t, t1, log, d, face)
  {
    if Takes(t, n, d, face) {
      PointTaker(t, t1, log, n, add, rem, d, face);
    } else {
      NonTakerSilent(t, n, add, rem, d, face);
      PointSilent(t, t1, log, n, d, face);
    }
  }

  lemma PointTaker(t: Table, t1: Table, log: seq<Event>, n: Name, add: RouteSet, rem: RouteSet, d: Name, face: nat)
    requires Shape(t) && CountsOk(t) && Single(t) && RecordsOk(t)
    requires DifferAtMost(RoutesOf(t), RoutesOf(t1), n)
    requires Takes(t, n, d, face) && d in t1 && t1[d].inherited == t[d].inherited
    requires EventsAt(log, d, face) == ReachedAt(t, |n| + 1, d, face, add, rem)
    requires SetsFollow(RoutesOf(t), RoutesOf(t1), n, face, add, rem)
    ensures PointGood(t, t1, log, d, face)
  {
    var m, m' := RoutesOf(t), RoutesOf(t1);
    assert m[d] == m'[d];
    assert Inherits(m, d, face) ==> t[d].HasInherited(face);
    TakerEffective(t, m, m', n, d, face);
    var evs := PassAt(t[d], d, face, rem, false) + PassAt(t[d], d, face, add, true);
    assert EventsAt(log, d, face) == evs;
    RecordedAll(evs);
    FitsShort(t1[d].HasInherited(face), evs);
  }

  lemma {:induction false} RecordedAll(evs: seq<Event>)
    requires forall i :: 0 <= i < |evs| ==> evs[i].recorded
    ensures Recorded(evs) == evs
  {
    if evs != [] {
      RecordedAll(evs[1..]);
    }
  }

  /** Where nothing is logged and the entry takes nothing from `n`, nothing changes. */
  lemma PointSilent(t: Table, t1: Table, log: seq<Event>, n: Name, d: Name, face: nat)
    requires Shape(t) && CountsOk(t) && Single(t) && RecordsOk(t)
    requires d != n && !Takes(t, n, d, face) && DifferAtMost(RoutesOf(t), RoutesOf(t1), n)
    requires d in t ==> d in t1 && t1[d].inherited == t[d].inherited
    requires EventsAt(log, d, face) == []
    ensures PointGood(t, t1, log, d, face)
  {
    var m, m' := RoutesOf(t), RoutesOf(t1);
    assert d in m <==> d in m';
    if d in t {
      assert m[d] == m'[d];
      assert Inherits(m, d, face) ==> t[d].HasInherited(face);
      assert t[d].HasInherited(face) ==> !HasFace(t[d].routes, face);
      OthersKeep(t, m, m', n, d, face);
    }
  }

  /** What one walk records at an entry passes the assertions. */
  lemma ReachedPattern(t: Table, t1: Table, k: nat, d: Name, face: nat, add: RouteSet, rem: RouteSet)
    requires d in t ==> d in t1 && t1[d].inherited == t[d].inherited
    ensures Pattern(t1, d, face, Recorded(ReachedAt(t, k, d, face, add, rem)))
  {
    var evs := ReachedAt(t, k, d, face, add, rem);
    RecordedAll(evs);
    FitsShort(d in t && t[d].HasInherited(face), evs);
  }
}
