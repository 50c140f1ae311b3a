/** A second route on a name, of another face or origin: it takes the table out of the domain of
    one route per name, and the FIB comes out right exactly when no entry below is misled. What a
    name with several routes on a face offers to its children has two readings: the first in its
    list, as in the updater's own search of the ancestors, or the cheapest, as where it adds a
    route. The result covers both. */
module FibSecondRoute {
  import opened Names
  import opened Options
  import opened RibModel
  import opened EffectiveNextHops
  import opened FibDelta
  import opened FibCompute
  import opened FibRefinement
  import opened FibSteps
  import opened FibCommands

  ghost predicate Second(t: Table, n: Name, r: Route) {
    && Shape(t) && CountsOk(t) && Single(t) && RecordsOk(t) && n in t && !Matches(t[n].routes[0], r)
  }

  predicate SwitchesOn(first: Route, r: Route) {
    r.IsCapture() && !first.IsCapture()
  }

  /** The second route undercuts the first on the same face, or equals it. */
  predicate Undercuts(first: Route, r: Route) {
    r.faceId == first.faceId && r.cost <= first.cost
  }

  /** The first route is still offered below, but the entries that take it are told otherwise: the
      ancestors' routes are removed there, or a cheaper route on the same face replaces it although
      the first in the list is what counts. */
  predicate SecondMisleadsBy(first: Route, r: Route, a: Option<Route>, byCost: bool) {
    first.IsChildInherit()
    && if r.IsChildInherit() && Undercuts(first, r) then !byCost && r.cost != first.cost
       else SwitchesOn(first, r) && a.Some?
  }

  ghost predicate SecondMisleads(t: Table, n: Name, r: Route, byCost: bool)
    requires n in t && t[n].routes != []
  {
    SecondMisleadsBy(t[n].routes[0], r, Ancestor(RoutesOf(t), n, t[n].routes[0].faceId), byCost)
  }

  // ----- the two readings -----

  /** The routes in the order in which they are offered: the list's, or by cost. */
  function Reading(m: RouteMap, byCost: bool): RouteMap {
    if byCost then map n | n in m :: SortByCost(m[n]) else m
  }

  /** The FIB is the effective next-hop function under this reading. */
  ghost predicate FibReads(s: State, byCost: bool) {
    forall n, f {:trigger FibAt(s.fib, n, f)} :: f !in s.dead ==>
      FibAt(s.fib, n, f) == Effective(Reading(RoutesOf(s.table), byCost), n, f)
  }

  ghost predicate Ascending(routes: seq<Route>) {
    forall i, j :: 0 <= i < j < |routes| ==> routes[i].cost <= routes[j].cost
  }

  predicate Offers(r: Route, face: nat) {
    r.faceId == face && r.IsChildInherit()
  }

  lemma {:induction false} InsertOrdered(sorted: seq<Route>, r: Route)
    requires Ascending(sorted)
    ensures var s := InsertByCost(sorted, r); Ascending(s) && forall q :: q in s <==> q in sorted || q == r
  {
    if sorted != [] && sorted[0].cost <= r.cost {
      InsertOrdered(sorted[1..], r);
      assert forall q :: q in sorted <==> q == sorted[0] || q in sorted[1..];
      var rest := InsertByCost(sorted[1..], r);
      assert forall j :: 0 <= j < |rest| ==> rest[j] in rest;
    }
  }

  lemma {:induction false} InsertOffers(sorted: seq<Route>, r: Route, face: nat)
    requires Ascending(sorted)
    ensures var o := Offered(sorted, face);
            Offered(InsertByCost(sorted, r), face)
            == if Offers(r, face) && (o.None? || r.cost < o.value.cost) then Some(r) else o
  {
    if sorted == [] || r.cost < sorted[0].cost {
      assert ([r] + sorted)[1..] == sorted;
    } else {
      InsertOffers(sorted[1..], r, face);
      assert InsertByCost(sorted, r)[1..] == InsertByCost(sorted[1..], r);
    }
  }

  /** Sorted by cost, a list offers the cheapest child-inherit route on the face, and keeps its
      routes. */
  lemma {:induction false} CheapestOffered(routes: seq<Route>, face: nat)
    ensures Offered(SortByCost(routes), face) == LowestCost(routes, face, true)
    ensures Ascending(SortByCost(routes)) && forall r :: r in SortByCost(routes) <==> r in routes
  {
    if routes != [] {
      var front, last := routes[..|routes| - 1], routes[|routes| - 1];
      CheapestOffered(front, face);
      InsertOrdered(SortByCost(front), last);
      InsertOffers(SortByCost(front), last, face);
      assert routes == front + [last];
    }
  }

  /** The second reading differs from the first only in what is offered below. */
  lemma ReadingKeeps(routes: seq<Route>, face: nat)
    ensures CostOf(LowestCost(SortByCost(routes), face, false)) == CostOf(LowestCost(routes, face, false))
    ensures Captures(SortByCost(routes)) <==> Captures(routes)
  {
    CheapestOffered(routes, face);
    SameMembers(SortByCost(routes), routes, face);
    SameMembers(routes, SortByCost(routes), face);
  }

  lemma SameMembers(a: seq<Route>, b: seq<Route>, face: nat)
    requires forall r :: r in a <==> r in b
    ensures CostOf(LowestCost(a, face, false)) == CostOf(LowestCost(b, face, false))
    ensures Captures(a) ==> Captures(b)
  {
    var c, d := LowestCost(a, face, false), LowestCost(b, face, false);
    assert c.Some? ==> c.value in b;
    assert d.Some? ==> d.value in a;
    if Captures(a) {
      var i :| 0 <= i < |a| && a[i].IsCapture();
      assert a[i] in a && a[i] in b;
      var j :| 0 <= j < |b| && b[j] == a[i];
    }
  }

  // ----- what is logged -----

  function SecondAdd(first: Route, r: Route): (s: RouteSet)
    ensures ByFace(s)
  {
    if r.IsChildInherit() && (r.faceId != first.faceId || !first.IsChildInherit() || r.cost <= first.cost) then [r]
        else []
  }

  function SecondRemove(t: Table, n: Name, first: Route, r: Route): (s: RouteSet)
    requires Shape(t)
    ensures ByFace(s)
  {
    if SwitchesOn(first, r) then AncestorRoutes(t, FindParent(t.Keys, n)) else []
  }

  function SelfBy(first: Route, r: Route, a: Option<Route>, has: bool, n: Name, face: nat): seq<Event> {
    (if SwitchesOn(first, r) && has && a.Some? then [Event(n, a.value, false, true)] else [])
    + (if face == r.faceId && (r.faceId != first.faceId || Undercuts(first, r)) then [Event(n, r, true, false)] else [])
  }

  ghost function SecondSelf(t: Table, n: Name, r: Route, face: nat): seq<Event>
    requires n in t && t[n].routes != []
  {
    SelfBy(t[n].routes[0], r, Ancestor(RoutesOf(t), n, face), t[n].HasInherited(face), n, face)
  }

  lemma SecondParts(t: Table, n: Name, r: Route)
    requires Second(t, n, r)
    ensures (forall c :: c in t[n].children ==> c in t && n < c) && Frontier(t, n, t[n].children)
    ensures var first := t[n].routes[0];
            NewRouteLog(t, n, t[n], r, SwitchesOn(first, r))
            == RemoveInheritedLog(n, t[n], SecondRemove(t, n, first, r))
               + ChildrenLog(t, n, t[n].children, SecondAdd(first, r), SecondRemove(t, n, first, r))
               + (if r.faceId != first.faceId || Undercuts(first, r) then [Event(n, r, true, false)] else [])
  {
    OneRoute(t[n].routes, r.faceId);
    LinksInside(t, n);
    FrontierOfEntry(t, n);
    ParentOf(t, n);
  }

  lemma ThreeParts(a: seq<Event>, b: seq<Event>, c: seq<Event>, d: Name, face: nat)
    ensures EventsAt(a + b + c, d, face) == EventsAt(a, d, face) + EventsAt(b, d, face) + EventsAt(c, d, face)
  {
    EventsAtConcat(a + b, c, d, face);
    EventsAtConcat(a, b, d, face);
  }

  lemma Squeeze(a: seq<Event>, b: seq<Event>, c: seq<Event>)
    ensures b == [] ==> a + b + c == a + c
    ensures a == c == [] ==> a + b + c == b
  {
  }

  lemma AtMostOneAt(evs: seq<Event>, d: Name, face: nat)
    requires |evs| <= 1
    ensures EventsAt(evs, d, face)
            == if evs != [] && evs[0].name == d && evs[0].route.faceId == face then evs else []
  {
    if evs != [] {
      assert evs[1..] == [];
    }
  }

  /** Everything the second route logs, at every name and face. */
  lemma SecondAt(t: Table, n: Name, r: Route, d: Name, face: nat)
    requires Second(t, n, r)
    ensures var first := t[n].routes[0];
            EventsAt(NewRouteLog(t, n, t[n], r, SwitchesOn(first, r)), d, face)
            == if d == n then SecondSelf(t, n, r, face)
               else if n < d then ReachedAt(t, |n| + 1, d, face, SecondAdd(first, r), SecondRemove(t, n, first, r))
               else []
  {
    var first := t[n].routes[0];
    var rem := SecondRemove(t, n, first, r);
    SecondParts(t, n, r);
    var own := if r.faceId != first.faceId || Undercuts(first, r) then [Event(n, r, true, false)] else [];
    ThreeParts(RemoveInheritedLog(n, t[n], rem), ChildrenLog(t, n, t[n].children, SecondAdd(first, r), rem), own,
               d, face);
    RemoveInheritedAt(n, t[n], rem, d, face);
    ChildrenAt(t, n, t[n].children, SecondAdd(first, r), rem, d, face);
    AtMostOneAt(own, d, face);
    AncestorRoutesExact(t, n, face);
    Squeeze(EventsAt(RemoveInheritedLog(n, t[n], rem), d, face),
            EventsAt(ChildrenLog(t, n, t[n].children, SecondAdd(first, r), rem), d, face), EventsAt(own, d, face));
  }

  // ----- the two routes -----

  /** The two routes in the order in which they are offered. */
  function Pair(first: Route, r: Route, byCost: bool): seq<Route> {
    if byCost && r.cost < first.cost then [r, first] else [first, r]
  }

  lemma PairSorted(first: Route, r: Route)
    ensures SortByCost([first, r]) == Pair(first, r, true) && SortByCost([first]) == [first]
  {
    assert [first, r][..1] == [first] && [first][..0] == [];
    assert InsertByCost([], first) == [first];
    assert [first][1..] == [] && InsertByCost([], r) == [r];
    assert SortByCost([first]) == [first];
    assert SortByCost([first, r]) == InsertByCost([first], r);
  }

  lemma TwoRoutes(first: Route, r: Route, face: nat)
    ensures CostOf(LowestCost([first, r], face, false)) == DirectCost(first, r, face)
    ensures Offered([first, r], face) == if Offers(first, face) then Some(first)
                                         else if Offers(r, face) then Some(r) else None
    ensures Captures([first, r]) <==> first.IsCapture() || r.IsCapture()
    ensures HasFace([first, r], face) <==> first.faceId == face || r.faceId == face
  {
    var both := [first, r];
    assert both[..1] == [first] && both[1..] == [r];
    OneRoute([first], face);
    OneRoute([r], face);
    assert both[0] == first && both[1] == r;
  }

  function DirectCost(first: Route, r: Route, face: nat): Option<nat> {
    if first.faceId == face && !(r.faceId == face && r.cost < first.cost) then Some(first.cost)
    else if r.faceId == face then Some(r.cost) else None
  }

  /** What the two routes hand down on a face below ancestors that offer `a`. */
  function HandedByTwo(first: Route, r: Route, a: Option<Route>, face: nat, byCost: bool): Option<Route> {
    if byCost && Offers(r, face) && r.cost < first.cost then Some(r)
    else if Offers(first, face) then Some(first)
    else if Offers(r, face) then Some(r)
    else if first.IsCapture() || r.IsCapture() then None else a
  }

  function HandedByOne(first: Route, a: Option<Route>, face: nat): Option<Route> {
    if Offers(first, face) then Some(first) else if first.IsCapture() then None else a
  }

  ghost predicate SecondTable(t: Table, t1: Table, n: Name, r: Route)
    requires n in t && t[n].routes != []
  {
    && t1 == t[n := WithRoute(t[n], r)] && t1[n].routes == [t[n].routes[0], r]
    && DifferAtMost(RoutesOf(t), RoutesOf(t1), n)
  }

  /** The routes after the registration, under either reading. */
  ghost predicate SecondMap(t: Table, m: RouteMap, n: Name, r: Route, byCost: bool)
    requires n in t && t[n].routes != []
  {
    n in m && m[n] == Pair(t[n].routes[0], r, byCost) && DifferAtMost(RoutesOf(t), m, n)
  }

  lemma ReadingMap(t: Table, t1: Table, n: Name, r: Route, byCost: bool)
    requires Single(t) && n in t && SecondTable(t, t1, n, r)
    ensures SecondMap(t, Reading(RoutesOf(t1), byCost), n, r, byCost)
  {
    PairSorted(t[n].routes[0], r);
    assert RoutesOf(t1)[n] == [t[n].routes[0], r];
    forall d | d != n && d in t
      ensures SortByCost(t[d].routes) == t[d].routes
    {
      PairSorted(t[d].routes[0], r);
      assert t[d].routes == [t[d].routes[0]];
    }
  }

  lemma SecondHanded(t: Table, m': RouteMap, n: Name, r: Route, face: nat, byCost: bool)
    requires Second(t, n, r) && SecondMap(t, m', n, r, byCost)
    ensures var first, a := t[n].routes[0], Ancestor(RoutesOf(t), n, face);
            && HandedDown(RoutesOf(t), n, face) == HandedByOne(first, a, face)
            && HandedDown(m', n, face) == HandedByTwo(first, r, a, face, byCost)
  {
    AncestorFrame(RoutesOf(t), m', n, n, face);
    TwoRoutes(t[n].routes[0], r, face);
    TwoRoutes(r, t[n].routes[0], face);
    OneRoute(t[n].routes, face);
    assert RoutesOf(t)[n] == t[n].routes;
  }

  lemma EffectiveOne(m: RouteMap, n: Name, first: Route, face: nat)
    requires n in m && m[n] == [first]
    ensures Effective(m, n, face) == if first.faceId == face then Some(first.cost)
                                     else if first.IsCapture() then None else CostOf(Ancestor(m, n, face))
  {
    OneRoute([first], face);
  }

  lemma EffectiveTwo(m: RouteMap, n: Name, first: Route, r: Route, face: nat, byCost: bool)
    requires n in m && m[n] == Pair(first, r, byCost)
    ensures Effective(m, n, face) == if DirectCost(first, r, face).Some? then DirectCost(first, r, face)
                                     else if first.IsCapture() || r.IsCapture() then None
                                     else CostOf(Ancestor(m, n, face))
  {
    TwoRoutes(first, r, face);
    TwoRoutes(r, first, face);
  }

  /** The entry itself always comes out right. */
  lemma SecondSelfRight(t: Table, m': RouteMap, n: Name, r: Route, face: nat, byCost: bool)
    requires Second(t, n, r) && SecondMap(t, m', n, r, byCost)
    ensures After(Effective(RoutesOf(t), n, face), SecondSelf(t, n, r, face)) == Effective(m', n, face)
  {
    var m, first := RoutesOf(t), t[n].routes[0];
    AncestorFrame(m, m', n, n, face);
    assert m[n] == [first];
    EffectiveOne(m, n, first, face);
    EffectiveTwo(m', n, first, r, face, byCost);
    RecordedOrDirect(t, n, face);
  }

  /** A face the entry inherits is recorded, and a recorded one has no direct route. */
  lemma RecordedOrDirect(t: Table, n: Name, face: nat)
    requires Single(t) && RecordsOk(t) && n in t
    ensures t[n].HasInherited(face) ==> t[n].routes[0].faceId != face
    ensures t[n].routes[0].faceId != face && Effective(RoutesOf(t), n, face).Some? ==> t[n].HasInherited(face)
  {
    OneRoute(t[n].routes, face);
    assert Inherits(RoutesOf(t), n, face) ==> t[n].HasInherited(face);
    assert t[n].HasInherited(face) ==> !HasFace(t[n].routes, face);
  }

  lemma SecondSelfPattern(t: Table, t1: Table, n: Name, r: Route, face: nat)
    requires n in t && t[n].routes != [] && n in t1 && t1[n].inherited == t[n].inherited
    ensures Pattern(t1, n, face, Recorded(SecondSelf(t, n, r, face)))
  {
    SelfRecords(t, n, r, face);
    FitsShort(t1[n].HasInherited(face), Recorded(SecondSelf(t, n, r, face)));
  }

  lemma SelfRecords(t: Table, n: Name, r: Route, face: nat)
    requires n in t && t[n].routes != []
    ensures var q := Recorded(SecondSelf(t, n, r, face));
            |q| <= 1 && (q != [] ==> !q[0].add && t[n].HasInherited(face))
  {
    var evs := SecondSelf(t, n, r, face);
    if |evs| == 2 {
      RecordedShort(evs[1..]);
    } else {
      RecordedShort(evs);
    }
  }

  // ----- an entry that takes the face from here -----

  function SecondTaken(first: Route, r: Route, a: Option<Route>, has: bool, d: Name, face: nat): seq<Event> {
    (if SwitchesOn(first, r) && a.Some? && has then [Event(d, a.value, false, true)] else [])
    + (if SecondAdd(first, r) != [] && face == r.faceId then [Event(d, r, true, true)] else [])
  }

  lemma SecondReached(t: Table, n: Name, r: Route, d: Name, face: nat)
    requires Second(t, n, r) && Takes(t, n, d, face)
    ensures var first := t[n].routes[0];
            ReachedAt(t, |n| + 1, d, face, SecondAdd(first, r), SecondRemove(t, n, first, r))
            == SecondTaken(first, r, Ancestor(RoutesOf(t), n, face), t[d].HasInherited(face), d, face)
  {
    AncestorRoutesExact(t, n, face);
  }

  lemma SecondReaches(first: Route, r: Route, a: Option<Route>, has: bool, d: Name, face: nat, byCost: bool)
    requires HandedByOne(first, a, face).Some? ==> has
    ensures After(CostOf(HandedByOne(first, a, face)), SecondTaken(first, r, a, has, d, face))
            == CostOf(HandedByTwo(first, r, a, face, byCost))
            <==> !(face == first.faceId && SecondMisleadsBy(first, r, a, byCost))
  {
  }

  lemma SecondTaker(t: Table, m': RouteMap, n: Name, r: Route, d: Name, face: nat, byCost: bool)
    requires Second(t, n, r) && SecondMap(t, m', n, r, byCost) && Takes(t, n, d, face)
    ensures var first := t[n].routes[0];
            After(Effective(RoutesOf(t), d, face),
                  ReachedAt(t, |n| + 1, d, face, SecondAdd(first, r), SecondRemove(t, n, first, r)))
            == Effective(m', d, face)
            <==> !(face == first.faceId && SecondMisleads(t, n, r, byCost))
  {
    SecondHanded(t, m', n, r, face, byCost);
    TakerEffective(t, RoutesOf(t), m', n, d, face);
    SecondReached(t, n, r, d, face);
    assert Effective(RoutesOf(t), d, face).Some? ==> t[d].HasInherited(face) by {
      assert Inherits(RoutesOf(t), d, face) <==> Effective(RoutesOf(t), d, face).Some?;
    }
    SecondReaches(t[n].routes[0], r, Ancestor(RoutesOf(t), n, face), t[d].HasInherited(face), d, face, byCost);
  }

  // ----- every name and face -----

  lemma SecondPattern(t: Table, t1: Table, n: Name, r: Route, d: Name, face: nat)
    requires Second(t, n, r) && SecondTable(t, t1, n, r)
    ensures Pattern(t1, d, face, Recorded(EventsAt(NewRouteLog(t, n, t[n], r, SwitchesOn(t[n].routes[0], r)), d, face)))
  {
    var first := t[n].routes[0];
    SecondAt(t, n, r, d, face);
    if d == n {
      SecondSelfPattern(t, t1, n, r, face);
    } else if n < d {
      ReachedPattern(t, t1, |n| + 1, d, face, SecondAdd(first, r), SecondRemove(t, n, first, r));
    }
  }

  lemma SecondPoint(t: Table, m': RouteMap, n: Name, r: Route, d: Name, face: nat, byCost: bool)
    requires Second(t, n, r) && SecondMap(t, m', n, r, byCost)
    ensures After(Effective(RoutesOf(t), d, face),
                  EventsAt(NewRouteLog(t, n, t[n], r, SwitchesOn(t[n].routes[0], r)), d, face))
            == Effective(m', d, face)
            <==> !(Takes(t, n, d, face) && face == t[n].routes[0].faceId && SecondMisleads(t, n, r, byCost))
  {
    var first := t[n].routes[0];
    SecondAt(t, n, r, d, face);
    if d == n {
      SecondSelfRight(t, m', n, r, face, byCost);
    } else if Takes(t, n, d, face) {
      SecondTaker(t, m', n, r, d, face, byCost);
    } else {
      if n < d {
        NonTakerSilent(t, n, SecondAdd(first, r), SecondRemove(t, n, first, r), d, face);
      }
      if d in t {
        OthersKeep(t, RoutesOf(t), m', n, d, face);
      }
    }
  }

  lemma SecondStructure(t: Table, order: seq<Name>, u: RibUpdate, t1: Table)
    requires Second(t, u.name, u.route) && OrderOf(t, order) && u.action == REGISTER && Mutated(t, u, t1)
    ensures Defined(t, u) && SecondTable(t, t1, u.name, u.route)
    ensures ComputeLog(t, order, u)
            == NewRouteLog(t, u.name, t[u.name], u.route, SwitchesOn(t[u.name].routes[0], u.route))
  {
    assert FindRoute(t[u.name].routes, u.route) == 1;
    OneRoute(t[u.name].routes, 0);
  }

  /** A second route, exactly, under either reading: the RIB's assertions hold in any case, and the
      new FIB is the effective next-hop function of the new RIB if and only if no entry takes the
      first route's face from a name where the second misleads. */
  lemma SecondRouteExact(s: State, order: seq<Name>, u: RibUpdate, t1: Table, byCost: bool)
    requires Inv(s) && OrderOf(s.table, order) && u.action == REGISTER && u.name in s.table
    requires !Matches(s.table[u.name].routes[0], u.route) && Mutated(s.table, u, t1)
    ensures Defined(s.table, u) && AllApplicable(t1, Records(ComputeLog(s.table, order, u)))
    ensures var g := s.table[u.name].routes[0].faceId;
            FibReads(Next(s, ComputeLog(s.table, order, u), u, t1), byCost)
            <==> (g !in s.dead && SecondMisleads(s.table, u.name, u.route, byCost) ==>
                forall d :: !Takes(s.table, u.name, d, g))
  {
    var t, n, r := s.table, u.name, u.route;
    CountOne(t);
    SecondStructure(t, order, u, t1);
    var log := ComputeLog(t, order, u);
    SecondApplies(t, t1, n, r, log);
    SecondDecides(s, u, log, t1, byCost);
  }

  lemma SecondDecides(s: State, u: RibUpdate, log: seq<Event>, t1: Table, byCost: bool)
    requires FibMatches(s) && u.action == REGISTER && AllApplicable(t1, Records(log))
    requires Second(s.table, u.name, u.route) && SecondTable(s.table, t1, u.name, u.route)
    requires var t, n := s.table, u.name; log == NewRouteLog(t, n, t[n], u.route, SwitchesOn(t[n].routes[0], u.route))
    ensures var g := s.table[u.name].routes[0].faceId;
            FibReads(Next(s, log, u, t1), byCost)
            <==> (g !in s.dead && SecondMisleads(s.table, u.name, u.route, byCost) ==>
                forall d :: !Takes(s.table, u.name, d, g))
  {
    var t, n := s.table, u.name;
    var g := t[n].routes[0].faceId;
    if g !in s.dead && SecondMisleads(t, n, u.route, byCost) && exists d :: Takes(t, n, d, g) {
      var d :| Takes(t, n, d, g);
      SecondRead(s, u, log, t1, d, g, byCost);
    } else {
      SecondReads(s, u, log, t1, byCost);
    }
  }

  lemma SecondReads(s: State, u: RibUpdate, log: seq<Event>, t1: Table, byCost: bool)
    requires FibMatches(s) && u.action == REGISTER && AllApplicable(t1, Records(log))
    requires Second(s.table, u.name, u.route) && SecondTable(s.table, t1, u.name, u.route)
    requires var t, n := s.table, u.name; log == NewRouteLog(t, n, t[n], u.route, SwitchesOn(t[n].routes[0], u.route))
    requires var g := s.table[u.name].routes[0].faceId;
             g !in s.dead && SecondMisleads(s.table, u.name, u.route, byCost) ==>
                 forall d :: !Takes(s.table, u.name, d, g)
    ensures FibReads(Next(s, log, u, t1), byCost)
  {
    var s' := Next(s, log, u, t1);
    forall d, f {:trigger FibAt(s'.fib, d, f)} | f !in s'.dead
      ensures FibAt(s'.fib, d, f) == Effective(Reading(RoutesOf(s'.table), byCost), d, f)
    {
      SecondRead(s, u, log, t1, d, f, byCost);
    }
  }

  lemma SecondRead(s: State, u: RibUpdate, log: seq<Event>, t1: Table, d: Name, f: nat, byCost: bool)
    requires FibMatches(s) && u.action == REGISTER && f !in s.dead
    requires Second(s.table, u.name, u.route) && SecondTable(s.table, t1, u.name, u.route)
    requires var t, n := s.table, u.name; log == NewRouteLog(t, n, t[n], u.route, SwitchesOn(t[n].routes[0], u.route))
    requires AllApplicable(t1, Records(log))
    ensures FibAt(Next(s, log, u, t1).fib, d, f)
            == Effective(Reading(RoutesOf(Next(s, log, u, t1).table), byCost), d, f)
            <==> !(&& Takes(s.table, u.name, d, f) && f == s.table[u.name].routes[0].faceId
                   && SecondMisleads(s.table, u.name, u.route, byCost))
  {
    ReadingMap(s.table, t1, u.name, u.route, byCost);
    SecondPoint(s.table, Reading(RoutesOf(t1), byCost), u.name, u.route, d, f, byCost);
    SameRoutes(t1, Records(log));
    FibAfterLog(s.fib, log, u, d, f);
    assert FibAt(s.fib, d, f) == Effective(RoutesOf(s.table), d, f);
  }

  lemma SecondApplies(t: Table, t1: Table, n: Name, r: Route, log: seq<Event>)
    requires Second(t, n, r) && SecondTable(t, t1, n, r)
    requires log == NewRouteLog(t, n, t[n], r, SwitchesOn(t[n].routes[0], r))
    ensures AllPatterns(t1, log) && AllApplicable(t1, Records(log))
  {
    forall d, f
      ensures Pattern(t1, d, f, Recorded(EventsAt(log, d, f)))
    {
      SecondPattern(t, t1, n, r, d, f);
    }
    RecordsApply(t1, log);
  }

  /** Where the entry had inherited the second route's face, and keeps inheriting, the record stays
      beside the direct route. */
  lemma SecondLeavesRecord(s: State, order: seq<Name>, u: RibUpdate, t1: Table)
    requires Inv(s) && OrderOf(s.table, order) && u.action == REGISTER && u.name in s.table && Mutated(s.table, u, t1)
    requires u.route.faceId != s.table[u.name].routes[0].faceId && !SwitchesOn(s.table[u.name].routes[0], u.route)
    requires s.table[u.name].HasInherited(u.route.faceId)
    ensures Defined(s.table, u) && AllApplicable(t1, Records(ComputeLog(s.table, order, u)))
    ensures !RecordsOk(Next(s, ComputeLog(s.table, order, u), u, t1).table)
  {
    var t, n, r := s.table, u.name, u.route;
    CountOne(t);
    SecondStructure(t, order, u, t1);
    var log := ComputeLog(t, order, u);
    SecondApplies(t, t1, n, r, log);
    var t2 := ModifyInherited(t1, Records(log));
    SecondAt(t, n, r, n, r.faceId);
    assert EventsAt(log, n, r.faceId) == [Event(n, r, true, false)];
    RecordedShort(EventsAt(log, n, r.faceId));
    RecordsAt(t1, log, n, r.faceId);
    ModifyKeeps(t1, Records(log));
    TwoRoutes(t[n].routes[0], r, r.faceId);
    assert t2[n].HasInherited(r.faceId) && HasFace(t2[n].routes, r.faceId);
  }
}
