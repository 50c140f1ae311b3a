/** The refinement theorem: one step, exactly; whole runs; and inputs on which it fails. */
module FibTheorem {
  import opened Names
  import opened Options
  import opened RibModel
  import opened EffectiveNextHops
  import opened FibDelta
  import opened FibCompute
  import opened FibRefinement
  import opened FibSteps
  import opened FibCommands
  import opened FibCaptureChange

  // ----- unregistration -----

  function EraseAdd(t: Table, n: Name, r: Route): (s: RouteSet)
    requires Shape(t)
    ensures ByFace(s)
  {
    if r.IsCapture() || r.IsChildInherit() then AncestorRoutes(t, FindParent(t.Keys, n)) else []
  }

  function EraseRemove(r: Route): RouteSet {
    if r.IsChildInherit() then [r] else []
  }

  function EraseInherit(t: Table, n: Name): seq<Event>
    requires Shape(t) && Single(t) && n in t
  {
    if t[n].routes[0].IsCapture()
    then AddInheritedLog(n, WithoutRoute(t[n], 0), AncestorRoutes(t, FindParent(t.Keys, n))) else []
  }

  ghost function EraseBelow(t: Table, n: Name): seq<Event>
    requires Shape(t) && Single(t) && n in t && forall c :: c in t[n].children ==> c in t && n < c
  {
    var r := t[n].routes[0];
    if r.IsCapture() || r.IsChildInherit() then ChildrenLog(t, n, t[n].children, EraseAdd(t, n, r), EraseRemove(r))
        else []
  }

  /** The log of erasing the only route of an entry, in one piece: the route's own removal, the
      inherited routes a lifted capture restores to the entry, the children, the entry's end. */
  ghost function EraseParts(t: Table, n: Name): seq<Event>
    requires Shape(t) && Single(t) && n in t && forall c :: c in t[n].children ==> c in t && n < c
  {
    [Event(n, t[n].routes[0], false, false)]
    + (EraseInherit(t, n) + (EraseBelow(t, n) + ErasedEntryLog(n, t[n].inherited)))
  }

  lemma EraseEntry(t: Table, u: RibUpdate)
    requires Shape(t) && Single(t) && CountsExact(t) && u.name in t && Matches(t[u.name].routes[0], u.route)
    ensures forall c :: c in t[u.name].children ==> c in t && u.name < c
    ensures t[u.name].parent == FindParent(t.Keys, u.name) && Frontier(t, u.name, t[u.name].children)
    ensures FindRoute(t[u.name].routes, u.route) == 0
    ensures WithoutRoute(t[u.name], 0).routes == [] && WithoutRoute(t[u.name], 0).nCapture == 0
    ensures t[u.name].HasCapture() == t[u.name].routes[0].IsCapture()
    ensures SecondLowestCost(t[u.name].routes, u.route.faceId) == None
  {
    LinksInside(t, u.name);
    FrontierOfEntry(t, u.name);
    assert LinksOk(t, u.name);
    CountOne(t);
    OneRoute(t[u.name].routes, u.route.faceId);
  }

  lemma EraseLog(t: Table, u: RibUpdate)
    requires Shape(t) && Single(t) && CountsExact(t) && u.name in t && Matches(t[u.name].routes[0], u.route)
    ensures forall c :: c in t[u.name].children ==> c in t && u.name < c
    ensures WithoutRoute(t[u.name], 0).routes == []
    ensures UnregistrationLog(t, u) == EraseParts(t, u.name)
  {
    EraseEntry(t, u);
    var n, r := u.name, t[u.name].routes[0];
    EraseUnfold(t, u);
    EraseOwn(t, n, WithoutRoute(t[n], 0), r, EraseInherit(t, n), EraseBelow(t, n));
    Regroup([Event(n, r, false, false)], EraseInherit(t, n), EraseBelow(t, n), ErasedEntryLog(n, t[n].inherited));
  }

  lemma EraseUnfold(t: Table, u: RibUpdate)
    requires Shape(t) && Single(t) && u.name in t && FindRoute(t[u.name].routes, u.route) == 0
    requires t[u.name].HasCapture() == t[u.name].routes[0].IsCapture() && WithoutRoute(t[u.name], 0).nCapture == 0
    requires SecondLowestCost(t[u.name].routes, u.route.faceId) == None
    ensures var n, r := u.name, t[u.name].routes[0];
            UnregistrationLog(t, u)
            == ErasedRouteLog(t, n, WithoutRoute(t[n], 0), r, r.IsCapture()) + [] + ErasedEntryLog(n, t[n].inherited)
  {
  }

  lemma Regroup(a: seq<Event>, b: seq<Event>, c: seq<Event>, e: seq<Event>)
    ensures a + (b + c) + [] + e == a + (b + (c + e))
  {
  }

  lemma EraseOwn(t: Table, n: Name, temp: EntryView, r: Route, inherit: seq<Event>, below: seq<Event>)
    requires Shape(t) && n in t && temp.parent == t[n].parent && temp.children == t[n].children
    requires temp.routes == [] && temp.nCapture == 0 && t[n].parent == FindParent(t.Keys, n)
    requires forall c :: c in t[n].children ==> c in t && n < c
    requires inherit == if r.IsCapture() then AddInheritedLog(n, temp, AncestorRoutes(t, FindParent(t.Keys, n))) else []
    requires below == if r.IsCapture() || r.IsChildInherit()
                      then ChildrenLog(t, n, t[n].children, EraseAdd(t, n, r), EraseRemove(r)) else []
    ensures ErasedRouteLog(t, n, temp, r, r.IsCapture()) == [Event(n, r, false, false)] + (inherit + below)
  {
    assert !r.IsCapture() ==> inherit + below == below;
    assert [Event(n, r, false, false)] + (inherit + below) + [] == [Event(n, r, false, false)] + (inherit + below);
  }

  ghost predicate EraseReady(t: Table, n: Name) {
    && Shape(t) && CountsOk(t) && Single(t) && n in t && WithoutRoute(t[n], 0).routes == []
    && forall c :: c in t[n].children ==> c in t && n < c
  }

  lemma EraseAtBelow(t: Table, n: Name, d: Name, face: nat)
    requires EraseReady(t, n) && d != n
    ensures var r := t[n].routes[0];
            EventsAt(EraseParts(t, n), d, face)
            == if n < d then ReachedAt(t, |n| + 1, d, face, EraseAdd(t, n, r), EraseRemove(r)) else []
  {
    var self := [Event(n, t[n].routes[0], false, false)];
    assert EventsAt(self, d, face) == [] by {
      assert self[1..] == [];
    }
    FourParts(self, EraseInherit(t, n), EraseBelow(t, n), ErasedEntryLog(n, t[n].inherited), d, face);
    EraseInheritAt(t, n, d, face);
    ErasedEntryAt(n, t[n].inherited, d, face);
    EraseSum([], [], EventsAt(EraseBelow(t, n), d, face), []);
    EraseBelowAt(t, n, d, face);
  }

  lemma EraseAtSelf(t: Table, n: Name, face: nat)
    requires EraseReady(t, n)
    ensures var r := t[n].routes[0];
            var a := Ancestor(RoutesOf(t), n, face);
            EventsAt(EraseParts(t, n), n, face)
            == (if face == r.faceId then [Event(n, r, false, false)] else [])
               + ((if r.IsCapture() && a.Some? then [Event(n, a.value, true, true)] else [])
                  + EventsAt(ErasedEntryLog(n, t[n].inherited), n, face))
  {
    var r := t[n].routes[0];
    var self := [Event(n, r, false, false)];
    assert EventsAt(self, n, face) == if face == r.faceId then self else [] by {
      assert self[1..] == [];
    }
    FourParts(self, EraseInherit(t, n), EraseBelow(t, n), ErasedEntryLog(n, t[n].inherited), n, face);
    EraseInheritAt(t, n, n, face);
    EraseBelowAt(t, n, n, face);
    EraseSum(EventsAt(self, n, face), EventsAt(EraseInherit(t, n), n, face), [],
             EventsAt(ErasedEntryLog(n, t[n].inherited), n, face));
  }

  lemma EraseSum(a: seq<Event>, b: seq<Event>, c: seq<Event>, e: seq<Event>)
    ensures c == [] ==> a + (b + (c + e)) == a + (b + e)
    ensures a == b == e == [] ==> a + (b + (c + e)) == c
  {
  }

  lemma FourParts(a: seq<Event>, b: seq<Event>, c: seq<Event>, e: seq<Event>, d: Name, face: nat)
    ensures EventsAt(a + (b + (c + e)), d, face)
            == EventsAt(a, d, face) + (EventsAt(b, d, face) + (EventsAt(c, d, face) + EventsAt(e, d, face)))
  {
    EventsAtConcat(a, b + (c + e), d, face);
    EventsAtConcat(b, c + e, d, face);
    EventsAtConcat(c, e, d, face);
  }

  lemma EraseInheritAt(t: Table, n: Name, d: Name, face: nat)
    requires Shape(t) && CountsOk(t) && Single(t) && n in t && WithoutRoute(t[n], 0).routes == []
    ensures var a := Ancestor(RoutesOf(t), n, face);
            EventsAt(EraseInherit(t, n), d, face)
            == if d == n && t[n].routes[0].IsCapture() && a.Some? then [Event(n, a.value, true, true)] else []
  {
    AncestorRoutesExact(t, n, face);
    AddInheritedAt(n, WithoutRoute(t[n], 0), AncestorRoutes(t, FindParent(t.Keys, n)), d, face);
  }

  lemma EraseBelowAt(t: Table, n: Name, d: Name, face: nat)
    requires Shape(t) && Single(t) && n in t
    requires forall c :: c in t[n].children ==> c in t && n < c
    ensures var r := t[n].routes[0];
            EventsAt(EraseBelow(t, n), d, face)
            == if n < d then ReachedAt(t, |n| + 1, d, face, EraseAdd(t, n, r), EraseRemove(r)) else []
  {
    var r := t[n].routes[0];
    FrontierOfEntry(t, n);
    if r.IsCapture() || r.IsChildInherit() {
      ChildrenAt(t, n, t[n].children, EraseAdd(t, n, r), EraseRemove(r), d, face);
    }
  }

  lemma ErasePoint(t: Table, t1: Table, log: seq<Event>, n: Name, d: Name, face: nat)
    requires EraseReady(t, n) && RecordsOk(t) && log == EraseParts(t, n)
    requires t1.Keys == t.Keys - {n} && SameExceptLinks(t, t1, t.Keys - {n})
    requires DifferAtMost(RoutesOf(t), RoutesOf(t1), n)
    requires t[n].routes[0].IsCapture() ==> Ancestor(RoutesOf(t), n, face).None?
    ensures PointGood(t, t1, log, d, face)
  {
    var m, m' := RoutesOf(t), RoutesOf(t1);
    var r := t[n].routes[0];
    OneRoute(t[n].routes, face);
    if d == n {
      EraseAtSelf(t, n, face);
    } else {
      EraseAtBelow(t, n, d, face);
    }
    if n < d {
      AncestorFrame(m, m', n, n, face);
      AncestorRoutesExact(t, n, face);
      assert m[n] == t[n].routes && n !in m';
      PointBelow(t, t1, log, n, EraseAdd(t, n, r), EraseRemove(r), d, face);
    } else if d == n {
      EraseSelfPoint(t, t1, log, n, face);
    } else {
      PointSilent(t, t1, log, n, d, face);
    }
  }

  lemma EraseSelfPoint(t: Table, t1: Table, log: seq<Event>, n: Name, face: nat)
    requires EraseReady(t, n) && RecordsOk(t) && n !in t1
    requires Ancestor(RoutesOf(t), n, face).None? || !t[n].routes[0].IsCapture()
    requires EventsAt(log, n, face)
             == (if face == t[n].routes[0].faceId then [Event(n, t[n].routes[0], false, false)] else [])
                + ([] + EventsAt(ErasedEntryLog(n, t[n].inherited), n, face))
    ensures PointGood(t, t1, log, n, face)
  {
    var r, erased := t[n].routes[0], EventsAt(ErasedEntryLog(n, t[n].inherited), n, face);
    OneRoute(t[n].routes, face);
    ErasedEntryAt(n, t[n].inherited, n, face);
    assert Inherits(RoutesOf(t), n, face) ==> t[n].HasInherited(face);
    assert t[n].HasInherited(face) ==> !HasFace(t[n].routes, face);
    if face == r.faceId {
      assert [Event(n, r, false, false)] + ([] + erased) == [Event(n, r, false, false)];
      assert EventsAt(log, n, face)[1..] == [];
    } else {
      assert [] + ([] + erased) == erased;
    }
  }

  // ----- one step -----

  /** The entry's one route is the one the command names. */
  predicate Hits(t: Table, u: RibUpdate) {
    u.name in t && |t[u.name].routes| == 1 && Matches(t[u.name].routes[0], u.route)
  }

  /** The commands that keep the FIB right, as a caller can check them beforehand. */
  ghost predicate KeepsFib(t: Table, u: RibUpdate) {
    Hits(t, u) ==>
      var old' := t[u.name].routes[0];
      if u.action == REGISTER then Misleads(t, u.name, u.route, old') ==>
          forall d :: !Takes(t, u.name, d, u.route.faceId)
      else old'.IsCapture() ==> forall f :: Ancestor(RoutesOf(t), u.name, f).None?
  }

  /** The commands that keep the capture counts right. */
  predicate KeepsCount(t: Table, u: RibUpdate) {
    Hits(t, u) && u.action == REGISTER ==> u.route.IsCapture() == t[u.name].routes[0].IsCapture()
  }

  ghost predicate Keeps(t: Table, u: RibUpdate) {
    KeepsFib(t, u) && KeepsCount(t, u)
  }

  lemma UnchangedStep(s: State, u: RibUpdate, log: seq<Event>)
    requires Inv(s) && log == []
    ensures AllApplicable(s.table, Records(log)) && Right(Next(s, log, u, s.table))
    ensures CountsExact(Next(s, log, u, s.table).table)
  {
    var t := s.table;
    assert PointsGood(t, t, log) by {
      forall d, f
        ensures PointGood(t, t, log, d, f)
      {
        assert d in t ==> (Inherits(RoutesOf(t), d, f) ==> t[d].HasInherited(f));
        assert d in t ==> (t[d].HasInherited(f) ==> !HasFace(t[d].routes, f));
      }
    }
    PointsMakeStep(s, u, log, t);
  }

  lemma UpdateStructure(t: Table, n: Name, r: Route, t1: Table)
    requires Shape(t) && Single(t) && n in t && Matches(t[n].routes[0], r) && Inserted(t, n, r, t1)
    ensures t1 == t[n := WithUpdatedRoute(t[n], 0, r)] && t1[n].routes == [r]
    ensures Shape(t1) && Single(t1) && DifferAtMost(RoutesOf(t), RoutesOf(t1), n)
    ensures CountsExact(t) ==> (CountsExact(t1) <==> r.IsCapture() == t[n].routes[0].IsCapture())
  {
    UpdatedEntry(t, n, r);
    assert t1 == t[n := WithUpdatedRoute(t[n], 0, r)];
    ShapeFrame(t, t1);
    CountOne(t);
    CountOne(t1);
  }

  lemma UpdateLog(s: State, order: seq<Name>, u: RibUpdate)
    requires Inv(s) && OrderOf(s.table, order) && SingleRouteCommand(s, u)
    requires u.action == REGISTER && u.name in s.table
    ensures var t, n, r := s.table, u.name, u.route;
            && Matches(t[n].routes[0], r) && FindRoute(t[n].routes, r) == 0
            && Defined(t, u)
            && HasFace(WithUpdatedRoute(t[n], 0, r).routes, r.faceId)
            && UpdateDefined(WithUpdatedRoute(t[n], 0, r).routes, r, t[n].routes[0])
            && ComputeLog(t, order, u) == UpdatedRouteLog(t, n, WithUpdatedRoute(t[n], 0, r), r, t[n].routes[0])
  {
    UpdatedEntry(s.table, u.name, u.route);
    OneRoute([u.route], u.route.faceId);
  }

  /** Re-registration: the FIB is right afterwards if and only if it misleads no entry; then tree
      and records are right too; and the assertions hold in any case. */
  lemma UpdateStep(s: State, order: seq<Name>, u: RibUpdate, t1: Table)
    requires Inv(s) && OrderOf(s.table, order) && SingleRouteCommand(s, u)
    requires u.action == REGISTER && u.name in s.table && Mutated(s.table, u, t1)
    ensures Defined(s.table, u)
    ensures var log := ComputeLog(s.table, order, u);
            && AllApplicable(t1, Records(log))
            && (KeepsFib(s.table, u) ==> Right(Next(s, log, u, t1)))
            && (FibMatches(Next(s, log, u, t1)) ==> KeepsFib(s.table, u))
            && (CountsExact(Next(s, log, u, t1).table) <==> KeepsCount(s.table, u))
  {
    var t, n, r := s.table, u.name, u.route;
    UpdateLog(s, order, u);
    UpdateStructure(t, n, r, t1);
    UpdateApplies(s, order, u, t1);
    SameRoutes(t1, Records(ComputeLog(t, order, u)));
    UpdateFib(s, order, u, t1);
  }

  lemma UpdateFib(s: State, order: seq<Name>, u: RibUpdate, t1: Table)
    requires Inv(s) && OrderOf(s.table, order) && SingleRouteCommand(s, u) && Defined(s.table, u)
    requires u.action == REGISTER && u.name in s.table && Mutated(s.table, u, t1)
    requires AllApplicable(t1, Records(ComputeLog(s.table, order, u)))
    ensures KeepsFib(s.table, u) ==> Right(Next(s, ComputeLog(s.table, order, u), u, t1))
    ensures FibMatches(Next(s, ComputeLog(s.table, order, u), u, t1)) ==> KeepsFib(s.table, u)
  {
    var t, n, r := s.table, u.name, u.route;
    assert Matches(t[n].routes[0], r);
    if Misleads(t, n, r, t[n].routes[0]) && exists d :: Takes(t, n, d, r.faceId) {
      var d :| Takes(t, n, d, r.faceId);
      MisleadingUpdate(s, order, u, t1, d);
    } else {
      GoodUpdate(s, order, u, t1);
    }
  }

  /** The records of a re-registration pass the assertions at every name and face. */
  lemma UpdatePattern(t: Table, t1: Table, n: Name, r: Route, d: Name, face: nat)
    requires Shape(t) && CountsOk(t) && Single(t) && RecordsOk(t) && n in t && Matches(t[n].routes[0], r)
    requires t1 == t[n := WithUpdatedRoute(t[n], 0, r)] && t1[n].routes == [r]
    requires DifferAtMost(RoutesOf(t), RoutesOf(t1), n)
    requires HasFace(WithUpdatedRoute(t[n], 0, r).routes, r.faceId)
    requires UpdateDefined(WithUpdatedRoute(t[n], 0, r).routes, r, t[n].routes[0])
    ensures var log := UpdatedRouteLog(t, n, WithUpdatedRoute(t[n], 0, r), r, t[n].routes[0]);
            Pattern(t1, d, face, Recorded(EventsAt(log, d, face)))
  {
    var log := UpdatedRouteLog(t, n, WithUpdatedRoute(t[n], 0, r), r, t[n].routes[0]);
    if r.IsCapture() == t[n].routes[0].IsCapture() {
      KeptPattern(t, t1, n, r, d, face);
    } else {
      ToggleAt(t, n, r, d, face);
      TogglePattern(t, t1, log, n, r, d, face);
    }
  }

  lemma KeptPattern(t: Table, t1: Table, n: Name, r: Route, d: Name, face: nat)
    requires Shape(t) && CountsOk(t) && Single(t) && RecordsOk(t) && n in t && Matches(t[n].routes[0], r)
    requires r.IsCapture() == t[n].routes[0].IsCapture()
    requires t1 == t[n := WithUpdatedRoute(t[n], 0, r)] && t1[n].routes == [r]
    requires HasFace(WithUpdatedRoute(t[n], 0, r).routes, r.faceId)
    requires UpdateDefined(WithUpdatedRoute(t[n], 0, r).routes, r, t[n].routes[0])
    ensures var log := UpdatedRouteLog(t, n, WithUpdatedRoute(t[n], 0, r), r, t[n].routes[0]);
            Pattern(t1, d, face, Recorded(EventsAt(log, d, face)))
  {
    UpdatedAt(t, n, r, d, face);
    if n < d {
      ReachedPattern(t, t1, |n| + 1, d, face, UpdateAdd(t, n, r, t[n].routes[0]), UpdateRemove(r, t[n].routes[0]));
    } else {
      RecordedShort(EventsAt(UpdatedRouteLog(t, n, WithUpdatedRoute(t[n], 0, r), r, t[n].routes[0]), d, face));
    }
  }

  lemma UpdateApplies(s: State, order: seq<Name>, u: RibUpdate, t1: Table)
    requires Inv(s) && OrderOf(s.table, order) && SingleRouteCommand(s, u) && Defined(s.table, u)
    requires u.action == REGISTER && u.name in s.table && Mutated(s.table, u, t1)
    ensures AllApplicable(t1, Records(ComputeLog(s.table, order, u)))
  {
    var t, n, r := s.table, u.name, u.route;
    var log := ComputeLog(t, order, u);
    CountOne(t);
    UpdateLog(s, order, u);
    UpdateStructure(t, n, r, t1);
    forall d, f
      ensures Pattern(t1, d, f, Recorded(EventsAt(log, d, f)))
    {
      UpdatePattern(t, t1, n, r, d, f);
    }
    RecordsApply(t1, log);
  }

  lemma GoodUpdate(s: State, order: seq<Name>, u: RibUpdate, t1: Table)
    requires Inv(s) && OrderOf(s.table, order) && SingleRouteCommand(s, u) && Defined(s.table, u)
    requires u.action == REGISTER && u.name in s.table && Mutated(s.table, u, t1)
    requires Misleads(s.table, u.name, u.route, s.table[u.name].routes[0]) ==>
               forall d :: !Takes(s.table, u.name, d, u.route.faceId)
    ensures var log := ComputeLog(s.table, order, u);
            AllApplicable(t1, Records(log)) && Right(Next(s, log, u, t1))
  {
    var t, n, r := s.table, u.name, u.route;
    CountOne(t);
    UpdateLog(s, order, u);
    UpdateStructure(t, n, r, t1);
    var log := ComputeLog(t, order, u);
    assert PointsGood(t, t1, log) by {
      forall d, f
        ensures PointGood(t, t1, log, d, f)
      {
        GoodPoint(t, t1, n, r, d, f);
      }
    }
    PointsMakeStep(s, u, log, t1);
  }

  lemma GoodPoint(t: Table, t1: Table, n: Name, r: Route, d: Name, face: nat)
    requires Shape(t) && CountsOk(t) && Single(t) && RecordsOk(t) && n in t && Matches(t[n].routes[0], r)
    requires Inserted(t, n, r, t1) && t1 == t[n := WithUpdatedRoute(t[n], 0, r)] && t1[n].routes == [r]
    requires DifferAtMost(RoutesOf(t), RoutesOf(t1), n)
    requires HasFace(WithUpdatedRoute(t[n], 0, r).routes, r.faceId)
    requires UpdateDefined(WithUpdatedRoute(t[n], 0, r).routes, r, t[n].routes[0])
    requires Misleads(t, n, r, t[n].routes[0]) ==> !Takes(t, n, d, r.faceId)
    ensures PointGood(t, t1, UpdatedRouteLog(t, n, WithUpdatedRoute(t[n], 0, r), r, t[n].routes[0]), d, face)
  {
    var log := UpdatedRouteLog(t, n, WithUpdatedRoute(t[n], 0, r), r, t[n].routes[0]);
    if r.IsCapture() == t[n].routes[0].IsCapture() {
      UpdatedAt(t, n, r, d, face);
      UpdatePoint(t, t1, log, n, r, d, face);
    } else {
      ToggleAt(t, n, r, d, face);
      if d == n {
        ToggleSelf(t, t1, log, n, r, face);
      } else if n < d {
        ToggleBelow(t, t1, log, n, r, d, face);
      } else {
        PointSilent(t, t1, log, n, d, face);
      }
    }
  }

  /** A misleading re-registration leaves some entry below with the wrong cost. */
  lemma MisleadingUpdate(s: State, order: seq<Name>, u: RibUpdate, t1: Table, d: Name)
    requires Inv(s) && OrderOf(s.table, order) && SingleRouteCommand(s, u) && Defined(s.table, u)
    requires u.action == REGISTER && u.name in s.table && Mutated(s.table, u, t1)
    requires Misleads(s.table, u.name, u.route, s.table[u.name].routes[0]) && Takes(s.table, u.name, d, u.route.faceId)
    ensures var log := ComputeLog(s.table, order, u);
            AllApplicable(t1, Records(log)) ==> !FibMatches(Next(s, log, u, t1))
  {
    var t, n, r := s.table, u.name, u.route;
    UpdateLog(s, order, u);
    UpdateStructure(t, n, r, t1);
    var log := ComputeLog(t, order, u);
    if AllApplicable(t1, Records(log)) {
      SameRoutes(t1, Records(log));
      FibAfterLog(s.fib, log, u, d, r.faceId);
      assert FibAt(s.fib, d, r.faceId) == Effective(RoutesOf(t), d, r.faceId);
      CountOne(t);
      MisleadingPoint(t, t1, n, r, d);
    }
  }

  lemma MisleadingPoint(t: Table, t1: Table, n: Name, r: Route, d: Name)
    requires Shape(t) && CountsOk(t) && Single(t) && RecordsOk(t) && n in t && Matches(t[n].routes[0], r)
    requires t1 == t[n := WithUpdatedRoute(t[n], 0, r)] && t1[n].routes == [r]
    requires DifferAtMost(RoutesOf(t), RoutesOf(t1), n)
    requires Misleads(t, n, r, t[n].routes[0]) && Takes(t, n, d, r.faceId)
    requires HasFace(WithUpdatedRoute(t[n], 0, r).routes, r.faceId)
    requires UpdateDefined(WithUpdatedRoute(t[n], 0, r).routes, r, t[n].routes[0])
    ensures var log := UpdatedRouteLog(t, n, WithUpdatedRoute(t[n], 0, r), r, t[n].routes[0]);
            After(Effective(RoutesOf(t), d, r.faceId), EventsAt(log, d, r.faceId))
            != Effective(RoutesOf(t1), d, r.faceId)
  {
    if r.IsCapture() == t[n].routes[0].IsCapture() {
      MisleadingKept(t, t1, n, r, d);
    } else {
      ToggleAt(t, n, r, d, r.faceId);
      ToggleTaker(t, t1, n, r, d, r.faceId);
    }
  }

  lemma MisleadingKept(t: Table, t1: Table, n: Name, r: Route, d: Name)
    requires Shape(t) && CountsOk(t) && Single(t) && RecordsOk(t) && n in t
    requires Matches(t[n].routes[0], r) && r.IsCapture() == t[n].routes[0].IsCapture()
    requires DifferAtMost(RoutesOf(t), RoutesOf(t1), n) && n in t1 && t1[n].routes == [r]
    requires Misleads(t, n, r, t[n].routes[0]) && Takes(t, n, d, r.faceId)
    requires HasFace(WithUpdatedRoute(t[n], 0, r).routes, r.faceId)
    requires UpdateDefined(WithUpdatedRoute(t[n], 0, r).routes, r, t[n].routes[0])
    ensures var log := UpdatedRouteLog(t, n, WithUpdatedRoute(t[n], 0, r), r, t[n].routes[0]);
            After(Effective(RoutesOf(t), d, r.faceId), EventsAt(log, d, r.faceId))
            != Effective(RoutesOf(t1), d, r.faceId)
  {
    var old', a := t[n].routes[0], Ancestor(RoutesOf(t), n, r.faceId);
    UpdatedAt(t, n, r, d, r.faceId);
    TakerEffective(t, RoutesOf(t), RoutesOf(t1), n, d, r.faceId);
    OneHanded(RoutesOf(t), n, old', r.faceId);
    OneHanded(RoutesOf(t1), n, r, r.faceId);
    AncestorFrame(RoutesOf(t), RoutesOf(t1), n, n, r.faceId);
    AncestorRoutesExact(t, n, r.faceId);
    assert RoutesOf(t)[n] == [old'] && RoutesOf(t1)[n] == [r];
    KeptReached(t, n, r, d);
    KeptMisled(old', r, a, d);
  }

  lemma OneHanded(m: RouteMap, n: Name, r: Route, face: nat)
    requires n in m && m[n] == [r]
    ensures HandedDown(m, n, face) == Handed(r, Ancestor(m, n, face), face)
  {
    OneRoute([r], face);
  }

  /** The events at a taker of a re-registration that keeps the capture flag and misleads. */
  function KeptTaken(old': Route, r: Route, a: Option<Route>, d: Name): seq<Event> {
    if old'.IsChildInherit() && !r.IsChildInherit() && a.Some? then [Event(d, a.value, true, true)] else []
  }

  lemma KeptReached(t: Table, n: Name, r: Route, d: Name)
    requires Shape(t) && CountsOk(t) && Single(t) && RecordsOk(t) && n in t
    requires Matches(t[n].routes[0], r) && r.IsCapture() == t[n].routes[0].IsCapture()
    requires Misleads(t, n, r, t[n].routes[0]) && Takes(t, n, d, r.faceId)
    ensures var evs := ReachedAt(t, |n| + 1, d, r.faceId, UpdateAdd(t, n, r, t[n].routes[0]),
                                 UpdateRemove(r, t[n].routes[0]));
            forall former :: After(former, evs)
                == if KeptTaken(t[n].routes[0], r, Ancestor(RoutesOf(t), n, r.faceId), d) == []
                                                   then former else Some(Ancestor(RoutesOf(t), n, r.faceId).value.cost)
  {
    AncestorRoutesExact(t, n, r.faceId);
  }

  lemma KeptMisled(old': Route, r: Route, a: Option<Route>, d: Name)
    requires r.IsCapture() == old'.IsCapture() && r.faceId == old'.faceId && MisleadsBy(r, old', a)
    ensures (if KeptTaken(old', r, a, d) == [] then CostOf(Handed(old', a, r.faceId)) else Some(a.value.cost))
            != CostOf(Handed(r, a, r.faceId))
  {
  }

  lemma EraseStep(s: State, u: RibUpdate, t1: Table)
    requires Inv(s) && u.action != REGISTER && Mutated(s.table, u, t1)
    ensures var log := UnregistrationLog(s.table, u);
            && (KeepsFib(s.table, u) <==> AllApplicable(t1, Records(log)))
            && (KeepsFib(s.table, u) ==> Inv(Next(s, log, u, t1)))
  {
    var t, n := s.table, u.name;
    if !Hits(t, u) {
      if n in t {
        assert |t[n].routes| == 1 && t[n].routes[1..] == [];
      }
      assert UnregistrationLog(t, u) == [] && t1 == t;
      UnchangedStep(s, u, UnregistrationLog(t, u));
    } else {
      CountOne(t);
      EraseLog(t, u);
      assert FindRoute(t[n].routes, u.route) == 0;
      if t[n].routes[0].IsCapture() && exists f :: Ancestor(RoutesOf(t), n, f).Some? {
        EraseFails(t, u, t1);
      } else {
        EraseRight(s, u, t1);
      }
    }
  }

  /** A lifted capture restores an ancestor's route to the entry that is erased. */
  lemma EraseFails(t: Table, u: RibUpdate, t1: Table)
    requires EraseReady(t, u.name) && u.name !in t1 && UnregistrationLog(t, u) == EraseParts(t, u.name)
    requires t[u.name].routes[0].IsCapture() && exists f :: Ancestor(RoutesOf(t), u.name, f).Some?
    ensures !AllApplicable(t1, Records(UnregistrationLog(t, u)))
  {
    var n, r := u.name, t[u.name].routes[0];
    var f :| Ancestor(RoutesOf(t), n, f).Some?;
    EraseAtSelf(t, n, f);
    var a := Event(n, Ancestor(RoutesOf(t), n, f).value, true, true);
    var self := if f == r.faceId then [Event(n, r, false, false)] else [];
    var erased := EventsAt(ErasedEntryLog(n, t[n].inherited), n, f);
    assert EventsAt(EraseParts(t, n), n, f) == self + ([a] + erased);
    RecordedMember(self + ([a] + erased), |self|);
    RecordOutside(t1, UnregistrationLog(t, u), n, f);
  }

  lemma EraseRight(s: State, u: RibUpdate, t1: Table)
    requires Inv(s) && EraseReady(s.table, u.name) && UnregistrationLog(s.table, u) == EraseParts(s.table, u.name)
    requires t1.Keys == s.table.Keys - {u.name} && SameExceptLinks(s.table, t1, s.table.Keys - {u.name}) && Shape(t1)
    requires s.table[u.name].routes[0].IsCapture() ==> forall f :: Ancestor(RoutesOf(s.table), u.name, f).None?
    ensures AllApplicable(t1, Records(UnregistrationLog(s.table, u)))
    ensures Inv(Next(s, UnregistrationLog(s.table, u), u, t1))
  {
    var t, n, log := s.table, u.name, UnregistrationLog(s.table, u);
    EraseStructure(t, t1, n);
    ErasePoints(t, t1, log, n);
    PointsMakeStep(s, u, log, t1);
  }

  lemma EraseStructure(t: Table, t1: Table, n: Name)
    requires Single(t) && CountsExact(t)
    requires t1.Keys == t.Keys - {n} && SameExceptLinks(t, t1, t.Keys - {n})
    ensures Single(t1) && CountsExact(t1) && DifferAtMost(RoutesOf(t), RoutesOf(t1), n)
  {
    assert forall d :: d in t1 ==> d in t.Keys - {n};
  }

  lemma ErasePoints(t: Table, t1: Table, log: seq<Event>, n: Name)
    requires EraseReady(t, n) && RecordsOk(t) && log == EraseParts(t, n)
    requires t1.Keys == t.Keys - {n} && SameExceptLinks(t, t1, t.Keys - {n})
    requires DifferAtMost(RoutesOf(t), RoutesOf(t1), n)
    requires t[n].routes[0].IsCapture() ==> forall f :: Ancestor(RoutesOf(t), n, f).None?
    ensures PointsGood(t, t1, log)
  {
    forall d, f
      ensures PointGood(t, t1, log, d, f)
    {
      ErasePoint(t, t1, log, n, d, f);
    }
  }

  lemma {:induction false} RecordedMember(evs: seq<Event>, i: nat)
    requires i < |evs| && evs[i].recorded
    ensures Recorded(evs) != []
  {
    if i > 0 {
      RecordedMember(evs[1..], i - 1);
    }
  }

  /** One command of the single-route domain, exactly. The RIB's assertions hold and the new FIB is
      the effective next-hop function of the new RIB if and only if `KeepsFib` lists the command.
      The capture counts are exact afterwards if and only if the command does not re-register a
      route with another capture flag. The whole invariant is kept if and only if both. */
  lemma StepExact(s: State, order: seq<Name>, u: RibUpdate, t1: Table)
    requires Inv(s) && OrderOf(s.table, order) && SingleRouteCommand(s, u) && Mutated(s.table, u, t1)
    ensures Defined(s.table, u)
    ensures var log := ComputeLog(s.table, order, u);
            && ((AllApplicable(t1, Records(log)) && FibMatches(Next(s, log, u, t1))) <==> KeepsFib(s.table, u))
            && (AllApplicable(t1, Records(log)) ==>
                (CountsExact(Next(s, log, u, t1).table) <==> KeepsCount(s.table, u)))
            && ((AllApplicable(t1, Records(log)) && Inv(Next(s, log, u, t1))) <==> Keeps(s.table, u))
  {
    if u.action != REGISTER {
      EraseStep(s, u, t1);
    } else if u.name in s.table {
      UpdateStep(s, order, u, t1);
    } else {
      NewEntryStep(s, order, u, t1);
    }
  }
}
