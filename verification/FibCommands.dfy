/** The three commands against the refinement, each with the exact condition under which the
    FIB and the records come out right. */
module FibCommands {
  import opened Names
  import opened Options
  import opened RibModel
  import opened EffectiveNextHops
  import opened FibDelta
  import opened FibCompute
  import opened FibRefinement
  import opened FibSteps

  // ----- a new name -----

  lemma PredictedFrontier(t: Table, order: seq<Name>, n: Name)
    requires Shape(t) && OrderOf(t, order) && n !in t
    ensures Frontier(t, n, PredictedChildren(t, order, n))
  {
    PredictedBelow(t, order, n);
    forall c
      ensures c in PredictedChildren(t, order, n) <==> IsTopBelow(t, n, c)
    {
      if c in t {
        assert LinksOk(t, c);
        SameParentIsTop(t, n, c);
        assert n <= c ==> n < c by {
          assert |n| == |c| && n <= c ==> n == c;
        }
      }
    }
  }

  lemma PrefixAntisymmetric(a: Name, b: Name)
    requires a <= b && b <= a
    ensures a == b
  {
  }

  /** Below a name not in the table, the entries with the parent it would have are the top ones. */
  lemma SameParentIsTop(t: Table, n: Name, c: Name)
    requires c in t && n !in t
    ensures n < c && FindParent(t.Keys, c) == FindParent(t.Keys, n) <==> IsTopBelow(t, n, c)
  {
    var p, q := FindParent(t.Keys, c), FindParent(t.Keys, n);
    if n < c && p == q {
      forall m | m in t && n < m
        ensures !(m < c)
      {
        ParentIsDeepest(t.Keys, c, m);
      }
    }
    if IsTopBelow(t, n, c) {
      if p.Some? {
        PrefixesComparable(p.value, n, c);
        PrefixesComparable(n, p.value, c);
        assert !(n < p.value);
        assert p.value <= n;
        assert n <= p.value ==> p.value == n by {
          if n <= p.value { PrefixAntisymmetric(p.value, n); }
        }
        ParentIsDeepest(t.Keys, n, p.value);
      }
      if q.Some? {
        ParentIsDeepest(t.Keys, c, q.value);
      }
      if p.Some? && q.Some? {
        PrefixAntisymmetric(p.value, q.value);
      }
    }
  }

  function NewAdd(t: Table, n: Name, r: Route): (s: RouteSet)
    requires Shape(t)
    ensures ByFace(s)
  {
    var ancestors := AncestorRoutes(t, FindParent(t.Keys, n));
    if !r.IsChildInherit() then [] else if r.IsCapture() then [r] else Insert(EraseFace(ancestors, r.faceId), r)
  }

  function NewRemove(t: Table, n: Name, r: Route): (s: RouteSet)
    requires Shape(t)
    ensures ByFace(s)
  {
    if r.IsCapture() then AncestorRoutes(t, FindParent(t.Keys, n)) else []
  }

  function NewInherit(t: Table, n: Name, r: Route): seq<Event>
    requires Shape(t)
  {
    if r.IsCapture() then [] else AddInheritedIgnoring(n, AncestorRoutes(t, FindParent(t.Keys, n)), r.faceId)
  }

  ghost function NewBelow(t: Table, n: Name, r: Route, children: seq<Name>): seq<Event>
    requires Shape(t) && forall c :: c in children ==> c in t && n < c
  {
    if !r.IsChildInherit() && !r.IsCapture() then []
    else ChildrenLog(t, n, children, NewAdd(t, n, r), NewRemove(t, n, r))
  }

  lemma NewEntryParts(t: Table, n: Name, r: Route, children: seq<Name>)
    requires Shape(t) && forall c :: c in children ==> c in t && n < c
    ensures NewEntryLog(t, n, r, children)
                == [Event(n, r, true, false)] + (NewInherit(t, n, r) + NewBelow(t, n, r, children))
  {
    var inherit, below := NewInherit(t, n, r), NewBelow(t, n, r, children);
    assert r.IsCapture() ==> inherit + below == below;
    assert below == [] ==> inherit + below == inherit;
  }

  lemma NewEntryAt(t: Table, n: Name, r: Route, children: seq<Name>, d: Name, face: nat)
    requires Shape(t) && CountsOk(t) && Frontier(t, n, children)
    ensures forall c :: c in children ==> c in t && n < c
    ensures var a := Ancestor(RoutesOf(t), n, face);
            EventsAt(NewEntryLog(t, n, r, children), d, face)
            == if d == n then
                 if face == r.faceId then [Event(n, r, true, false)]
                 else if !r.IsCapture() && a.Some? then [Event(n, a.value, true, true)] else []
               else if n < d then ReachedAt(t, |n| + 1, d, face, NewAdd(t, n, r), NewRemove(t, n, r))
               else []
  {
    ChildrenAt(t, n, children, NewAdd(t, n, r), NewRemove(t, n, r), d, face);
    NewEntryParts(t, n, r, children);
    var self, inherit, below := [Event(n, r, true, false)], NewInherit(t, n, r), NewBelow(t, n, r, children);
    assert self[1..] == [];
    EventsAtConcat(self, inherit + below, d, face);
    EventsAtConcat(inherit, below, d, face);
    NewInheritAt(t, n, r, d, face);
  }

  lemma NewInheritAt(t: Table, n: Name, r: Route, d: Name, face: nat)
    requires Shape(t) && CountsOk(t)
    ensures var a := Ancestor(RoutesOf(t), n, face);
            EventsAt(NewInherit(t, n, r), d, face)
            == if d == n && face != r.faceId && !r.IsCapture() && a.Some? then [Event(n, a.value, true, true)] else []
  {
    AncestorRoutesExact(t, n, face);
    IgnoringAt(n, AncestorRoutes(t, FindParent(t.Keys, n)), r.faceId, d, face);
  }

  lemma NewSetsFollow(t: Table, t1: Table, n: Name, r: Route, face: nat)
    requires Shape(t) && CountsOk(t) && n !in t && n in t1 && t1[n].routes == [r]
    requires DifferAtMost(RoutesOf(t), RoutesOf(t1), n)
    ensures SetsFollow(RoutesOf(t), RoutesOf(t1), n, face, NewAdd(t, n, r), NewRemove(t, n, r))
  {
    var m, m' := RoutesOf(t), RoutesOf(t1);
    AncestorFrame(m, m', n, n, face);
    OneRoute([r], face);
    assert m'[n] == [r];
    NewSetsAt(t, n, r, face);
  }

  lemma NewSetsAt(t: Table, n: Name, r: Route, face: nat)
    requires Shape(t) && CountsOk(t)
    ensures var a := Ancestor(RoutesOf(t), n, face);
            && Lookup(NewAdd(t, n, r), face)
               == (if !r.IsChildInherit() then None else if face == r.faceId then Some(r)
                   else if r.IsCapture() then None else a)
            && Lookup(NewRemove(t, n, r), face) == if r.IsCapture() then a else None
  {
    var ancestors := AncestorRoutes(t, FindParent(t.Keys, n));
    AncestorRoutesExact(t, n, face);
    LookupErase(ancestors, r.faceId, face);
    LookupInsert(EraseFace(ancestors, r.faceId), r, face);
  }

  lemma NewPoint(t: Table, t1: Table, log: seq<Event>, n: Name, r: Route, children: seq<Name>, d: Name, face: nat)
    requires Shape(t) && CountsOk(t) && Single(t) && RecordsOk(t) && n !in t
    requires Frontier(t, n, children) && (forall c :: c in children ==> c in t && n < c)
    requires Inserted(t, n, r, t1) && DifferAtMost(RoutesOf(t), RoutesOf(t1), n)
    requires log == NewEntryLog(t, n, r, children)
    ensures PointGood(t, t1, log, d, face)
  {
    NewEntryAt(t, n, r, children, d, face);
    if n < d {
      NewSetsFollow(t, t1, n, r, face);
      PointBelow(t, t1, log, n, NewAdd(t, n, r), NewRemove(t, n, r), d, face);
    } else if d == n {
      NewSelfPoint(t, t1, log, n, r, face);
    } else {
      PointSilent(t, t1, log, n, d, face);
    }
  }

  lemma NewSelfPoint(t: Table, t1: Table, log: seq<Event>, n: Name, r: Route, face: nat)
    requires Shape(t) && RecordsOk(t) && n !in t && n in t1 && t1[n].routes == [r] && t1[n].inherited == []
    requires DifferAtMost(RoutesOf(t), RoutesOf(t1), n)
    requires var a := Ancestor(RoutesOf(t), n, face);
             EventsAt(log, n, face)
             == if face == r.faceId then [Event(n, r, true, false)]
                else if !r.IsCapture() && a.Some? then [Event(n, a.value, true, true)] else []
    ensures PointGood(t, t1, log, n, face)
  {
    OneRoute([r], face);
    AncestorFrame(RoutesOf(t), RoutesOf(t1), n, n, face);
    assert RoutesOf(t1)[n] == [r];
    RecordedShort(EventsAt(log, n, face));
    FitsShort(false, Recorded(EventsAt(log, n, face)));
  }

  lemma NewEntryStep(s: State, order: seq<Name>, u: RibUpdate, t1: Table)
    requires Inv(s) && OrderOf(s.table, order) && u.action == REGISTER && u.name !in s.table
    requires Mutated(s.table, u, t1)
    ensures var log := ComputeLog(s.table, order, u);
            AllApplicable(t1, Records(log)) && Inv(Next(s, log, u, t1))
  {
    var t, n, r := s.table, u.name, u.route;
    var log := ComputeLog(t, order, u);
    var children := PredictedChildren(t, order, n);
    CountOne(t);
    PredictedFrontier(t, order, n);
    NewStructure(t, n, r, t1);
    PredictedBelow(t, order, n);
    assert PointsGood(t, t1, log) by {
      forall d, f
        ensures PointGood(t, t1, log, d, f)
      {
        NewPoint(t, t1, log, n, r, children, d, f);
      }
    }
    PointsMakeStep(s, u, log, t1);
  }

  lemma NewStructure(t: Table, n: Name, r: Route, t1: Table)
    requires Single(t) && CountsExact(t) && n !in t && Inserted(t, n, r, t1)
    ensures Single(t1) && CountsExact(t1) && DifferAtMost(RoutesOf(t), RoutesOf(t1), n)
  {
    CountOne(t);
    CountOne(t1);
    forall d | d in t1
      ensures |t1[d].routes| == 1
    {
    }
  }

  // ----- re-registration -----

  function UpdateAdd(t: Table, n: Name, r: Route, old': Route): (s: RouteSet)
    requires Shape(t)
    ensures ByFace(s)
  {
    var blocked := Lookup(AncestorRoutes(t, FindParent(t.Keys, n)), r.faceId);
    if r.IsChildInherit() && (!old'.IsChildInherit() || (r.cost != old'.cost && r.flags == old'.flags)) then [r]
    else if old'.IsChildInherit() && !r.IsChildInherit() && blocked.Some? then [blocked.value]
    else []
  }

  function UpdateRemove(r: Route, old': Route): RouteSet {
    if old'.IsChildInherit() && !r.IsChildInherit() then [r] else []
  }

  /** The ways a re-registration misleads the entries that take its face from here. With the
      capture flag unchanged: child inheritance is switched off at a capturing entry whose
      ancestors offer the face, or a cost change comes with a change of some other flag bit and is
      not passed on. With capture switched on, a route still offered is removed below when an
      ancestor offers the face, and keeps its former cost otherwise. With capture switched off,
      the ancestor's route on the face replaces the route still offered. */
  ghost predicate Misleads(t: Table, n: Name, r: Route, old': Route) {
    MisleadsBy(r, old', Ancestor(RoutesOf(t), n, r.faceId))
  }

  predicate MisleadsBy(r: Route, old': Route, a: Option<Route>) {
    var offered := old'.IsChildInherit() && r.IsChildInherit() && r.cost != old'.cost;
    if r.IsCapture() == old'.IsCapture() then
      (old'.IsChildInherit() && !r.IsChildInherit() && old'.IsCapture() && a.Some?)
          || (offered && r.flags != old'.flags)
    else if r.IsCapture() then (r.IsChildInherit() && a.Some?) || offered
    else if a.Some? then r.IsChildInherit() && a.value.cost != r.cost
    else offered
  }

  lemma UpdatedEntry(t: Table, n: Name, r: Route)
    requires Shape(t) && Single(t) && n in t && Matches(t[n].routes[0], r)
    ensures FindRoute(t[n].routes, r) == 0 && WithUpdatedRoute(t[n], 0, r).routes == [r]
    ensures t[n].parent == FindParent(t.Keys, n)
    ensures Frontier(t, n, t[n].children) && (forall c :: c in t[n].children ==> c in t && n < c)
  {
    assert WithUpdatedRoute(t[n], 0, r).routes == [r];
    assert LinksOk(t, n);
    FrontierOfEntry(t, n);
    LinksInside(t, n);
  }

  lemma UpdatedAt(t: Table, n: Name, r: Route, d: Name, face: nat)
    requires Shape(t) && CountsOk(t) && Single(t) && n in t
    requires Matches(t[n].routes[0], r) && r.IsCapture() == t[n].routes[0].IsCapture()
    ensures FindRoute(t[n].routes, r) == 0 && WithUpdatedRoute(t[n], 0, r).routes == [r]
    ensures UpdateDefined(WithUpdatedRoute(t[n], 0, r).routes, r, t[n].routes[0])
    ensures HasFace([r], r.faceId)
    ensures var old' := t[n].routes[0];
            EventsAt(UpdatedRouteLog(t, n, WithUpdatedRoute(t[n], 0, r), r, old'), d, face)
            == if d == n && face == r.faceId && r.cost != old'.cost then [Event(n, r, true, false)]
               else if n < d then ReachedAt(t, |n| + 1, d, face, UpdateAdd(t, n, r, old'), UpdateRemove(r, old'))
               else []
  {
    UpdatedEntry(t, n, r);
    OneRoute([r], r.faceId);
    UpdatedEventsAt(t, n, r, WithUpdatedRoute(t[n], 0, r), d, face);
  }

  lemma UpdatedEventsAt(t: Table, n: Name, r: Route, e: EntryView, d: Name, face: nat)
    requires Shape(t) && Single(t) && n in t && e.parent == t[n].parent && e.children == t[n].children
    requires e.routes == [r]
    requires (forall c :: c in e.children ==> c in t && n < c) && t[n].parent == FindParent(t.Keys, n)
    requires Frontier(t, n, e.children) && r.IsCapture() == t[n].routes[0].IsCapture()
    ensures HasFace(e.routes, r.faceId) && UpdateDefined(e.routes, r, t[n].routes[0])
    ensures var old' := t[n].routes[0];
            EventsAt(UpdatedRouteLog(t, n, e, r, old'), d, face)
            == if d == n && face == r.faceId && r.cost != old'.cost then [Event(n, r, true, false)]
               else if n < d then ReachedAt(t, |n| + 1, d, face, UpdateAdd(t, n, r, old'), UpdateRemove(r, old'))
               else []
  {
    var old' := t[n].routes[0];
    var add, rem := UpdateAdd(t, n, r, old'), UpdateRemove(r, old');
    var below := if add == [] && rem == [] then [] else ChildrenLog(t, n, e.children, add, rem);
    UpdatedParts(t, n, r, e, old');
    BelowAt(t, n, e.children, add, rem, below, d, face);
    SelfThenBelow(n, r, r.cost != old'.cost, below, d, face);
  }

  lemma SelfThenBelow(n: Name, r: Route, changed: bool, below: seq<Event>, d: Name, face: nat)
    ensures EventsAt((if changed then [Event(n, r, true, false)] else []) + below, d, face)
            == (if changed && d == n && face == r.faceId then [Event(n, r, true, false)] else [])
                + EventsAt(below, d, face)
  {
    var self := if changed then [Event(n, r, true, false)] else [];
    EventsAtConcat(self, below, d, face);
    assert self != [] ==> self[1..] == [];
  }

  lemma BelowAt(t: Table, n: Name, names: seq<Name>, add: RouteSet, rem: RouteSet, below: seq<Event>, d: Name,
                face: nat)
    requires Shape(t) && Frontier(t, n, names) && ByFace(add) && ByFace(rem)
    requires forall c :: c in names ==> c in t && n < c
    requires below == if add == [] && rem == [] then [] else ChildrenLog(t, n, names, add, rem)
    ensures EventsAt(below, d, face) == if n < d then ReachedAt(t, |n| + 1, d, face, add, rem) else []
  {
    if add != [] || rem != [] {
      ChildrenAt(t, n, names, add, rem, d, face);
    }
  }

  lemma CostPart(n: Name, e: EntryView, r: Route, old': Route)
    requires e.routes == [r]
    ensures HasFace(e.routes, r.faceId) && UpdateDefined(e.routes, r, old')
    ensures CostChangeLog(n, e, r, old') == if r.cost != old'.cost then [Event(n, r, true, false)] else []
  {
    OneRoute([r], r.faceId);
  }

  lemma InheritPart(t: Table, n: Name, r: Route, e: EntryView, old': Route)
    requires Shape(t) && n in t && e.parent == t[n].parent && e.children == t[n].children && e.routes == [r]
    requires (forall c :: c in e.children ==> c in t && n < c) && t[n].parent == FindParent(t.Keys, n)
    requires r.cost == old'.cost || r.flags != old'.flags || !r.IsChildInherit()
    ensures var add, rem := UpdateAdd(t, n, r, old'), UpdateRemove(r, old');
            InheritChangeLog(t, n, e, r, old') == if add == [] && rem == [] then []
                else ChildrenLog(t, n, e.children, add, rem)
  {
    OneRoute([r], r.faceId);
  }

  lemma BelowPart(t: Table, n: Name, r: Route, e: EntryView, old': Route)
    requires Shape(t) && n in t && e.parent == t[n].parent && e.children == t[n].children && e.routes == [r]
    requires (forall c :: c in e.children ==> c in t && n < c) && t[n].parent == FindParent(t.Keys, n)
    requires r.IsCapture() == old'.IsCapture()
    ensures var add, rem := UpdateAdd(t, n, r, old'), UpdateRemove(r, old');
            UpdatedBelowLog(t, n, e, r, old') == if add == [] && rem == [] then []
                else ChildrenLog(t, n, e.children, add, rem)
  {
    OneRoute([r], r.faceId);
    if r.cost == old'.cost || r.flags != old'.flags || !r.IsChildInherit() {
      InheritPart(t, n, r, e, old');
      assert CaptureChangeLog(t, n, e, r, old') == [];
      assert InheritChangeLog(t, n, e, r, old') + [] == InheritChangeLog(t, n, e, r, old');
    }
  }

  lemma UpdatedParts(t: Table, n: Name, r: Route, e: EntryView, old': Route)
    requires Shape(t) && n in t && e.parent == t[n].parent && e.children == t[n].children && e.routes == [r]
    requires (forall c :: c in e.children ==> c in t && n < c) && t[n].parent == FindParent(t.Keys, n)
    requires r.IsCapture() == old'.IsCapture()
    ensures HasFace(e.routes, r.faceId) && UpdateDefined(e.routes, r, old')
    ensures var add, rem := UpdateAdd(t, n, r, old'), UpdateRemove(r, old');
            UpdatedRouteLog(t, n, e, r, old')
            == (if r.cost != old'.cost then [Event(n, r, true, false)] else [])
               + (if add == [] && rem == [] then [] else ChildrenLog(t, n, e.children, add, rem))
  {
    CostPart(n, e, r, old');
    BelowPart(t, n, r, e, old');
  }

  lemma UpdateSetsFollow(t: Table, t1: Table, n: Name, r: Route, face: nat)
    requires Shape(t) && CountsOk(t) && Single(t) && n in t && n in t1 && t1[n].routes == [r]
    requires Matches(t[n].routes[0], r) && r.IsCapture() == t[n].routes[0].IsCapture()
    requires DifferAtMost(RoutesOf(t), RoutesOf(t1), n)
    requires face == r.faceId ==> !Misleads(t, n, r, t[n].routes[0])
    ensures var old' := t[n].routes[0];
            SetsFollow(RoutesOf(t), RoutesOf(t1), n, face, UpdateAdd(t, n, r, old'), UpdateRemove(r, old'))
  {
    var m, m' := RoutesOf(t), RoutesOf(t1);
    AncestorFrame(m, m', n, n, face);
    OneRoute([r], face);
    OneRoute(t[n].routes, face);
    AncestorRoutesExact(t, n, face);
    AncestorRoutesExact(t, n, r.faceId);
    assert m'[n] == [r] && m[n] == t[n].routes;
  }

  lemma UpdatePoint(t: Table, t1: Table, log: seq<Event>, n: Name, r: Route, d: Name, face: nat)
    requires Shape(t) && CountsOk(t) && Single(t) && RecordsOk(t) && n in t
    requires Matches(t[n].routes[0], r) && r.IsCapture() == t[n].routes[0].IsCapture()
    requires Inserted(t, n, r, t1) && DifferAtMost(RoutesOf(t), RoutesOf(t1), n) && t1[n].routes == [r]
    requires Misleads(t, n, r, t[n].routes[0]) ==> !Takes(t, n, d, r.faceId)
    requires EventsAt(log, d, face)
             == (UpdatedAt(t, n, r, d, face);
                 EventsAt(UpdatedRouteLog(t, n, WithUpdatedRoute(t[n], 0, r), r, t[n].routes[0]), d, face))
    ensures PointGood(t, t1, log, d, face)
  {
    UpdatedAt(t, n, r, d, face);
    if n < d {
      if Takes(t, n, d, face) {
        UpdateSetsFollow(t, t1, n, r, face);
      }
      PointBelow(t, t1, log, n, UpdateAdd(t, n, r, t[n].routes[0]), UpdateRemove(r, t[n].routes[0]), d, face);
    } else if d == n {
      UpdateSelf(t, t1, log, n, r, face);
    } else {
      PointSilent(t, t1, log, n, d, face);
    }
  }

  lemma UpdateSelf(t: Table, t1: Table, log: seq<Event>, n: Name, r: Route, face: nat)
    requires RecordsOk(t) && n in t && |t[n].routes| == 1
    requires Matches(t[n].routes[0], r) && r.IsCapture() == t[n].routes[0].IsCapture()
    requires n in t1 && t1[n].routes == [r] && t1[n].inherited == t[n].inherited
    requires DifferAtMost(RoutesOf(t), RoutesOf(t1), n)
    requires EventsAt(log, n, face)
                 == if face == r.faceId && r.cost != t[n].routes[0].cost then [Event(n, r, true, false)] else []
    ensures PointGood(t, t1, log, n, face)
  {
    var m, m' := RoutesOf(t), RoutesOf(t1);
    OneRoute([r], face);
    OneRoute(t[n].routes, face);
    AncestorFrame(m, m', n, n, face);
    assert m'[n] == [r] && m[n] == t[n].routes;
    assert Inherits(m, n, face) ==> t[n].HasInherited(face);
    assert t[n].HasInherited(face) ==> !HasFace(t[n].routes, face);
    RecordedShort(EventsAt(log, n, face));
  }
}
