/** The FIB updater as an object: its pending lists and inherited-route records, changed in
    place, against the log functions of FibCompute. */
module FibUpdaters {
  import opened Names
  import opened Options
  import opened Sequences
  import opened RibModel
  import opened EffectiveNextHops
  import opened FibDelta
  import opened FibCompute
  import opened FibRefinement
  import opened RibShape
  import opened RibEntries
  import opened RibTable
  import opened Sending = FibSending

  lemma {:induction false} RecordsConcat(a: seq<FibDelta.Event>, b: seq<FibDelta.Event>)
    ensures Records(a + b) == Records(a) + Records(b)
  {
    if a == [] {
      assert a + b == b;
    } else {
      RecordsConcat(a[1..], b);
      assert (a + b)[0] == a[0] && (a + b)[1..] == a[1..] + b;
      Associative(if a[0].recorded then [RibUpdate(if a[0].add then REGISTER else UNREGISTER, a[0].name, a[0].route)]
          else [],
                  Records(a[1..]), Records(b));
    }
  }

  lemma LogStep(log: seq<FibDelta.Event>, ev: FibDelta.Event, face: nat)
    ensures Records(log + [ev])
            == Records(log) + if ev.recorded
                then [RibUpdate(if ev.add then REGISTER else UNREGISTER, ev.name, ev.route)] else []
    ensures forall batch :: Pending(log + [ev], face, batch)
              == if (ev.route.faceId == face) == batch then AddFibUpdate(Pending(log, face, batch), ToFibUpdate(ev))
                 else Pending(log, face, batch)
  {
    RecordsConcat(log, [ev]);
    assert [ev][1..] == [];
    assert (log + [ev])[..|log|] == log;
  }

  lemma {:induction false} AddSplit(front: seq<FibUpdate>, back: seq<FibUpdate>, u: FibUpdate)
    requires forall v :: v in front ==> !SameKey(v, u)
    ensures AddFibUpdate(front + back, u) == front + AddFibUpdate(back, u)
  {
    if front == [] {
      assert front + back == back;
    } else {
      AddSplit(front[1..], back, u);
      assert (front + back)[1..] == front[1..] + back;
    }
  }

  class FibUpdater {
    const rib: Rib
    var batchFaceId: nat
    var updatesForBatchFaceId: seq<FibUpdate>
    var updatesForNonBatchFaceId: seq<FibUpdate>
    var inheritedRoutes: seq<RibUpdate>
    ghost var log: seq<FibDelta.Event>

    /** The pending lists and the records are those of the log. */
    ghost predicate Tracks()
      reads this
    {
      && updatesForBatchFaceId == Pending(log, batchFaceId, true)
      && updatesForNonBatchFaceId == Pending(log, batchFaceId, false)
      && inheritedRoutes == Records(log)
    }

    constructor (rib: Rib)
      ensures this.rib == rib && Tracks() && log == []
    {
      this.rib := rib;
      batchFaceId := 0;
      updatesForBatchFaceId, updatesForNonBatchFaceId, inheritedRoutes, log := [], [], [], [];
    }

    /** Replaces the pending update for the same name and face, or appends. */
    method Place(list: seq<FibUpdate>, u: FibUpdate) returns (l: seq<FibUpdate>)
      ensures l == AddFibUpdate(list, u)
    {
      for i := 0 to |list|
        invariant forall v :: v in list[..i] ==> !SameKey(v, u)
      {
        if SameKey(list[i], u) {
          l := list[i := u];
          AddSplit(list[..i], list[i..], u);
          assert list[..i] + list[i..] == list;
          assert list[i..][1..] == list[i + 1..];
          assert l == list[..i] + ([u] + list[i + 1..]);
          return;
        }
        assert list[..i + 1] == list[..i] + [list[i]];
      }
      l := list + [u];
      AddSplit(list, [], u);
      assert list[..|list|] == list && list + [] == list;
    }

    method AddFibUpdateFor(u: FibUpdate)
      modifies this`updatesForBatchFaceId, this`updatesForNonBatchFaceId
      ensures updatesForBatchFaceId
              == if u.faceId == batchFaceId then AddFibUpdate(old(updatesForBatchFaceId), u)
                  else old(updatesForBatchFaceId)
      ensures updatesForNonBatchFaceId
              == if u.faceId == batchFaceId then old(updatesForNonBatchFaceId)
                  else AddFibUpdate(old(updatesForNonBatchFaceId), u)
    {
      if u.faceId == batchFaceId {
        updatesForBatchFaceId := Place(updatesForBatchFaceId, u);
      } else {
        updatesForNonBatchFaceId := Place(updatesForNonBatchFaceId, u);
      }
    }

    /** One next-hop change, with its record if `recorded`. */
    method Change(name: Name, route: Route, add: bool, recorded: bool)
      requires Tracks()
      modifies this`updatesForBatchFaceId, this`updatesForNonBatchFaceId, this`inheritedRoutes, this`log
      ensures Tracks() && log == old(log) + [FibDelta.Event(name, route, add, recorded)]
    {
      ghost var ev := FibDelta.Event(name, route, add, recorded);
      if recorded {
        inheritedRoutes := inheritedRoutes + [RibUpdate(if add then REGISTER else UNREGISTER, name, route)];
      }
      AddFibUpdateFor(FibUpdate(name, route.faceId, if add then route.cost else 0, add));
      LogStep(log, ev, batchFaceId);
      log := log + [ev];
    }

    method AddInheritedRoutes(entry: RibEntry, s: RouteSet)
      requires Tracks()
      modifies this`updatesForBatchFaceId, this`updatesForNonBatchFaceId, this`inheritedRoutes, this`log
      ensures Tracks() && log == old(log) + AddInheritedLog(entry.name, entry.View(), s)
    {
      for i := 0 to |s|
        invariant Tracks()
        invariant log + AddInheritedLog(entry.name, entry.View(), s[i..])
                  == old(log) + AddInheritedLog(entry.name, entry.View(), s)
      {
        AddStep(log, entry.name, entry.View(), s, i);
        if !HasFaceId(entry.routes, s[i].faceId) {
          Change(entry.name, s[i], true, true);
        }
      }
      assert s[|s|..] == [];
    }

    method AddInheritedRoutesIgnoring(name: Name, s: RouteSet, ignore: nat)
      requires Tracks()
      modifies this`updatesForBatchFaceId, this`updatesForNonBatchFaceId, this`inheritedRoutes, this`log
      ensures Tracks() && log == old(log) + AddInheritedIgnoring(name, s, ignore)
    {
      for i := 0 to |s|
        invariant Tracks()
        invariant log + AddInheritedIgnoring(name, s[i..], ignore) == old(log) + AddInheritedIgnoring(name, s, ignore)
      {
        assert s[i..][0] == s[i] && s[i..][1..] == s[i + 1..];
        if s[i].faceId != ignore {
          Change(name, s[i], true, true);
        }
      }
      assert s[|s|..] == [];
    }

    method RemoveInheritedRoutes(entry: RibEntry, s: RouteSet)
      requires Tracks()
      modifies this`updatesForBatchFaceId, this`updatesForNonBatchFaceId, this`inheritedRoutes, this`log
      ensures Tracks() && log == old(log) + RemoveInheritedLog(entry.name, entry.View(), s)
    {
      for i := 0 to |s|
        invariant Tracks()
        invariant log + RemoveInheritedLog(entry.name, entry.View(), s[i..])
                  == old(log) + RemoveInheritedLog(entry.name, entry.View(), s)
      {
        RemoveStep(log, entry.name, entry.View(), s, i);
        if HasFaceId(entry.inheritedRoutes, s[i].faceId) {
          Change(entry.name, s[i], false, true);
        }
      }
      assert s[|s|..] == [];
    }

    // ----- the subtree walk -----

    /** The RIB reads as `t` while the updater works. */
    ghost predicate Reads(t: Table)
      reads rib`entries, rib.entries.Values
    {
      rib.Linked() && Shape(t) && t == rib.View()
    }

    method TraverseSubTree(entry: RibEntry, add: RouteSet, rem: RouteSet, ghost t: Table, ghost bound: nat)
      requires Tracks() && Reads(t) && Bounded(t, bound) && rib.InTable(entry) && entry.name in t
      modifies this`updatesForBatchFaceId, this`updatesForNonBatchFaceId, this`inheritedRoutes, this`log
      ensures Tracks() && log == old(log) + Walk(t, bound, entry.name, add, rem)
      decreases bound - |entry.name|, 1, 0
    {
      rib.ChildrenReachable(entry);
      if entry.HasCapture() {
        return;
      }
      var routesToRemove := Pass(entry, rem, false);
      var routesToAdd := Pass(entry, add, true);
      ModifyChildrensInheritedRoutes(entry.name, entry.children, routesToAdd, routesToRemove, t, bound);
      assert NamesOf(entry.children) == t[entry.name].children;
      WalkParts(t, bound, entry.name, add, rem, old(log));
    }

    /** One of the two loops of the walk over an entry: the set shrinks while it is walked. */
    method Pass(entry: RibEntry, s: RouteSet, add: bool) returns (kept: RouteSet)
      requires Tracks()
      modifies this`updatesForBatchFaceId, this`updatesForNonBatchFaceId, this`inheritedRoutes, this`log
      ensures kept == Keep(entry.View(), s)
      ensures Tracks() && log == old(log) + Emit(entry.name, entry.View(), s, add)
    {
      ghost var e := entry.View();
      kept := s;
      var i := 0;
      while i < |kept|
        invariant 0 <= i <= |kept| && Tracks()
        invariant kept[..i] + Keep(e, kept[i..]) == Keep(e, s)
        invariant log + Emit(entry.name, e, kept[i..], add) == old(log) + Emit(entry.name, e, s, add)
        decreases |kept| - i
      {
        PassNext(kept, i, entry.name, e, add, log);
        kept, i := PassAt(entry, kept, i, add);
      }
      assert kept[..i] == kept && kept[i..] == [];
    }

    method PassAt(entry: RibEntry, s: RouteSet, i: nat, add: bool) returns (kept: RouteSet, next: nat)
      requires Tracks() && i < |s|
      modifies this`updatesForBatchFaceId, this`updatesForNonBatchFaceId, this`inheritedRoutes, this`log
      ensures Tracks()
      ensures var blocked := HasChildInherit(entry.routes, s[i].faceId);
              && (kept, next) == (if blocked then (s[..i] + s[i + 1..], i) else (s, i + 1))
              && log == old(log) + if !blocked && Emits(entry.View(), s[i], add)
                  then [FibDelta.Event(entry.name, s[i], add, true)] else []
    {
      var blocked := entry.HasChildInheritOnFaceId(s[i].faceId);
      if blocked {
        return s[..i] + s[i + 1..], i;
      }
      EmitOne(entry, s[i], add);
      return s, i + 1;
    }

    method EmitOne(entry: RibEntry, r: Route, add: bool)
      requires Tracks()
      modifies this`updatesForBatchFaceId, this`updatesForNonBatchFaceId, this`inheritedRoutes, this`log
      ensures Tracks() && log == old(log)
                  + if Emits(entry.View(), r, add) then [FibDelta.Event(entry.name, r, add, true)] else []
    {
      if add {
        // Only add the route if it does not override one of the entry's own.
        if !HasFaceId(entry.routes, r.faceId) {
          Change(entry.name, r, true, true);
        }
      } else {
        // Only remove a route the entry has inherited.
        if HasFaceId(entry.inheritedRoutes, r.faceId) {
          Change(entry.name, r, false, true);
        }
      }
    }

    method ModifyChildrensInheritedRoutes(ghost n: Name, children: seq<RibEntry>, add: RouteSet, rem: RouteSet,
                                          ghost t: Table, ghost bound: nat)
      requires Tracks() && Reads(t) && Bounded(t, bound)
      requires forall i :: 0 <= i < |children| ==> rib.InTable(children[i]) && n < children[i].name
      modifies this`updatesForBatchFaceId, this`updatesForNonBatchFaceId, this`inheritedRoutes, this`log
      ensures forall c :: c in NamesOf(children) ==> c in t && n < c
      ensures Tracks() && log == old(log) + WalkList(t, bound, n, NamesOf(children), add, rem)
      decreases bound - |n|, 0, |children|
    {
      ghost var names := NamesOf(children);
      assert Descend(t, n, names);
      WalkFromEnds(t, bound, n, names, add, rem);
      for i := 0 to |children|
        invariant Tracks() && Reads(t)
        invariant log + WalkFrom(t, bound, n, names, i, add, rem)
                      == old(log) + WalkFrom(t, bound, n, names, 0, add, rem)
      {
        WalkChild(n, children[i], names, i, add, rem, t, bound);
      }
    }

    method WalkChild(ghost n: Name, child: RibEntry, ghost names: seq<Name>, ghost i: nat, add: RouteSet, rem: RouteSet,
                     ghost t: Table, ghost bound: nat)
      requires Tracks() && Reads(t) && Bounded(t, bound) && rib.InTable(child) && n < child.name
      requires Descend(t, n, names) && i < |names| && names[i] == child.name
      modifies this`updatesForBatchFaceId, this`updatesForNonBatchFaceId, this`inheritedRoutes, this`log
      ensures Tracks() && Reads(t)
      ensures log + WalkFrom(t, bound, n, names, i + 1, add, rem)
                  == old(log) + WalkFrom(t, bound, n, names, i, add, rem)
      decreases bound - |n|, 0, 0
    {
      ListStep(t, bound, n, names, i, add, rem, log);
      TraverseSubTree(child, add, rem, t, bound);
    }

    // ----- what one update computes -----

    /** An entry of the RIB, or the updater's own copy of one. */
    ghost predicate Stands(entry: RibEntry, t: Table)
      requires Reads(t)
      reads rib`entries, rib.entries.Values, entry
    {
      && entry.name in rib.entries && entry.name in t
      && entry.children == rib.entries[entry.name].children && entry.parent == rib.entries[entry.name].parent
    }

    lemma StandsLinks(entry: RibEntry, t: Table)
      requires Reads(t) && Stands(entry, t)
      ensures entry.View().parent == t[entry.name].parent && entry.View().children == t[entry.name].children
      ensures entry.parent != null ==> rib.InTable(entry.parent)
      ensures entry.View().parent.Some? ==> entry.View().parent.value in t
      ensures forall i :: 0 <= i < |entry.children| ==>
                  rib.InTable(entry.children[i]) && entry.name < entry.children[i].name
      ensures forall c :: c in entry.View().children ==> c in t && entry.name < c
    {
      rib.ChildrenReachable(rib.entries[entry.name]);
      LinksInside(t, entry.name);
    }

    method ModifyChildren(entry: RibEntry, add: RouteSet, rem: RouteSet, ghost t: Table)
      requires Tracks() && Reads(t) && Stands(entry, t)
      modifies this`updatesForBatchFaceId, this`updatesForNonBatchFaceId, this`inheritedRoutes, this`log
      ensures forall c :: c in entry.View().children ==> c in t && entry.name < c
      ensures Tracks() && log == old(log) + ChildrenLog(t, entry.name, entry.View().children, add, rem)
    {
      StandsLinks(entry, t);
      ModifyChildrensInheritedRoutes(entry.name, entry.children, add, rem, t, BoundOf(t));
    }

    method Ancestors(entry: RibEntry, ghost t: Table) returns (routes: RouteSet)
      requires Reads(t) && Stands(entry, t)
      ensures entry.View().parent.Some? ==> entry.View().parent.value in t
      ensures routes == AncestorRoutes(t, entry.View().parent)
    {
      StandsLinks(entry, t);
      routes := rib.GetAncestorRoutes(entry.parent);
    }

    ghost predicate Below(name: Name, children: seq<RibEntry>, t: Table)
      requires Reads(t)
      reads rib`entries, rib.entries.Values
    {
      forall i :: 0 <= i < |children| ==> rib.InTable(children[i]) && name < children[i].name && children[i].name in t
    }

    method ModifyFutureChildren(name: Name, children: seq<RibEntry>, add: RouteSet, rem: RouteSet, ghost t: Table)
      requires Tracks() && Reads(t) && Below(name, children, t)
      modifies this`updatesForBatchFaceId, this`updatesForNonBatchFaceId, this`inheritedRoutes, this`log
      ensures forall c :: c in NamesOf(children) ==> c in t && name < c
      ensures Tracks() && log == old(log) + ChildrenLog(t, name, NamesOf(children), add, rem)
    {
      ModifyChildrensInheritedRoutes(name, children, add, rem, t, BoundOf(t));
    }

    method AncestorsOfName(name: Name, ghost t: Table) returns (routes: RouteSet)
      requires Reads(t)
      ensures routes == AncestorRoutes(t, FindParent(t.Keys, name))
    {
      assert t.Keys == rib.entries.Keys;
      var parent := rib.FindParentEntry(name);
      routes := rib.GetAncestorRoutes(parent);
    }

    /** A new child-inherit entry takes its ancestors' routes and passes them and its own on. */
    method InheritAndPassOn(name: Name, route: Route, children: seq<RibEntry>, ancestors: RouteSet, ghost t: Table)
      requires Tracks() && Reads(t) && Below(name, children, t)
      requires forall c :: c in NamesOf(children) ==> c in t && name < c
      modifies this`updatesForBatchFaceId, this`updatesForNonBatchFaceId, this`inheritedRoutes, this`log
      ensures Tracks()
      ensures log == old(log) + (AddInheritedIgnoring(name, ancestors, route.faceId)
                                 + ChildrenLog(t, name, NamesOf(children),
                                               Insert(EraseFace(ancestors, route.faceId), route), []))
    {
      AddInheritedRoutesIgnoring(name, ancestors, route.faceId);
      var routesToAdd := EraseFace(ancestors, route.faceId);
      routesToAdd := Insert(routesToAdd, route);
      ModifyFutureChildren(name, children, routesToAdd, [], t);
      Associative(old(log), AddInheritedIgnoring(name, ancestors, route.faceId),
                  ChildrenLog(t, name, NamesOf(children), routesToAdd, []));
    }

    method CreateFibUpdatesForNewRibEntry(name: Name, route: Route, children: seq<RibEntry>, ghost t: Table)
      requires Tracks() && Reads(t) && Below(name, children, t)
      requires forall c :: c in NamesOf(children) ==> c in t && name < c
      modifies this`updatesForBatchFaceId, this`updatesForNonBatchFaceId, this`inheritedRoutes, this`log
      ensures Tracks() && log == old(log) + NewEntryLog(t, name, route, NamesOf(children))
    {
      var ancestorRoutes := AncestorsOfName(name, t);
      Change(name, route, true, false);
      InheritByFlags(name, route, children, ancestorRoutes, t);
      NewEntryGrouped(t, name, route, NamesOf(children), old(log));
    }

    /** The four combinations of the flags of a new name's route. */
    method InheritByFlags(name: Name, route: Route, children: seq<RibEntry>, ancestorRoutes: RouteSet, ghost t: Table)
      requires Tracks() && Reads(t) && Below(name, children, t)
      requires forall c :: c in NamesOf(children) ==> c in t && name < c
      requires ancestorRoutes == AncestorRoutes(t, FindParent(t.Keys, name))
      modifies this`updatesForBatchFaceId, this`updatesForNonBatchFaceId, this`inheritedRoutes, this`log
      ensures Tracks() && log == old(log) + NewEntryRest(t, name, route, NamesOf(children))
    {
      if !route.IsChildInherit() && !route.IsCapture() {
        AddInheritedRoutesIgnoring(name, ancestorRoutes, route.faceId);
      } else if route.IsChildInherit() && route.IsCapture() {
        ModifyFutureChildren(name, children, [route], ancestorRoutes, t);
      } else if route.IsChildInherit() {
        InheritAndPassOn(name, route, children, ancestorRoutes, t);
      } else {
        ModifyFutureChildren(name, children, [], ancestorRoutes, t);
      }
    }

    /** The routes a new route adds to the children, and those it takes off itself and them. */
    method NewRouteSets(entry: RibEntry, route: Route, captureWasTurnedOn: bool, ghost t: Table)
      returns (routesToAdd: RouteSet, routesToRemove: RouteSet)
      requires Tracks() && Reads(t) && Stands(entry, t)
      modifies this`updatesForBatchFaceId, this`updatesForNonBatchFaceId, this`inheritedRoutes, this`log
      ensures entry.View().parent.Some? ==> entry.View().parent.value in t
      ensures routesToAdd == NewRouteAdd(entry.View(), route)
      ensures routesToRemove == if captureWasTurnedOn then AncestorRoutes(t, entry.View().parent) else []
      ensures Tracks() && log == old(log) + RemoveInheritedLog(entry.name, entry.View(), routesToRemove)
    {
      var prevRoute := entry.GetRouteWithLowestCost(route.faceId, true);
      routesToAdd := [];
      if route.IsChildInherit() {
        if prevRoute.None? || route.cost <= prevRoute.value.cost {
          routesToAdd := [route];
        }
      }
      StandsLinks(entry, t);
      routesToRemove := [];
      if captureWasTurnedOn {
        routesToRemove := Ancestors(entry, t);
        RemoveInheritedRoutes(entry, routesToRemove);
      }
    }

    method CreateFibUpdatesForNewRoute(entry: RibEntry, route: Route, captureWasTurnedOn: bool, ghost t: Table)
      requires Tracks() && Reads(t) && Stands(entry, t)
      requires entry.View().parent == t[entry.name].parent && entry.View().children == t[entry.name].children
      modifies this`updatesForBatchFaceId, this`updatesForNonBatchFaceId, this`inheritedRoutes, this`log
      ensures Tracks() && log == old(log) + NewRouteLog(t, entry.name, entry.View(), route, captureWasTurnedOn)
    {
      var routesToAdd, routesToRemove := NewRouteSets(entry, route, captureWasTurnedOn, t);
      ModifyChildren(entry, routesToAdd, routesToRemove, t);
      var other := entry.GetRouteWithLowestCost(route.faceId, false);
      if other.None? || route.cost <= other.value.cost {
        Change(entry.name, route, true, false);
      }
      NewRouteParts(t, entry.name, entry.View(), route, captureWasTurnedOn, old(log));
    }

    // ----- an updated route -----

    ghost predicate SameLinks(entry: RibEntry, t: Table)
      reads entry
    {
      entry.name in t && entry.View().parent == t[entry.name].parent && entry.View().children == t[entry.name].children
    }

    method CostChange(entry: RibEntry, route: Route, existing: Route)
      requires Tracks() && HasFace(entry.routes, route.faceId) && UpdateDefined(entry.routes, route, existing)
      modifies this`updatesForBatchFaceId, this`updatesForNonBatchFaceId, this`inheritedRoutes, this`log
      ensures Tracks() && log == old(log) + CostChangeLog(entry.name, entry.View(), route, existing)
    {
      if route.cost != existing.cost {
        var low := entry.GetRouteWithLowestCost(route.faceId, false);
        var prevRoute := entry.GetRouteWithLowestCost(route.faceId, true);
        if route.cost <= low.value.cost {
          Change(entry.name, route, true, false);
        } else if existing.cost < low.value.cost {
          Change(entry.name, prevRoute.value, true, false);
        }
      }
    }

    method InheritChange(entry: RibEntry, route: Route, existing: Route, ghost t: Table)
      requires Tracks() && Reads(t) && Stands(entry, t) && SameLinks(entry, t)
      modifies this`updatesForBatchFaceId, this`updatesForNonBatchFaceId, this`inheritedRoutes, this`log
      ensures Tracks() && log == old(log) + InheritChangeLog(t, entry.name, entry.View(), route, existing)
    {
      var prevRoute := entry.GetRouteWithLowestCost(route.faceId, true);
      var routesToAdd: RouteSet, routesToRemove: RouteSet := [], [];
      if !existing.IsChildInherit() && route.IsChildInherit() {
        if prevRoute.Some? && route.cost > prevRoute.value.cost {
          return;
        }
        routesToAdd := [route];
      } else if existing.IsChildInherit() && !route.IsChildInherit() {
        routesToRemove := [route];
        if prevRoute.Some? {
          routesToAdd := [prevRoute.value];
        } else {
          var ancestorRoutes := Ancestors(entry, t);
          var unblocked := Lookup(ancestorRoutes, route.faceId);
          if unblocked.Some? {
            routesToAdd := [unblocked.value];
          }
        }
      } else {
        return;
      }
      ModifyChildren(entry, routesToAdd, routesToRemove, t);
    }

    method CaptureTurnedOn(entry: RibEntry, ancestors: RouteSet, ghost t: Table)
      requires Tracks() && Reads(t) && Stands(entry, t) && SameLinks(entry, t)
      modifies this`updatesForBatchFaceId, this`updatesForNonBatchFaceId, this`inheritedRoutes, this`log
      ensures forall c :: c in entry.View().children ==> c in t && entry.name < c
      ensures Tracks() && log == old(log) + (RemoveInheritedLog(entry.name, entry.View(), ancestors)
                                             + ChildrenLog(t, entry.name, entry.View().children, [], ancestors))
    {
      RemoveInheritedRoutes(entry, ancestors);
      ModifyChildren(entry, [], ancestors, t);
      Associative(old(log), RemoveInheritedLog(entry.name, entry.View(), ancestors),
               ChildrenLog(t, entry.name, entry.View().children, [], ancestors));
    }

    method CaptureTurnedOff(entry: RibEntry, ancestors: RouteSet, ghost t: Table)
      requires Tracks() && Reads(t) && Stands(entry, t) && SameLinks(entry, t)
      modifies this`updatesForBatchFaceId, this`updatesForNonBatchFaceId, this`inheritedRoutes, this`log
      ensures forall c :: c in entry.View().children ==> c in t && entry.name < c
      ensures Tracks() && log == old(log) + (AddInheritedLog(entry.name, entry.View(), ancestors)
                                             + ChildrenLog(t, entry.name, entry.View().children, ancestors, []))
    {
      AddInheritedRoutes(entry, ancestors);
      ModifyChildren(entry, ancestors, [], t);
      Associative(old(log), AddInheritedLog(entry.name, entry.View(), ancestors),
               ChildrenLog(t, entry.name, entry.View().children, ancestors, []));
    }

    method CaptureChange(entry: RibEntry, route: Route, existing: Route, ghost t: Table)
      requires Tracks() && Reads(t) && Stands(entry, t) && SameLinks(entry, t)
      modifies this`updatesForBatchFaceId, this`updatesForNonBatchFaceId, this`inheritedRoutes, this`log
      ensures Tracks() && log == old(log) + CaptureChangeLog(t, entry.name, entry.View(), route, existing)
    {
      if existing.IsCapture() == route.IsCapture() {
        return;
      }
      var ancestorRoutes := Ancestors(entry, t);
      if route.IsCapture() {
        CaptureTurnedOn(entry, ancestorRoutes, t);
      } else {
        CaptureTurnedOff(entry, ancestorRoutes, t);
      }
    }

    method FlagChanges(entry: RibEntry, route: Route, existing: Route, ghost t: Table)
      requires Tracks() && Reads(t) && Stands(entry, t) && SameLinks(entry, t)
      modifies this`updatesForBatchFaceId, this`updatesForNonBatchFaceId, this`inheritedRoutes, this`log
      ensures Tracks() && log == old(log) + (InheritChangeLog(t, entry.name, entry.View(), route, existing)
                                             + CaptureChangeLog(t, entry.name, entry.View(), route, existing))
    {
      InheritChange(entry, route, existing, t);
      CaptureChange(entry, route, existing, t);
      Associative(old(log), InheritChangeLog(t, entry.name, entry.View(), route, existing),
               CaptureChangeLog(t, entry.name, entry.View(), route, existing));
    }

    method UpdatedBelow(entry: RibEntry, route: Route, existing: Route, prevRoute: Option<Route>, ghost t: Table)
      requires Tracks() && Reads(t) && Stands(entry, t) && SameLinks(entry, t)
      requires prevRoute == LowestCost(entry.routes, route.faceId, true)
      modifies this`updatesForBatchFaceId, this`updatesForNonBatchFaceId, this`inheritedRoutes, this`log
      ensures Tracks() && log == old(log) + UpdatedBelowLog(t, entry.name, entry.View(), route, existing)
    {
      if route.cost != existing.cost && (prevRoute.None? || route.cost <= prevRoute.value.cost)
         && route.flags == existing.flags && route.IsChildInherit() {
        ModifyChildren(entry, [route], [], t);
      } else {
        FlagChanges(entry, route, existing, t);
      }
    }

    method CreateFibUpdatesForUpdatedRoute(entry: RibEntry, route: Route, existing: Route, ghost t: Table)
      requires Tracks() && Reads(t) && Stands(entry, t) && SameLinks(entry, t)
      requires HasFace(entry.routes, route.faceId) && UpdateDefined(entry.routes, route, existing)
      modifies this`updatesForBatchFaceId, this`updatesForNonBatchFaceId, this`inheritedRoutes, this`log
      ensures Tracks() && log == old(log) + UpdatedRouteLog(t, entry.name, entry.View(), route, existing)
    {
      if route.flags == existing.flags && route.cost == existing.cost {
        return;
      }
      var prevRoute := entry.GetRouteWithLowestCost(route.faceId, true);
      CostChange(entry, route, existing);
      UpdatedBelow(entry, route, existing, prevRoute, t);
      Associative(old(log), CostChangeLog(entry.name, entry.View(), route, existing),
               UpdatedBelowLog(t, entry.name, entry.View(), route, existing));
    }

    // ----- an erased route -----

    method RestoreAndPassOn(entry: RibEntry, ancestors: RouteSet, rem: RouteSet, ghost t: Table)
      requires Tracks() && Reads(t) && Stands(entry, t) && SameLinks(entry, t)
      modifies this`updatesForBatchFaceId, this`updatesForNonBatchFaceId, this`inheritedRoutes, this`log
      ensures forall c :: c in entry.View().children ==> c in t && entry.name < c
      ensures Tracks() && log == old(log) + (AddInheritedLog(entry.name, entry.View(), ancestors)
                                             + ChildrenLog(t, entry.name, entry.View().children, ancestors, rem))
    {
      AddInheritedRoutes(entry, ancestors);
      ModifyChildren(entry, ancestors, rem, t);
      Associative(old(log), AddInheritedLog(entry.name, entry.View(), ancestors),
               ChildrenLog(t, entry.name, entry.View().children, ancestors, rem));
    }

    method ErasedCapture(entry: RibEntry, route: Route, captureWasTurnedOff: bool, ghost t: Table)
      requires Tracks() && Reads(t) && Stands(entry, t) && SameLinks(entry, t) && route.IsCapture()
      modifies this`updatesForBatchFaceId, this`updatesForNonBatchFaceId, this`inheritedRoutes, this`log
      ensures Tracks() && log == old(log) + ErasedBelowLog(t, entry.name, entry.View(), route, captureWasTurnedOff)
    {
      var routesToRemove: RouteSet := if route.IsChildInherit() then [route] else [];
      if captureWasTurnedOff {
        var ancestorRoutes := Ancestors(entry, t);
        RestoreAndPassOn(entry, ancestorRoutes, routesToRemove, t);
      } else {
        ModifyChildren(entry, [], routesToRemove, t);
      }
    }

    method ErasedBelow(entry: RibEntry, route: Route, captureWasTurnedOff: bool, ghost t: Table)
      requires Tracks() && Reads(t) && Stands(entry, t) && SameLinks(entry, t)
      modifies this`updatesForBatchFaceId, this`updatesForNonBatchFaceId, this`inheritedRoutes, this`log
      ensures Tracks() && log == old(log) + ErasedBelowLog(t, entry.name, entry.View(), route, captureWasTurnedOff)
    {
      if route.IsCapture() {
        ErasedCapture(entry, route, captureWasTurnedOff, t);
      } else if route.IsChildInherit() {
        var routesToAdd: RouteSet := [];
        if !entry.HasCapture() {
          routesToAdd := Ancestors(entry, t);
        }
        ModifyChildren(entry, routesToAdd, [route], t);
      }
    }

    method Unblocked(entry: RibEntry, route: Route, ghost t: Table)
      requires Tracks() && Reads(t) && Stands(entry, t) && SameLinks(entry, t)
      modifies this`updatesForBatchFaceId, this`updatesForNonBatchFaceId, this`inheritedRoutes, this`log
      ensures Tracks() && log == old(log) + UnblockedLog(t, entry.name, entry.View(), route)
    {
      var ancestorRoutes := Ancestors(entry, t);
      if !entry.HasCapture() && |entry.routes| != 0 {
        var it := Lookup(ancestorRoutes, route.faceId);
        if it.Some? {
          Change(entry.name, it.value, true, true);
        }
      }
    }

    method CreateFibUpdatesForErasedRoute(entry: RibEntry, route: Route, captureWasTurnedOff: bool, ghost t: Table)
      requires Tracks() && Reads(t) && Stands(entry, t) && SameLinks(entry, t)
      modifies this`updatesForBatchFaceId, this`updatesForNonBatchFaceId, this`inheritedRoutes, this`log
      ensures Tracks() && log == old(log) + ErasedRouteLog(t, entry.name, entry.View(), route, captureWasTurnedOff)
    {
      ghost var e := entry.View();
      Change(entry.name, route, false, false);
      ErasedBelow(entry, route, captureWasTurnedOff, t);
      Unblocked(entry, route, t);
      Grouped(old(log), [FibDelta.Event(entry.name, route, false, false)],
              ErasedBelowLog(t, entry.name, e, route, captureWasTurnedOff), UnblockedLog(t, entry.name, e, route));
    }

    method CreateFibUpdatesForErasedRibEntry(entry: RibEntry)
      requires Tracks()
      modifies this`updatesForBatchFaceId, this`updatesForNonBatchFaceId, this`inheritedRoutes, this`log
      ensures Tracks() && log == old(log) + ErasedEntryLog(entry.name, entry.inheritedRoutes)
    {
      var s := entry.inheritedRoutes;
      for i := 0 to |s|
        invariant Tracks() && log + ErasedEntryLog(entry.name, s[i..]) == old(log) + ErasedEntryLog(entry.name, s)
      {
        assert s[i..][0] == s[i] && s[i..][1..] == s[i + 1..];
        Change(entry.name, s[i], false, false);
      }
      assert s[|s|..] == [];
    }

    // ----- one update -----

    lemma EntryStands(entry: RibEntry, t: Table)
      requires Reads(t) && rib.InTable(entry)
      ensures entry.name in t && t[entry.name] == entry.View()
      ensures Stands(entry, t) && SameLinks(entry, t)
    {
      rib.ChildrenReachable(entry);
    }

    /** The entries below a new name whose parent is the one the name will have. */
    method FutureChildren(name: Name, ghost t: Table) returns (children: seq<RibEntry>)
      requires Reads(t) && rib.OrderOk() && OrderOf(t, rib.order)
      ensures NamesOf(children) == PredictedChildren(t, rib.order, name)
      ensures forall i :: 0 <= i < |children| ==> rib.InTable(children[i])
    {
      var descendants := rib.FindDescendantsForNonInsertedName(name);
      children := Select(name, descendants, t);
    }

    method Select(name: Name, descendants: seq<RibEntry>, ghost t: Table) returns (children: seq<RibEntry>)
      requires Reads(t) && forall d :: d in rib.order ==> d in t
      requires NamesOf(descendants) == NamesBelow(rib.order, name)
      requires forall i :: 0 <= i < |descendants| ==> rib.InTable(descendants[i])
      ensures NamesOf(children) == PredictedChildren(t, rib.order, name)
      ensures forall i :: 0 <= i < |children| ==> rib.InTable(children[i])
    {
      assert t.Keys == rib.entries.Keys;
      var parent := rib.FindParentEntry(name);
      children := SelectWithParent(descendants, parent);
      FutureIsPredicted(descendants, parent, rib.order, t, name);
      assert forall i :: 0 <= i < |children| ==> children[i] in children;
    }

    lemma {:induction false} FutureIsPredicted(ds: seq<RibEntry>, parent: RibEntry?, order: seq<Name>, t: Table,
                                               name: Name)
      requires Reads(t) && forall d :: d in order ==> d in t
      requires parent == null <==> FindParent(t.Keys, name) == None
      requires parent != null ==> rib.InTable(parent) && FindParent(t.Keys, name) == Some(parent.name)
      requires NamesOf(ds) == NamesBelow(order, name)
      requires forall i :: 0 <= i < |ds| ==> rib.InTable(ds[i])
      ensures NamesOf(WithParent(ds, parent)) == PredictedChildren(t, order, name)
    {
      if order != [] {
        if name <= order[0] {
          assert NamesOf(ds)[0] == order[0];
          assert NamesOf(ds[1..]) == NamesOf(ds)[1..] == NamesBelow(order[1..], name);
          FutureIsPredicted(ds[1..], parent, order[1..], t, name);
          SameParent(order[0], parent, t, name);
          FutureHead(ds, parent);
        } else {
          FutureIsPredicted(ds, parent, order[1..], t, name);
        }
        PredictedHead(t, order, name);
      }
    }

    lemma FutureHead(ds: seq<RibEntry>, parent: RibEntry?)
      requires ds != []
      ensures NamesOf(WithParent(ds, parent))
              == (if ds[0].parent == parent then [ds[0].name] else []) + NamesOf(WithParent(ds[1..], parent))
    {
      NamesPrepend(ds[0], WithParent(ds[1..], parent));
    }

    lemma PredictedHead(t: Table, order: seq<Name>, name: Name)
      requires order != [] && forall d :: d in order ==> d in t
      ensures PredictedChildren(t, order, name)
              == (if name <= order[0] && t[order[0]].parent == FindParent(t.Keys, name) then [order[0]] else [])
                 + PredictedChildren(t, order[1..], name)
    {
    }

    lemma FutureBelow(name: Name, children: seq<RibEntry>, t: Table)
      requires Reads(t) && OrderOf(t, rib.order) && name !in t
      requires NamesOf(children) == PredictedChildren(t, rib.order, name)
      requires forall i :: 0 <= i < |children| ==> rib.InTable(children[i])
      ensures Below(name, children, t)
    {
      PredictedBelow(t, rib.order, name);
      assert forall i :: 0 <= i < |children| ==> NamesOf(children)[i] in NamesOf(children);
    }

    lemma SameParent(d: Name, parent: RibEntry?, t: Table, name: Name)
      requires Reads(t) && d in rib.entries
      requires parent == null <==> FindParent(t.Keys, name) == None
      requires parent != null ==> rib.InTable(parent) && FindParent(t.Keys, name) == Some(parent.name)
      ensures d in t && rib.entries[d].name == d
      ensures rib.entries[d].parent == parent <==> t[d].parent == FindParent(t.Keys, name)
    {
      assert t[d] == rib.entries[d].View();
    }

    method ComputeUpdatesForRegistration(u: RibUpdate, ghost t: Table)
      requires Tracks() && Reads(t) && rib.OrderOk() && OrderOf(t, rib.order) && u.action == REGISTER && Defined(t, u)
      modifies this`updatesForBatchFaceId, this`updatesForNonBatchFaceId, this`inheritedRoutes, this`log
      ensures Tracks() && log == old(log) + RegistrationLog(t, rib.order, u)
    {
      if u.name in rib.entries {
        RegisterAtEntry(rib.entries[u.name], u, t);
      } else {
        assert t.Keys == rib.entries.Keys;
        var children := FutureChildren(u.name, t);
        FutureBelow(u.name, children, t);
        PredictedBelow(t, rib.order, u.name);
        CreateFibUpdatesForNewRibEntry(u.name, u.route, children, t);
      }
    }

    method RegisterAtEntry(entry: RibEntry, u: RibUpdate, ghost t: Table)
      requires Tracks() && Reads(t) && rib.InTable(entry) && entry.name == u.name
      requires rib.OrderOk() && OrderOf(t, rib.order) && u.action == REGISTER && Defined(t, u)
      modifies this`updatesForBatchFaceId, this`updatesForNonBatchFaceId, this`inheritedRoutes, this`log
      ensures Tracks() && log == old(log) + RegistrationLog(t, rib.order, u)
    {
      EntryStands(entry, t);
      var i := FindRoute(entry.routes, u.route);
      if i == |entry.routes| {
        CreateFibUpdatesForNewRoute(entry, u.route, !entry.HasCapture() && u.route.IsCapture(), t);
      } else {
        var existing := entry.routes[i];
        var entryCopy := new RibEntry.Copy(entry);
        entryCopy.UpdateRoute(i, u.route);
        assert entryCopy.routes[i].faceId == u.route.faceId;
        CreateFibUpdatesForUpdatedRoute(entryCopy, u.route, existing, t);
      }
    }

    method ComputeUpdatesForUnregistration(u: RibUpdate, ghost t: Table)
      requires Tracks() && Reads(t)
      modifies this`updatesForBatchFaceId, this`updatesForNonBatchFaceId, this`inheritedRoutes, this`log
      ensures Tracks() && log == old(log) + UnregistrationLog(t, u)
    {
      assert t.Keys == rib.entries.Keys;
      if u.name in rib.entries {
        var entry := rib.entries[u.name];
        EntryStands(entry, t);
        var i := FindRoute(entry.routes, u.route);
        if i < |entry.routes| {
          UnregisterAtEntry(entry, i, u, t);
        }
      }
    }

    method UnregisterAtEntry(entry: RibEntry, i: nat, u: RibUpdate, ghost t: Table)
      requires Tracks() && Reads(t) && rib.InTable(entry) && entry.name == u.name && Stands(entry, t)
      requires SameLinks(entry, t)
      requires t[u.name] == entry.View() && i == FindRoute(entry.routes, u.route) < |entry.routes|
      modifies this`updatesForBatchFaceId, this`updatesForNonBatchFaceId, this`inheritedRoutes, this`log
      ensures Tracks() && log == old(log) + UnregistrationLog(t, u)
    {
      var existing := entry.routes[i];
      var temp := new RibEntry.Copy(entry);
      temp.EraseRoute(i);
      var captureWasTurnedOff := entry.HasCapture() && !temp.HasCapture();
      CreateFibUpdatesForErasedRoute(temp, existing, captureWasTurnedOff, t);
      KeepNext(temp, SecondLowestCost(entry.routes, u.route.faceId), t);
      EndIfEmpty(entry);
      UnregisterGrouped(t, u, old(log));
    }

    method KeepNext(temp: RibEntry, next: Option<Route>, ghost t: Table)
      requires Tracks() && Reads(t) && Stands(temp, t) && SameLinks(temp, t)
      modifies this`updatesForBatchFaceId, this`updatesForNonBatchFaceId, this`inheritedRoutes, this`log
      ensures Tracks()
      ensures log == old(log) + if next.Some? then NewRouteLog(t, temp.name, temp.View(), next.value, false) else []
    {
      if next.Some? {
        CreateFibUpdatesForNewRoute(temp, next.value, false, t);
      }
    }

    method EndIfEmpty(entry: RibEntry)
      requires Tracks()
      modifies this`updatesForBatchFaceId, this`updatesForNonBatchFaceId, this`inheritedRoutes, this`log
      ensures Tracks()
      ensures log == old(log) + if |entry.routes| == 1 then ErasedEntryLog(entry.name, entry.inheritedRoutes) else []
    {
      if |entry.routes| == 1 {
        CreateFibUpdatesForErasedRibEntry(entry);
      }
    }

    // ----- the updates of a batch -----

    method IsDefined(u: RibUpdate, ghost t: Table) returns (d: bool)
      requires Reads(t)
      ensures d <==> Defined(t, u)
    {
      assert t.Keys == rib.entries.Keys;
      if u.action == REGISTER && u.name in rib.entries {
        var entry := rib.entries[u.name];
        EntryStands(entry, t);
        var i := FindRoute(entry.routes, u.route);
        if i < |entry.routes| {
          var routes := entry.routes[i := entry.routes[i].(flags := u.route.flags, cost := u.route.cost)];
          return UpdateDefined(routes, u.route, entry.routes[i]);
        }
      }
      return true;
    }

    /** The lists and records are those of the batch. */
    ghost predicate Prepared(u: RibUpdate, computed: seq<FibDelta.Event>)
      reads this
    {
      && log == computed && batchFaceId == u.route.faceId
      && updatesForBatchFaceId == BatchList(log, u)
      && updatesForNonBatchFaceId == RestList(log, u)
      && inheritedRoutes == Records(log)
    }

    method StartBatch(face: nat)
      modifies this
      ensures Tracks() && log == [] && batchFaceId == face
    {
      batchFaceId := face;
      updatesForBatchFaceId, updatesForNonBatchFaceId, inheritedRoutes, log := [], [], [], [];
    }

    /** computeUpdates for a batch, which always holds one update. False where the code would
        dereference the null route. */
    method ComputeUpdates(u: RibUpdate, ghost t: Table) returns (ok: bool)
      requires Reads(t) && rib.OrderOk() && OrderOf(t, rib.order)
      modifies this
      ensures ok == Defined(t, u)
      ensures ok ==> Prepared(u, ComputeLog(t, rib.order, u))
    {
      ok := IsDefined(u, t);
      StartBatch(u.route.faceId);
      if ok {
        ComputeInto(u, t);
        if u.action == REMOVE_FACE {
          updatesForBatchFaceId := [];
        }
      }
    }

    method ComputeInto(u: RibUpdate, ghost t: Table)
      requires Tracks() && log == [] && Reads(t) && rib.OrderOk() && OrderOf(t, rib.order) && Defined(t, u)
      modifies this`updatesForBatchFaceId, this`updatesForNonBatchFaceId, this`inheritedRoutes, this`log
      ensures Tracks() && log == ComputeLog(t, rib.order, u)
    {
      if u.action == REGISTER {
        ComputeUpdatesForRegistration(u, t);
      } else {
        ComputeUpdatesForUnregistration(u, t);
      }
    }

    // ----- the exchange with the FIB -----

    /** The lists are those of the exchange `s`. */
    ghost predicate Holds(s: Sender)
      reads this
    {
      s.face == batchFaceId && s.batch == updatesForBatchFaceId && s.rest == updatesForNonBatchFaceId
    }

    method SendUpdates(updates: seq<FibUpdate>) returns (commands: seq<Command>)
      ensures commands == CommandsOf(updates)
    {
      commands := [];
      for i := 0 to |updates|
        invariant commands == CommandsOf(updates[..i])
      {
        assert updates[..i + 1] == updates[..i] + [updates[i]];
        if updates[i].add {
          commands := commands + [Command(updates[i], true, 0)];
        } else {
          commands := commands + [Command(updates[i], false, 0)];
        }
      }
      assert updates[..|updates|] == updates;
    }

    method SendUpdatesForNonBatchFaceId(ghost s: Sender) returns (commands: seq<Command>, calls: seq<Callback>)
      requires Holds(s)
      ensures Effects(s, BeginRest(s), commands, calls)
    {
      commands, calls := [], [];
      if |updatesForNonBatchFaceId| > 0 {
        commands := SendUpdates(updatesForNonBatchFaceId);
        PutList(s.flights, updatesForNonBatchFaceId);
        UpdatesOfCommands(updatesForNonBatchFaceId);
      } else {
        calls := [OnSuccess];
      }
    }

    method SendUpdatesForBatchFaceId(ghost s: Sender) returns (commands: seq<Command>, calls: seq<Callback>)
      requires Holds(s) && s == Sender(s.face, s.batch, s.rest, map[], s.fib, [], [], {}, {}, {})
      ensures Effects(s, Begin(s.face, s.batch, s.rest, s.fib), commands, calls)
    {
      commands, calls := [], [];
      if |updatesForBatchFaceId| > 0 {
        commands := SendUpdates(updatesForBatchFaceId);
        PutList(s.flights, updatesForBatchFaceId);
        UpdatesOfCommands(updatesForBatchFaceId);
      } else {
        commands, calls := SendUpdatesForNonBatchFaceId(s);
      }
    }

    method OnUpdateSuccess(update: FibUpdate, ghost s: Sender) returns (commands: seq<Command>, calls: seq<Callback>)
      requires Holds(s)
      modifies this`updatesForBatchFaceId, this`updatesForNonBatchFaceId
      ensures Holds(Succeed(s, update)) && Effects(s, Succeed(s, update), commands, calls)
    {
      commands, calls := [], [];
      if update.faceId == batchFaceId {
        updatesForBatchFaceId := Remove(updatesForBatchFaceId, update);
        if |updatesForBatchFaceId| == 0 {
          commands, calls := SendUpdatesForNonBatchFaceId(s.(batch := updatesForBatchFaceId));
        }
      } else {
        calls := RemoveNonBatch(update, s);
      }
    }

    method RemoveNonBatch(update: FibUpdate, ghost s: Sender) returns (calls: seq<Callback>)
      requires Holds(s)
      modifies this`updatesForNonBatchFaceId
      ensures Holds(DropFromRest(s, update)) && Effects(s, DropFromRest(s, update), [], calls)
    {
      updatesForNonBatchFaceId := Remove(updatesForNonBatchFaceId, update);
      calls := if |updatesForNonBatchFaceId| == 0 then [OnSuccess] else [];
    }

    /** A retry leaves as an add, as the code has it. */
    method OnUpdateError(update: FibUpdate, timedOut: bool, notFound: bool, nTimeouts: nat, ghost s: Sender)
      returns (commands: seq<Command>, calls: seq<Callback>)
      requires Holds(s)
      modifies this`updatesForNonBatchFaceId
      ensures Holds(Fail(s, update, timedOut, notFound, nTimeouts))
      ensures Effects(s, Fail(s, update, timedOut, notFound, nTimeouts), commands, calls)
    {
      commands, calls := [], [];
      if timedOut && nTimeouts < MAX_NUM_TIMEOUTS {
        commands := [Command(update, true, nTimeouts + 1)];
        assert commands[..0] == [];
        assert UpdatesOf(commands) == [update];
      } else if notFound {
        if update.faceId == batchFaceId {
          calls := [OnFailure];
        } else {
          calls := RemoveNonBatch(update, s);
        }
      } else {
        calls := [Thrown];
      }
    }
  }

  lemma UnregisterGrouped(t: Table, u: RibUpdate, start: seq<FibDelta.Event>)
    requires Shape(t) && u.name in t && FindRoute(t[u.name].routes, u.route) < |t[u.name].routes|
    ensures var e := t[u.name];
            var i := FindRoute(e.routes, u.route);
            var temp := WithoutRoute(e, i);
            var next := SecondLowestCost(e.routes, u.route.faceId);
            start + UnregistrationLog(t, u)
            == start + ErasedRouteLog(t, u.name, temp, e.routes[i], e.HasCapture() && !temp.HasCapture())
               + (if next.Some? then NewRouteLog(t, u.name, temp, next.value, false) else [])
               + (if |e.routes| == 1 then ErasedEntryLog(u.name, e.inherited) else [])
  {
    var e := t[u.name];
    var i := FindRoute(e.routes, u.route);
    var temp := WithoutRoute(e, i);
    var next := SecondLowestCost(e.routes, u.route.faceId);
    Grouped(start, ErasedRouteLog(t, u.name, temp, e.routes[i], e.HasCapture() && !temp.HasCapture()),
            if next.Some? then NewRouteLog(t, u.name, temp, next.value, false) else [],
            if |e.routes| == 1 then ErasedEntryLog(u.name, e.inherited) else []);
  }

  /** What a handler hands to the controller and calls back is what the machine's step says. */
  ghost predicate Effects(s: Sender, s': Sender, commands: seq<Command>, calls: seq<Callback>) {
    && s'.flights == Put(s.flights, commands)
    && s'.sent == s.sent + UpdatesOf(commands)
    && s'.calls == s.calls + calls
  }

  function WithParent(ds: seq<RibEntry>, parent: RibEntry?): (r: seq<RibEntry>)
    reads ds`parent
    ensures forall d :: d in r ==> d in ds && d.parent == parent
  {
    if ds == [] then [] else (if ds[0].parent == parent then [ds[0]] else []) + WithParent(ds[1..], parent)
  }

  method SelectWithParent(ds: seq<RibEntry>, parent: RibEntry?) returns (children: seq<RibEntry>)
    ensures children == WithParent(ds, parent)
  {
    children := [];
    for i := 0 to |ds|
      invariant children + WithParent(ds[i..], parent) == WithParent(ds, parent)
    {
      assert ds[i..][0] == ds[i] && ds[i..][1..] == ds[i + 1..];
      if ds[i].parent == parent {
        children := children + [ds[i]];
      }
    }
  }

  lemma NamesPrepend(e: RibEntry, entries: seq<RibEntry>)
    ensures NamesOf([e] + entries) == [e.name] + NamesOf(entries)
  {
  }

  function NewRouteAdd(e: EntryView, r: Route): RouteSet {
    var prev := LowestCost(e.routes, r.faceId, true);
    if r.IsChildInherit() && (prev.None? || r.cost <= prev.value.cost) then [r] else []
  }

  lemma NewRouteParts(t: Table, n: Name, e: EntryView, r: Route, captureOn: bool, start: seq<FibDelta.Event>)
    requires Shape(t) && n in t && e.parent == t[n].parent && e.children == t[n].children
    requires e.parent.Some? ==> e.parent.value in t
    requires forall c :: c in e.children ==> c in t && n < c
    ensures var rem := if captureOn then AncestorRoutes(t, e.parent) else [];
            var other := LowestCost(e.routes, r.faceId, false);
            start + NewRouteLog(t, n, e, r, captureOn)
            == start + RemoveInheritedLog(n, e, rem) + ChildrenLog(t, n, e.children, NewRouteAdd(e, r), rem)
               + (if other.None? || r.cost <= other.value.cost then [FibDelta.Event(n, r, true, false)] else [])
  {
    var rem := if captureOn then AncestorRoutes(t, e.parent) else [];
    var other := LowestCost(e.routes, r.faceId, false);
    Grouped(start, RemoveInheritedLog(n, e, rem), ChildrenLog(t, n, e.children, NewRouteAdd(e, r), rem),
            if other.None? || r.cost <= other.value.cost then [FibDelta.Event(n, r, true, false)] else []);
  }

  /** The log of a new name, behind the change at the name itself. */
  ghost function NewEntryRest(t: Table, n: Name, r: Route, children: seq<Name>): seq<FibDelta.Event>
    requires Shape(t) && forall c :: c in children ==> c in t && n < c
  {
    var ancestors := AncestorRoutes(t, FindParent(t.Keys, n));
    if !r.IsChildInherit() && !r.IsCapture() then AddInheritedIgnoring(n, ancestors, r.faceId)
    else if r.IsChildInherit() && r.IsCapture() then ChildrenLog(t, n, children, [r], ancestors)
    else if r.IsChildInherit() then
      AddInheritedIgnoring(n, ancestors, r.faceId)
      + ChildrenLog(t, n, children, Insert(EraseFace(ancestors, r.faceId), r), [])
    else ChildrenLog(t, n, children, [], ancestors)
  }

  lemma NewEntryGrouped(t: Table, n: Name, r: Route, children: seq<Name>, start: seq<FibDelta.Event>)
    requires Shape(t) && forall c :: c in children ==> c in t && n < c
    ensures start + NewEntryLog(t, n, r, children)
            == start + [FibDelta.Event(n, r, true, false)] + NewEntryRest(t, n, r, children)
  {
    Associative(start, [FibDelta.Event(n, r, true, false)], NewEntryRest(t, n, r, children));
  }

  lemma WalkParts(t: Table, bound: nat, n: Name, add: RouteSet, rem: RouteSet, log: seq<FibDelta.Event>)
    requires Shape(t) && Bounded(t, bound) && n in t && !t[n].HasCapture()
    requires forall c :: c in t[n].children ==> c in t && n < c
    ensures log + Walk(t, bound, n, add, rem)
            == log + Emit(n, t[n], rem, false) + Emit(n, t[n], add, true)
               + WalkList(t, bound, n, t[n].children, Keep(t[n], add), Keep(t[n], rem))
  {
    Grouped(log, Emit(n, t[n], rem, false), Emit(n, t[n], add, true),
            WalkList(t, bound, n, t[n].children, Keep(t[n], add), Keep(t[n], rem)));
  }

  lemma Grouped(log: seq<FibDelta.Event>, a: seq<FibDelta.Event>, b: seq<FibDelta.Event>, c: seq<FibDelta.Event>)
    ensures log + (a + b + c) == log + a + b + c
  {
  }

  lemma AddStep(log: seq<FibDelta.Event>, n: Name, e: EntryView, s: RouteSet, i: nat)
    requires i < |s|
    ensures log + AddInheritedLog(n, e, s[i..])
            == log + (if !HasFace(e.routes, s[i].faceId) then [FibDelta.Event(n, s[i], true, true)] else [])
               + AddInheritedLog(n, e, s[i + 1..])
  {
    assert s[i..][0] == s[i] && s[i..][1..] == s[i + 1..];
  }

  lemma RemoveStep(log: seq<FibDelta.Event>, n: Name, e: EntryView, s: RouteSet, i: nat)
    requires i < |s|
    ensures log + RemoveInheritedLog(n, e, s[i..])
            == log + (if e.HasInherited(s[i].faceId) then [FibDelta.Event(n, s[i], false, true)] else [])
               + RemoveInheritedLog(n, e, s[i + 1..])
  {
    assert s[i..][0] == s[i] && s[i..][1..] == s[i + 1..];
  }

  lemma PassDrop(kept: RouteSet, i: nat)
    requires i < |kept|
    ensures var shorter := kept[..i] + kept[i + 1..]; shorter[..i] == kept[..i] && shorter[i..] == kept[i + 1..]
  {
  }

  /** One round of the loop, for its invariants. */
  lemma PassNext(kept: RouteSet, i: nat, n: Name, e: EntryView, add: bool, log: seq<FibDelta.Event>)
    requires i < |kept|
    ensures var blocked := HasChildInherit(e.routes, kept[i].faceId);
            var (kept', i') := if blocked then (kept[..i] + kept[i + 1..], i) else (kept, i + 1);
            && i' <= |kept'|
            && kept'[..i'] + Keep(e, kept'[i'..]) == kept[..i] + Keep(e, kept[i..])
            && log + (if !blocked && Emits(e, kept[i], add) then [FibDelta.Event(n, kept[i], add, true)] else [])
               + Emit(n, e, kept'[i'..], add) == log + Emit(n, e, kept[i..], add)
  {
    PassStep(kept, i, n, e, add, log);
    PassDrop(kept, i);
  }

  lemma PassStep(kept: RouteSet, i: nat, n: Name, e: EntryView, add: bool, log: seq<FibDelta.Event>)
    requires i < |kept|
    ensures kept[..i + 1] == kept[..i] + [kept[i]]
    ensures Keep(e, kept[i..]) == (if HasChildInherit(e.routes, kept[i].faceId) then [] else [kept[i]])
                + Keep(e, kept[i + 1..])
    ensures kept[..i] + ([kept[i]] + Keep(e, kept[i + 1..])) == kept[..i + 1] + Keep(e, kept[i + 1..])
    ensures log + Emit(n, e, kept[i..], add)
            == log + (if !HasChildInherit(e.routes, kept[i].faceId) && Emits(e, kept[i], add)
                      then [FibDelta.Event(n, kept[i], add, true)] else []) + Emit(n, e, kept[i + 1..], add)
  {
    assert kept[i..][0] == kept[i] && kept[i..][1..] == kept[i + 1..];
  }

  ghost predicate Descend(t: Table, n: Name, names: seq<Name>) {
    forall j :: 0 <= j < |names| ==> names[j] in t && n < names[j]
  }

  /** The log of the walks from the i-th name on. */
  ghost function WalkFrom(t: Table, bound: nat, n: Name, names: seq<Name>, i: nat, add: RouteSet, rem: RouteSet)
    : seq<FibDelta.Event>
    requires Shape(t) && Bounded(t, bound) && Descend(t, n, names) && i <= |names|
  {
    WalkList(t, bound, n, names[i..], add, rem)
  }

  lemma WalkFromEnds(t: Table, bound: nat, n: Name, names: seq<Name>, add: RouteSet, rem: RouteSet)
    requires Shape(t) && Bounded(t, bound) && Descend(t, n, names)
    ensures WalkFrom(t, bound, n, names, 0, add, rem) == WalkList(t, bound, n, names, add, rem)
    ensures WalkFrom(t, bound, n, names, |names|, add, rem) == []
  {
    assert names[0..] == names;
  }

  lemma ListStep(t: Table, bound: nat, n: Name, names: seq<Name>, i: nat, add: RouteSet, rem: RouteSet,
                 log: seq<FibDelta.Event>)
    requires Shape(t) && Bounded(t, bound) && Descend(t, n, names) && i < |names|
    ensures log + WalkFrom(t, bound, n, names, i, add, rem)
            == log + Walk(t, bound, names[i], add, rem) + WalkFrom(t, bound, n, names, i + 1, add, rem)
  {
    assert names[i..][0] == names[i] && names[i..][1..] == names[i + 1..];
  }
}
