/** What FibUpdater computes for one RIB update, branch by branch, and the two lists of
    pending FIB updates it keeps. */
module FibCompute {
  import opened Names
  import opened Options
  import opened RibModel
  import opened EffectiveNextHops
  import opened FibDelta

  datatype Action = REGISTER | UNREGISTER | REMOVE_FACE
  datatype RibUpdate = RibUpdate(action: Action, name: Name, route: Route)

  // ----- a bound on name lengths, for termination of the walk -----

  lemma {:induction false} BoundExists(keys: set<Name>) returns (b: nat)
    ensures forall n :: n in keys ==> |n| <= b
    decreases |keys|
  {
    b := 0;
    if keys != {} {
      var n :| n in keys;
      var b' := BoundExists(keys - {n});
      b := if |n| > b' then |n| else b';
      assert forall m :: m in keys ==> m == n || m in keys - {n};
    }
  }

  ghost function BoundOf(t: Table): (b: nat)
    ensures Bounded(t, b)
  {
    assert exists b: nat :: Bounded(t, b) by {
      var b := BoundExists(t.Keys);
      assert Bounded(t, b);
    }
    var b: nat :| Bounded(t, b);
    b
  }

  ghost function ChildrenLog(t: Table, n: Name, names: seq<Name>, add: RouteSet, rem: RouteSet): seq<Event>
    requires Shape(t) && forall c :: c in names ==> c in t && n < c
  {
    WalkList(t, BoundOf(t), n, names, add, rem)
  }

  // ----- the entry itself -----

  /** addInheritedRoutes on an existing entry, skipping the faces it has routes on. */
  function AddInheritedLog(n: Name, e: EntryView, s: RouteSet): seq<Event> {
    if s == [] then []
    else (if !HasFace(e.routes, s[0].faceId) then [Event(n, s[0], true, true)] else []) + AddInheritedLog(n, e, s[1..])
  }

  /** addInheritedRoutes on a name about to be created with one route on the face `ignore`. */
  function AddInheritedIgnoring(n: Name, s: RouteSet, ignore: nat): seq<Event> {
    if s == [] then []
    else (if s[0].faceId != ignore then [Event(n, s[0], true, true)] else []) + AddInheritedIgnoring(n, s[1..], ignore)
  }

  /** removeInheritedRoutes. */
  function RemoveInheritedLog(n: Name, e: EntryView, s: RouteSet): seq<Event> {
    if s == [] then []
    else (if e.HasInherited(s[0].faceId) then [Event(n, s[0], false, true)] else []) + RemoveInheritedLog(n, e, s[1..])
  }

  /** createFibUpdatesForErasedRibEntry. */
  function ErasedEntryLog(n: Name, inherited: seq<Route>): seq<Event> {
    if inherited == [] then []
    else [Event(n, inherited[0], false, false)] + ErasedEntryLog(n, inherited[1..])
  }

  /** The entries whose parent is the parent `n` will have, among the names below `n`, in table order. */
  function PredictedChildren(t: Table, order: seq<Name>, n: Name): (names: seq<Name>)
    requires forall d :: d in order ==> d in t
    ensures forall c :: c in names <==> c in order && n <= c && t[c].parent == FindParent(t.Keys, n)
    ensures NoDuplicates(order) ==> NoDuplicates(names)
  {
    if order == [] then []
    else
      assert forall d :: d in order ==> d == order[0] || d in order[1..];
      (if n <= order[0] && t[order[0]].parent == FindParent(t.Keys, n) then [order[0]] else [])
      + PredictedChildren(t, order[1..], n)
  }

  ghost predicate OrderOf(t: Table, order: seq<Name>) {
    && NoDuplicates(order)
    && forall n :: n in order <==> n in t
  }

  lemma LinksInside(t: Table, n: Name)
    requires Shape(t) && n in t
    ensures t[n].parent.Some? ==> t[n].parent.value in t
    ensures forall c :: c in t[n].children ==> c in t && n < c
  {
    assert LinksOk(t, n);
  }

  // ----- registration -----

  /** createFibUpdatesForNewRibEntry. */
  ghost function NewEntryLog(t: Table, n: Name, r: Route, children: seq<Name>): seq<Event>
    requires Shape(t) && forall c :: c in children ==> c in t && n < c
  {
    var ancestors := AncestorRoutes(t, FindParent(t.Keys, n));
    [Event(n, r, true, false)] +
    if !r.IsChildInherit() && !r.IsCapture() then
      AddInheritedIgnoring(n, ancestors, r.faceId)
    else if r.IsChildInherit() && r.IsCapture() then
      ChildrenLog(t, n, children, [r], ancestors)
    else if r.IsChildInherit() then
      AddInheritedIgnoring(n, ancestors, r.faceId)
      + ChildrenLog(t, n, children, Insert(EraseFace(ancestors, r.faceId), r), [])
    else
      ChildrenLog(t, n, children, [], ancestors)
  }

  /** createFibUpdatesForNewRoute; `e` is the entry at `n` as the caller passes it. */
  ghost function NewRouteLog(t: Table, n: Name, e: EntryView, r: Route, captureOn: bool): seq<Event>
    requires Shape(t) && n in t && e.parent == t[n].parent && e.children == t[n].children
  {
    LinksInside(t, n);
    var prev := LowestCost(e.routes, r.faceId, true);
    var add := if r.IsChildInherit() && (prev.None? || r.cost <= prev.value.cost) then [r] else [];
    var rem := if captureOn then AncestorRoutes(t, e.parent) else [];
    var other := LowestCost(e.routes, r.faceId, false);
    RemoveInheritedLog(n, e, rem)
    + ChildrenLog(t, n, e.children, add, rem)
    + (if other.None? || r.cost <= other.value.cost then [Event(n, r, true, false)] else [])
  }

  /** The updater dereferences the lowest-cost child-inherit route of the updated entry in one
      branch; this is the branch not taken with a null pointer. */
  predicate UpdateDefined(routes: seq<Route>, r: Route, existing: Route) {
    var low := LowestCost(routes, r.faceId, false);
    (r.cost != existing.cost && low.Some? && r.cost > low.value.cost && existing.cost < low.value.cost)
    ==> LowestCost(routes, r.faceId, true).Some?
  }

  /** The change at the entry itself when the cost of a route changed. */
  function CostChangeLog(n: Name, e: EntryView, r: Route, existing: Route): seq<Event>
    requires HasFace(e.routes, r.faceId) && UpdateDefined(e.routes, r, existing)
  {
    var low := LowestCost(e.routes, r.faceId, false);
    if r.cost == existing.cost then []
    else if r.cost <= low.value.cost then [Event(n, r, true, false)]
    else if existing.cost < low.value.cost then [Event(n, LowestCost(e.routes, r.faceId, true).value, true, false)]
    else []
  }

  /** The changes below when child inheritance was switched on or off. */
  ghost function InheritChangeLog(t: Table, n: Name, e: EntryView, r: Route, existing: Route): seq<Event>
    requires Shape(t) && n in t && e.parent == t[n].parent && e.children == t[n].children
  {
    LinksInside(t, n);
    var prev := LowestCost(e.routes, r.faceId, true);
    if !existing.IsChildInherit() && r.IsChildInherit() then
      if prev.None? || r.cost <= prev.value.cost then ChildrenLog(t, n, e.children, [r], []) else []
    else if existing.IsChildInherit() && !r.IsChildInherit() then
      var unblocked := Lookup(AncestorRoutes(t, e.parent), r.faceId);
      ChildrenLog(t, n, e.children,
                  if prev.Some? then [prev.value] else if unblocked.Some? then [unblocked.value] else [],
                  [r])
    else []
  }

  /** The changes at the entry and below when capture was switched on or off. */
  ghost function CaptureChangeLog(t: Table, n: Name, e: EntryView, r: Route, existing: Route): seq<Event>
    requires Shape(t) && n in t && e.parent == t[n].parent && e.children == t[n].children
  {
    LinksInside(t, n);
    var ancestors := AncestorRoutes(t, e.parent);
    if !existing.IsCapture() && r.IsCapture() then
      RemoveInheritedLog(n, e, ancestors) + ChildrenLog(t, n, e.children, [], ancestors)
    else if existing.IsCapture() && !r.IsCapture() then
      AddInheritedLog(n, e, ancestors) + ChildrenLog(t, n, e.children, ancestors, [])
    else []
  }

  /** createFibUpdatesForUpdatedRoute; `e` is the entry at `n` with the route already updated. */
  ghost function UpdatedRouteLog(t: Table, n: Name, e: EntryView, r: Route, existing: Route): seq<Event>
    requires Shape(t) && n in t && e.parent == t[n].parent && e.children == t[n].children
    requires HasFace(e.routes, r.faceId) && UpdateDefined(e.routes, r, existing)
  {
    if r.flags == existing.flags && r.cost == existing.cost then []
    else CostChangeLog(n, e, r, existing) + UpdatedBelowLog(t, n, e, r, existing)
  }

  /** A cost change alone is passed on and ends the computation; otherwise the flags are looked at. */
  ghost function UpdatedBelowLog(t: Table, n: Name, e: EntryView, r: Route, existing: Route): seq<Event>
    requires Shape(t) && n in t && e.parent == t[n].parent && e.children == t[n].children
  {
    LinksInside(t, n);
    var prev := LowestCost(e.routes, r.faceId, true);
    if r.cost != existing.cost && (prev.None? || r.cost <= prev.value.cost)
       && r.flags == existing.flags && r.IsChildInherit() then
      ChildrenLog(t, n, e.children, [r], [])
    else
      InheritChangeLog(t, n, e, r, existing) + CaptureChangeLog(t, n, e, r, existing)
  }

  /** The updater keeps off the null dereference. */
  ghost predicate Defined(t: Table, u: RibUpdate) {
    if u.action == REGISTER && u.name in t && FindRoute(t[u.name].routes, u.route) < |t[u.name].routes| then
      var i := FindRoute(t[u.name].routes, u.route);
      UpdateDefined(WithUpdatedRoute(t[u.name], i, u.route).routes, u.route, t[u.name].routes[i])
    else true
  }

  lemma PredictedBelow(t: Table, order: seq<Name>, n: Name)
    requires OrderOf(t, order) && n !in t
    ensures forall c :: c in PredictedChildren(t, order, n) ==> c in t && n < c
  {
    forall c | c in PredictedChildren(t, order, n)
      ensures c in t && n < c
    {
      assert |c| == |n| ==> c == n;
    }
  }

  /** computeUpdatesForRegistration. */
  ghost function RegistrationLog(t: Table, order: seq<Name>, u: RibUpdate): seq<Event>
    requires Shape(t) && OrderOf(t, order) && u.action == REGISTER && Defined(t, u)
  {
    var n, r := u.name, u.route;
    if n in t then
      var e := t[n];
      var i := FindRoute(e.routes, r);
      LinksInside(t, n);
      if i == |e.routes| then NewRouteLog(t, n, e, r, !e.HasCapture() && r.IsCapture())
      else
        assert WithUpdatedRoute(e, i, r).routes[i].faceId == r.faceId;
        UpdatedRouteLog(t, n, WithUpdatedRoute(e, i, r), r, e.routes[i])
    else
      PredictedBelow(t, order, n);
      NewEntryLog(t, n, r, PredictedChildren(t, order, n))
  }

  // ----- unregistration -----

  /** What erasing a route does to the inherited routes of the entry and of those below. */
  ghost function ErasedBelowLog(t: Table, n: Name, e: EntryView, r: Route, captureOff: bool): seq<Event>
    requires Shape(t) && n in t && e.parent == t[n].parent && e.children == t[n].children
  {
    LinksInside(t, n);
    var ancestors := AncestorRoutes(t, e.parent);
    if r.IsCapture() then
      var rem := if r.IsChildInherit() then [r] else [];
      if captureOff then AddInheritedLog(n, e, ancestors) + ChildrenLog(t, n, e.children, ancestors, rem)
      else ChildrenLog(t, n, e.children, [], rem)
    else if r.IsChildInherit() then
      ChildrenLog(t, n, e.children, if !e.HasCapture() then ancestors else [], [r])
    else []
  }

  /** The ancestor's route on the erased route's face comes back, unless the entry goes too. */
  function UnblockedLog(t: Table, n: Name, e: EntryView, r: Route): seq<Event>
    requires Shape(t) && n in t && e.parent == t[n].parent
  {
    LinksInside(t, n);
    var it := Lookup(AncestorRoutes(t, e.parent), r.faceId);
    if !e.HasCapture() && e.routes != [] && it.Some? then [Event(n, it.value, true, true)] else []
  }

  /** createFibUpdatesForErasedRoute; `e` is the entry at `n` without the erased route. */
  ghost function ErasedRouteLog(t: Table, n: Name, e: EntryView, r: Route, captureOff: bool): seq<Event>
    requires Shape(t) && n in t && e.parent == t[n].parent && e.children == t[n].children
  {
    [Event(n, r, false, false)] + ErasedBelowLog(t, n, e, r, captureOff) + UnblockedLog(t, n, e, r)
  }

  /** computeUpdatesForUnregistration. */
  ghost function UnregistrationLog(t: Table, u: RibUpdate): seq<Event>
    requires Shape(t)
  {
    var n := u.name;
    if n in t && FindRoute(t[n].routes, u.route) < |t[n].routes| then
      var e := t[n];
      var i := FindRoute(e.routes, u.route);
      var temp := WithoutRoute(e, i);
      var next := SecondLowestCost(e.routes, u.route.faceId);
      LinksInside(t, n);
      ErasedRouteLog(t, n, temp, e.routes[i], e.HasCapture() && !temp.HasCapture())
      + (if next.Some? then NewRouteLog(t, n, temp, next.value, false) else [])
      + (if |e.routes| == 1 then ErasedEntryLog(n, e.inherited) else [])
    else []
  }

  /** computeUpdates, as a log. */
  ghost function ComputeLog(t: Table, order: seq<Name>, u: RibUpdate): seq<Event>
    requires Shape(t) && OrderOf(t, order) && Defined(t, u)
  {
    if u.action == REGISTER then RegistrationLog(t, order, u) else UnregistrationLog(t, u)
  }

  // ----- the pending lists -----

  datatype FibUpdate = FibUpdate(name: Name, faceId: nat, cost: nat, add: bool)

  function ToFibUpdate(ev: Event): FibUpdate {
    FibUpdate(ev.name, ev.route.faceId, if ev.add then ev.route.cost else 0, ev.add)
  }

  predicate SameKey(a: FibUpdate, b: FibUpdate) {
    a.name == b.name && a.faceId == b.faceId
  }

  /** addFibUpdate: an update for the same name and face is replaced in place. */
  function AddFibUpdate(list: seq<FibUpdate>, u: FibUpdate): (l: seq<FibUpdate>)
    ensures forall v :: v in l ==> v == u || v in list
  {
    if list == [] then [u]
    else if SameKey(list[0], u) then [u] + list[1..]
    else [list[0]] + AddFibUpdate(list[1..], u)
  }

  /** The pending list for the batch's face (`batch`) or for all other faces. */
  function Pending(log: seq<Event>, face: nat, batch: bool): (l: seq<FibUpdate>)
    ensures forall v :: v in l ==> ((v.faceId == face) == batch)
  {
    if log == [] then []
    else
      var last := log[|log| - 1];
      var l := Pending(log[..|log| - 1], face, batch);
      if (last.route.faceId == face) == batch then AddFibUpdate(l, ToFibUpdate(last)) else l
  }

  /** The lists the updater sends for a batch; those of a destroyed face are cleared. */
  function BatchList(log: seq<Event>, u: RibUpdate): seq<FibUpdate> {
    if u.action == REMOVE_FACE then [] else Pending(log, u.route.faceId, true)
  }

  function RestList(log: seq<Event>, u: RibUpdate): seq<FibUpdate> {
    Pending(log, u.route.faceId, false)
  }

  ghost predicate UniqueKeys(list: seq<FibUpdate>) {
    forall i, j :: 0 <= i < j < |list| ==> !SameKey(list[i], list[j])
  }

  lemma {:induction false} AddKeepsUnique(list: seq<FibUpdate>, u: FibUpdate)
    requires UniqueKeys(list)
    ensures UniqueKeys(AddFibUpdate(list, u))
  {
    if list != [] && !SameKey(list[0], u) {
      AddKeepsUnique(list[1..], u);
      var l := AddFibUpdate(list[1..], u);
      assert forall v :: v in list[1..] ==> !SameKey(list[0], v);
      assert forall v :: v in l ==> !SameKey(list[0], v);
    }
  }

  /** At most one pending update per name and face, in either list. */
  lemma {:induction false} PendingUnique(log: seq<Event>, face: nat, batch: bool)
    ensures UniqueKeys(Pending(log, face, batch))
  {
    if log != [] {
      PendingUnique(log[..|log| - 1], face, batch);
      AddKeepsUnique(Pending(log[..|log| - 1], face, batch), ToFibUpdate(log[|log| - 1]));
    }
  }

  // ----- the FIB -----

  type Fib = map<(Name, nat), nat>

  function FibAt(fib: Fib, n: Name, face: nat): Option<nat> {
    if (n, face) in fib then Some(fib[(n, face)]) else None
  }

  function ApplyUpdate(fib: Fib, u: FibUpdate): Fib {
    if u.add then fib[(u.name, u.faceId) := u.cost] else fib - {(u.name, u.faceId)}
  }

  function ApplyUpdates(fib: Fib, list: seq<FibUpdate>): Fib
    decreases |list|
  {
    if list == [] then fib else ApplyUpdates(ApplyUpdate(fib, list[0]), list[1..])
  }

  /** What a run of changes at one name and face leaves of a former cost: the last one wins. */
  function After(old': Option<nat>, evs: seq<Event>): Option<nat> {
    if evs == [] then old'
    else
      var last := evs[|evs| - 1];
      if last.add then Some(last.route.cost) else None
  }

  /** The pending update at a name and face. */
  function PendingAt(list: seq<FibUpdate>, n: Name, face: nat): (u: Option<FibUpdate>)
    ensures u.Some? ==> u.value.name == n && u.value.faceId == face && u.value in list
    ensures u.None? ==> forall v :: v in list ==> !(v.name == n && v.faceId == face)
  {
    if list == [] then None
    else if list[0].name == n && list[0].faceId == face then Some(list[0])
    else PendingAt(list[1..], n, face)
  }

  lemma {:induction false} AddAt(list: seq<FibUpdate>, u: FibUpdate, n: Name, face: nat)
    ensures PendingAt(AddFibUpdate(list, u), n, face)
            == if u.name == n && u.faceId == face then Some(u) else PendingAt(list, n, face)
  {
    if list != [] && !SameKey(list[0], u) {
      AddAt(list[1..], u, n, face);
      assert AddFibUpdate(list, u)[1..] == AddFibUpdate(list[1..], u);
    }
  }

  /** A pending list holds, for each of its names and faces, the last change logged there. */
  lemma {:induction false} PendingIsLast(log: seq<Event>, face: nat, batch: bool, n: Name, f: nat)
    ensures var evs := EventsAt(log, n, f);
            PendingAt(Pending(log, face, batch), n, f)
            == if (f == face) == batch && evs != [] then Some(ToFibUpdate(evs[|evs| - 1])) else None
  {
    if log != [] {
      var front, last := log[..|log| - 1], log[|log| - 1];
      PendingIsLast(front, face, batch, n, f);
      AddAt(Pending(front, face, batch), ToFibUpdate(last), n, f);
      EventsAtConcat(front, [last], n, f);
      assert front + [last] == log;
      assert [last][1..] == [];
    }
  }

  lemma {:induction false} ApplyAt(fib: Fib, list: seq<FibUpdate>, n: Name, face: nat)
    requires UniqueKeys(list)
    ensures var u := PendingAt(list, n, face);
            FibAt(ApplyUpdates(fib, list), n, face)
            == if u.None? then FibAt(fib, n, face) else if u.value.add then Some(u.value.cost) else None
    decreases |list|
  {
    if list != [] {
      ApplyAt(ApplyUpdate(fib, list[0]), list[1..], n, face);
      if list[0].name == n && list[0].faceId == face {
        assert forall v :: v in list[1..] ==> !SameKey(list[0], v);
      }
    }
  }

  /** The FIB after every command of the batch-face list and then of the other list succeeded;
      a destroyed face's own commands are not sent. */
  function FibAfter(fib: Fib, log: seq<Event>, u: RibUpdate): Fib {
    ApplyUpdates(ApplyUpdates(fib, BatchList(log, u)), RestList(log, u))
  }

  /** Sending the two deduplicated lists has the effect of the whole log. */
  lemma FibAfterLog(fib: Fib, log: seq<Event>, u: RibUpdate, n: Name, face: nat)
    requires u.action == REMOVE_FACE ==> face != u.route.faceId
    ensures FibAt(FibAfter(fib, log, u), n, face) == After(FibAt(fib, n, face), EventsAt(log, n, face))
  {
    var g := u.route.faceId;
    var first := if u.action == REMOVE_FACE then [] else Pending(log, g, true);
    PendingUnique(log, g, true);
    PendingUnique(log, g, false);
    ApplyAt(fib, first, n, face);
    ApplyAt(ApplyUpdates(fib, first), Pending(log, g, false), n, face);
    PendingIsLast(log, g, true, n, face);
    PendingIsLast(log, g, false, n, face);
  }

  // ----- the inherited-route records -----

  function Records(log: seq<Event>): seq<RibUpdate> {
    if log == [] then []
    else (if log[0].recorded then [RibUpdate(if log[0].add then REGISTER else UNREGISTER, log[0].name, log[0].route)]
        else [])
         + Records(log[1..])
  }

  /** One change to an entry's inherited-route list: append, or remove the first on the face. */
  function ChangeInherited(e: EntryView, rec: RibUpdate): EntryView {
    if rec.action == REGISTER then e.(inherited := e.inherited + [rec.route])
    else if rec.action == UNREGISTER && e.HasInherited(rec.route.faceId) then
      var i := FindFace(e.inherited, rec.route.faceId);
      e.(inherited := e.inherited[..i] + e.inherited[i + 1..])
    else e
  }

  /** The RIB asserts that the name is in the table and erases an element it expects to find. */
  predicate Applicable(t: Table, rec: RibUpdate) {
    rec.name in t && (rec.action == UNREGISTER ==> t[rec.name].HasInherited(rec.route.faceId))
  }

  /** Every record of the list finds its entry, and its element if it removes one. */
  predicate AllApplicable(t: Table, recs: seq<RibUpdate>)
    decreases |recs|
  {
    recs == [] || (Applicable(t, recs[0])
                   && AllApplicable(t[recs[0].name := ChangeInherited(t[recs[0].name], recs[0])], recs[1..]))
  }

  /** modifyInheritedRoutes. */
  function ModifyInherited(t: Table, recs: seq<RibUpdate>): Table
    requires AllApplicable(t, recs)
    decreases |recs|
  {
    if recs == [] then t
    else ModifyInherited(t[recs[0].name := ChangeInherited(t[recs[0].name], recs[0])], recs[1..])
  }
}
