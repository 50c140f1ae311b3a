/** Re-registration that switches the capture flag: the FIB comes out right exactly when no entry
    below is misled; the capture count is left behind either way. */
module FibCaptureChange {
  import opened Names
  import opened Options
  import opened RibModel
  import opened EffectiveNextHops
  import opened FibDelta
  import opened FibCompute
  import opened FibRefinement
  import opened FibSteps
  import opened FibCommands

  /** The sets of the second walk, for the changed capture flag; `UpdateAdd` and `UpdateRemove`
      are those of the first, for child inheritance. */
  function CaptureAdd(t: Table, n: Name, r: Route): (s: RouteSet)
    requires Shape(t)
    ensures ByFace(s)
  {
    if r.IsCapture() then [] else AncestorRoutes(t, FindParent(t.Keys, n))
  }

  function CaptureRemove(t: Table, n: Name, r: Route): (s: RouteSet)
    requires Shape(t)
    ensures ByFace(s)
  {
    if r.IsCapture() then AncestorRoutes(t, FindParent(t.Keys, n)) else []
  }

  /** A re-registration of the only route of `n` with another capture flag. */
  ghost predicate Toggles(t: Table, n: Name, r: Route) {
    && Shape(t) && CountsOk(t) && Single(t) && RecordsOk(t) && n in t && Matches(t[n].routes[0], r)
    && r.IsCapture() != t[n].routes[0].IsCapture()
  }

  /** What the entry itself gets on a face, for the cost and for the capture flag. */
  ghost function CostSelf(n: Name, r: Route, old': Route, face: nat): seq<Event> {
    if face == r.faceId && r.cost != old'.cost then [Event(n, r, true, false)] else []
  }

  ghost function CaptureSelf(t: Table, n: Name, r: Route, face: nat): seq<Event>
    requires n in t
  {
    var a := Ancestor(RoutesOf(t), n, face);
    if a.None? then []
    else if r.IsCapture() then if t[n].HasInherited(face) then [Event(n, a.value, false, true)] else []
    else if face != r.faceId then [Event(n, a.value, true, true)] else []
  }

  /** What an entry below gets on a face, in the two walks. */
  ghost function Reached(t: Table, n: Name, r: Route, d: Name, face: nat): seq<Event>
    requires Shape(t) && n in t && t[n].routes != []
  {
    ReachedAt(t, |n| + 1, d, face, UpdateAdd(t, n, r, t[n].routes[0]), UpdateRemove(r, t[n].routes[0]))
    + ReachedAt(t, |n| + 1, d, face, CaptureAdd(t, n, r), CaptureRemove(t, n, r))
  }

  lemma ToggleInherit(t: Table, n: Name, r: Route, e: EntryView, d: Name, face: nat)
    requires Toggles(t, n, r) && e == WithUpdatedRoute(t[n], 0, r)
    ensures EventsAt(InheritChangeLog(t, n, e, r, t[n].routes[0]), d, face)
            == if n < d then ReachedAt(t, |n| + 1, d, face, UpdateAdd(t, n, r, t[n].routes[0]),
                                       UpdateRemove(r, t[n].routes[0]))
               else []
  {
    var old' := t[n].routes[0];
    UpdatedEntry(t, n, r);
    OneRoute([r], r.faceId);
    var add, rem := UpdateAdd(t, n, r, old'), UpdateRemove(r, old');
    InheritPart(t, n, r, e, old');
    BelowAt(t, n, e.children, add, rem, InheritChangeLog(t, n, e, r, old'), d, face);
  }

  lemma ToggleCapture(t: Table, n: Name, r: Route, e: EntryView, d: Name, face: nat)
    requires Toggles(t, n, r) && e == WithUpdatedRoute(t[n], 0, r)
    ensures EventsAt(CaptureChangeLog(t, n, e, r, t[n].routes[0]), d, face)
            == if d == n then CaptureSelf(t, n, r, face)
               else if n < d then ReachedAt(t, |n| + 1, d, face, CaptureAdd(t, n, r), CaptureRemove(t, n, r))
               else []
  {
    UpdatedEntry(t, n, r);
    OneRoute([r], face);
    var ancestors := AncestorRoutes(t, FindParent(t.Keys, n));
    var own := if r.IsCapture() then RemoveInheritedLog(n, e, ancestors) else AddInheritedLog(n, e, ancestors);
    var below := ChildrenLog(t, n, e.children, CaptureAdd(t, n, r), CaptureRemove(t, n, r));
    assert CaptureChangeLog(t, n, e, r, t[n].routes[0]) == own + below;
    EventsAtConcat(own, below, d, face);
    ChildrenAt(t, n, e.children, CaptureAdd(t, n, r), CaptureRemove(t, n, r), d, face);
    AncestorRoutesExact(t, n, face);
    if r.IsCapture() {
      RemoveInheritedAt(n, e, ancestors, d, face);
    } else {
      AddInheritedAt(n, e, ancestors, d, face);
    }
  }

  lemma ToggleParts(t: Table, n: Name, r: Route, e: EntryView)
    requires Toggles(t, n, r) && e == WithUpdatedRoute(t[n], 0, r) && e.routes == [r]
    ensures HasFace(e.routes, r.faceId) && UpdateDefined(e.routes, r, t[n].routes[0])
    ensures UpdatedRouteLog(t, n, e, r, t[n].routes[0])
            == (if r.cost != t[n].routes[0].cost then [Event(n, r, true, false)] else [])
               + (InheritChangeLog(t, n, e, r, t[n].routes[0]) + CaptureChangeLog(t, n, e, r, t[n].routes[0]))
  {
    CostPart(n, e, r, t[n].routes[0]);
    ToggleFlags(t, n, r, e);
  }

  lemma ToggleFlags(t: Table, n: Name, r: Route, e: EntryView)
    requires Toggles(t, n, r) && e == WithUpdatedRoute(t[n], 0, r)
    ensures UpdatedBelowLog(t, n, e, r, t[n].routes[0])
            == InheritChangeLog(t, n, e, r, t[n].routes[0]) + CaptureChangeLog(t, n, e, r, t[n].routes[0])
  {
    LinksInside(t, n);
    assert r.flags != t[n].routes[0].flags;
  }

  /** Everything such a re-registration logs, at every name and face. */
  lemma ToggleAt(t: Table, n: Name, r: Route, d: Name, face: nat)
    requires Toggles(t, n, r)
    ensures HasFace(WithUpdatedRoute(t[n], 0, r).routes, r.faceId)
    ensures UpdateDefined(WithUpdatedRoute(t[n], 0, r).routes, r, t[n].routes[0])
    ensures EventsAt(UpdatedRouteLog(t, n, WithUpdatedRoute(t[n], 0, r), r, t[n].routes[0]), d, face)
            == if d == n then CostSelf(n, r, t[n].routes[0], face) + CaptureSelf(t, n, r, face)
               else if n < d then Reached(t, n, r, d, face)
               else []
  {
    var e := WithUpdatedRoute(t[n], 0, r);
    UpdatedEntry(t, n, r);
    ToggleParts(t, n, r, e);
    ToggleLists(t, n, r, e, InheritChangeLog(t, n, e, r, t[n].routes[0]),
                CaptureChangeLog(t, n, e, r, t[n].routes[0]), d, face);
  }

  lemma ToggleLists(t: Table, n: Name, r: Route, e: EntryView, inherit: seq<Event>, capture: seq<Event>, d: Name,
                    face: nat)
    requires Toggles(t, n, r) && e == WithUpdatedRoute(t[n], 0, r)
    requires inherit == InheritChangeLog(t, n, e, r, t[n].routes[0])
    requires capture == CaptureChangeLog(t, n, e, r, t[n].routes[0])
    ensures EventsAt((if r.cost != t[n].routes[0].cost then [Event(n, r, true, false)] else []) + (inherit + capture),
                     d, face)
            == if d == n then CostSelf(n, r, t[n].routes[0], face) + CaptureSelf(t, n, r, face)
               else if n < d then Reached(t, n, r, d, face)
               else []
  {
    SelfThenBelow(n, r, r.cost != t[n].routes[0].cost, inherit + capture, d, face);
    EventsAtConcat(inherit, capture, d, face);
    ToggleInherit(t, n, r, e, d, face);
    ToggleCapture(t, n, r, e, d, face);
    if d == n {
      assert [] + CaptureSelf(t, n, r, face) == CaptureSelf(t, n, r, face);
    }
  }

  lemma ToggleSelf(t: Table, t1: Table, log: seq<Event>, n: Name, r: Route, face: nat)
    requires Toggles(t, n, r) && t1 == t[n := WithUpdatedRoute(t[n], 0, r)] && t1[n].routes == [r]
    requires EventsAt(log, n, face) == CostSelf(n, r, t[n].routes[0], face) + CaptureSelf(t, n, r, face)
    ensures PointGood(t, t1, log, n, face)
  {
    var m, m' := RoutesOf(t), RoutesOf(t1);
    OneRoute([r], face);
    OneRoute(t[n].routes, face);
    AncestorFrame(m, m', n, n, face);
    assert m'[n] == [r] && m[n] == t[n].routes;
    assert Inherits(m, n, face) ==> t[n].HasInherited(face);
    assert t[n].HasInherited(face) ==> !HasFace(t[n].routes, face);
    if face == r.faceId {
      assert CostSelf(n, r, t[n].routes[0], face) + [] == CostSelf(n, r, t[n].routes[0], face);
    } else {
      assert [] + CaptureSelf(t, n, r, face) == CaptureSelf(t, n, r, face);
    }
    RecordedShort(EventsAt(log, n, face));
    FitsShort(t1[n].HasInherited(face), Recorded(EventsAt(log, n, face)));
  }

  // ----- an entry that takes the face from here -----

  /** The events of the first walk, for child inheritance: `old'` becomes `r`, `a` is what the
      ancestors offer, `has` says whether the face is recorded. */
  function InheritTaken(old': Route, r: Route, a: Option<Route>, has: bool, d: Name, face: nat): seq<Event> {
    if face != r.faceId || r.IsChildInherit() == old'.IsChildInherit() then []
    else if r.IsChildInherit() then [Event(d, r, true, true)]
    else (if has then [Event(d, r, false, true)] else []) + (if a.Some? then [Event(d, a.value, true, true)] else [])
  }

  /** And of the second, for the capture flag. */
  function CaptureTaken(r: Route, a: Option<Route>, has: bool, d: Name): seq<Event> {
    if a.None? then []
    else if !r.IsCapture() then [Event(d, a.value, true, true)]
    else if has then [Event(d, a.value, false, true)] else []
  }

  function Taken(old': Route, r: Route, a: Option<Route>, has: bool, d: Name, face: nat): seq<Event> {
    InheritTaken(old', r, a, has, d, face) + CaptureTaken(r, a, has, d)
  }

  /** What a route hands down on a face below ancestors that offer `a`. */
  function Handed(r: Route, a: Option<Route>, face: nat): Option<Route> {
    if face == r.faceId && r.IsChildInherit() then Some(r) else if r.IsCapture() then None else a
  }

  lemma ReachedIsTaken(t: Table, n: Name, r: Route, d: Name, face: nat)
    requires Toggles(t, n, r) && Takes(t, n, d, face)
    ensures Reached(t, n, r, d, face)
            == Taken(t[n].routes[0], r, Ancestor(RoutesOf(t), n, face), t[d].HasInherited(face), d, face)
  {
    InheritReached(t, n, r, d, face);
    CaptureReached(t, n, r, d, face);
  }

  lemma InheritReached(t: Table, n: Name, r: Route, d: Name, face: nat)
    requires Toggles(t, n, r) && Takes(t, n, d, face)
    ensures ReachedAt(t, |n| + 1, d, face, UpdateAdd(t, n, r, t[n].routes[0]), UpdateRemove(r, t[n].routes[0]))
            == InheritTaken(t[n].routes[0], r, Ancestor(RoutesOf(t), n, face), t[d].HasInherited(face), d, face)
  {
    AncestorRoutesExact(t, n, r.faceId);
  }

  lemma CaptureReached(t: Table, n: Name, r: Route, d: Name, face: nat)
    requires Toggles(t, n, r) && Takes(t, n, d, face)
    ensures ReachedAt(t, |n| + 1, d, face, CaptureAdd(t, n, r), CaptureRemove(t, n, r))
            == CaptureTaken(r, Ancestor(RoutesOf(t), n, face), t[d].HasInherited(face), d)
  {
    AncestorRoutesExact(t, n, face);
  }

  lemma AfterConcat(former: Option<nat>, a: seq<Event>, b: seq<Event>)
    ensures After(former, a + b) == After(After(former, a), b)
  {
  }

  /** The two walks reach the new next hop, unless the re-registration misleads. */
  lemma TakenReaches(old': Route, r: Route, a: Option<Route>, has: bool, d: Name, face: nat)
    requires r.IsCapture() != old'.IsCapture() && old'.faceId == r.faceId
    requires Handed(old', a, face).Some? ==> has
    ensures After(CostOf(Handed(old', a, face)), Taken(old', r, a, has, d, face)) == CostOf(Handed(r, a, face))
            <==> !(face == r.faceId && MisleadsBy(r, old', a))
  {
    AfterConcat(CostOf(Handed(old', a, face)), InheritTaken(old', r, a, has, d, face), CaptureTaken(r, a, has, d));
  }

  lemma TakenFits(old': Route, r: Route, a: Option<Route>, has: bool, d: Name, face: nat)
    ensures Fits(has, Taken(old', r, a, has, d, face))
    ensures Recorded(Taken(old', r, a, has, d, face)) == Taken(old', r, a, has, d, face)
  {
    FitsShort(has, Taken(old', r, a, has, d, face));
    RecordedAll(Taken(old', r, a, has, d, face));
  }

  /** What `n` hands down on a face, before and after. */
  lemma ToggleHanded(t: Table, t1: Table, n: Name, r: Route, face: nat)
    requires Toggles(t, n, r) && t1 == t[n := WithUpdatedRoute(t[n], 0, r)] && t1[n].routes == [r]
    ensures DifferAtMost(RoutesOf(t), RoutesOf(t1), n)
    ensures HandedDown(RoutesOf(t), n, face) == Handed(t[n].routes[0], Ancestor(RoutesOf(t), n, face), face)
    ensures HandedDown(RoutesOf(t1), n, face) == Handed(r, Ancestor(RoutesOf(t), n, face), face)
  {
    var m, m' := RoutesOf(t), RoutesOf(t1);
    AncestorFrame(m, m', n, n, face);
    OneRoute([r], face);
    OneRoute(t[n].routes, face);
    assert m'[n] == [r] && m[n] == t[n].routes;
  }

  /** At a taker the two walks reach the new effective next hop, unless it is misled. */
  lemma ToggleTaker(t: Table, t1: Table, n: Name, r: Route, d: Name, face: nat)
    requires Toggles(t, n, r) && t1 == t[n := WithUpdatedRoute(t[n], 0, r)] && t1[n].routes == [r]
    requires Takes(t, n, d, face)
    ensures After(Effective(RoutesOf(t), d, face), Reached(t, n, r, d, face)) == Effective(RoutesOf(t1), d, face)
            <==> !(face == r.faceId && Misleads(t, n, r, t[n].routes[0]))
  {
    ToggleHanded(t, t1, n, r, face);
    TakerEffective(t, RoutesOf(t), RoutesOf(t1), n, d, face);
    ReachedIsTaken(t, n, r, d, face);
    assert Effective(RoutesOf(t), d, face).Some? ==> t[d].HasInherited(face) by {
      assert Inherits(RoutesOf(t), d, face) <==> Effective(RoutesOf(t), d, face).Some?;
    }
    TakenReaches(t[n].routes[0], r, Ancestor(RoutesOf(t), n, face), t[d].HasInherited(face), d, face);
  }

  /** The records at a taker pass the assertions, misled or not. */
  lemma ToggleRecords(t: Table, t1: Table, n: Name, r: Route, d: Name, face: nat)
    requires Toggles(t, n, r) && Takes(t, n, d, face) && d in t1 && t1[d] == t[d]
    ensures Recorded(Reached(t, n, r, d, face)) == Reached(t, n, r, d, face)
    ensures Pattern(t1, d, face, Reached(t, n, r, d, face))
  {
    ReachedIsTaken(t, n, r, d, face);
    TakenFits(t[n].routes[0], r, Ancestor(RoutesOf(t), n, face), t[d].HasInherited(face), d, face);
  }

  lemma ToggleSilent(t: Table, n: Name, r: Route, d: Name, face: nat)
    requires Toggles(t, n, r) && n < d && !Takes(t, n, d, face)
    ensures Reached(t, n, r, d, face) == []
  {
    NonTakerSilent(t, n, UpdateAdd(t, n, r, t[n].routes[0]), UpdateRemove(r, t[n].routes[0]), d, face);
    NonTakerSilent(t, n, CaptureAdd(t, n, r), CaptureRemove(t, n, r), d, face);
  }

  /** Below `n` the step is right at every face the entry does not take from here, and at every
      face of a re-registration that does not mislead. */
  lemma ToggleBelow(t: Table, t1: Table, log: seq<Event>, n: Name, r: Route, d: Name, face: nat)
    requires Toggles(t, n, r) && t1 == t[n := WithUpdatedRoute(t[n], 0, r)] && t1[n].routes == [r] && n < d
    requires EventsAt(log, d, face) == Reached(t, n, r, d, face)
    requires face == r.faceId && Misleads(t, n, r, t[n].routes[0]) ==> !Takes(t, n, d, face)
    ensures PointGood(t, t1, log, d, face)
  {
    if Takes(t, n, d, face) {
      ToggleTaker(t, t1, n, r, d, face);
      ToggleRecords(t, t1, n, r, d, face);
      TakenRecords(t, t1, Reached(t, n, r, d, face), d, face);
    } else {
      ToggleHanded(t, t1, n, r, face);
      ToggleUntaken(t, t1, log, n, r, d, face);
    }
  }

  lemma ToggleUntaken(t: Table, t1: Table, log: seq<Event>, n: Name, r: Route, d: Name, face: nat)
    requires Toggles(t, n, r) && DifferAtMost(RoutesOf(t), RoutesOf(t1), n) && n < d && !Takes(t, n, d, face)
    requires d in t ==> d in t1 && t1[d].inherited == t[d].inherited
    requires EventsAt(log, d, face) == Reached(t, n, r, d, face)
    ensures PointGood(t, t1, log, d, face)
  {
    ToggleSilent(t, n, r, d, face);
    PointSilent(t, t1, log, n, d, face);
  }

  /** The records of such a re-registration pass the assertions, misled or not. */
  lemma TogglePattern(t: Table, t1: Table, log: seq<Event>, n: Name, r: Route, d: Name, face: nat)
    requires Toggles(t, n, r) && t1 == t[n := WithUpdatedRoute(t[n], 0, r)] && t1[n].routes == [r]
    requires EventsAt(log, d, face)
             == if d == n then CostSelf(n, r, t[n].routes[0], face) + CaptureSelf(t, n, r, face)
                else if n < d then Reached(t, n, r, d, face)
                else []
    ensures Pattern(t1, d, face, Recorded(EventsAt(log, d, face)))
  {
    if d == n {
      ToggleSelf(t, t1, log, n, r, face);
    } else if n < d {
      if Takes(t, n, d, face) {
        ToggleRecords(t, t1, n, r, d, face);
      } else {
        ToggleSilent(t, n, r, d, face);
      }
    }
  }

  lemma TakenRecords(t: Table, t1: Table, q: seq<Event>, d: Name, face: nat)
    requires RecordsOk(t) && d in t && d in t1 && t1[d] == t[d] && !HasFace(t[d].routes, face)
    requires After(Effective(RoutesOf(t), d, face), q) == Effective(RoutesOf(t1), d, face)
    ensures PointRecords(t1, d, face, q)
  {
    assert Inherits(RoutesOf(t), d, face) ==> t[d].HasInherited(face);
  }
}
