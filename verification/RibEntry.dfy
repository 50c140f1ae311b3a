/** One RIB entry as an object: its routes, its capture count, the routes recorded as
    inherited, and the links of the prefix tree. */
module RibEntries {
  import opened Names
  import opened Options
  import opened RibModel
  import opened FibCompute

  function NamesOf(entries: seq<RibEntry>): (names: seq<Name>)
    ensures |names| == |entries|
    ensures forall i :: 0 <= i < |names| ==> names[i] == entries[i].name
  {
    seq(|entries|, i requires 0 <= i < |entries| => entries[i].name)
  }

  function Without<T(==)>(s: seq<T>, x: T): seq<T> {
    if s == [] then []
    else (if s[0] == x then [] else [s[0]]) + Without(s[1..], x)
  }

  lemma {:induction false} WithoutMembers<T>(s: seq<T>, x: T)
    ensures forall y :: y in Without(s, x) <==> y in s && y != x
  {
    if s != [] {
      WithoutMembers(s[1..], x);
      assert forall y :: y in s <==> y == s[0] || y in s[1..];
    }
  }

  lemma {:induction false} WithoutKeepsDistinct<T>(s: seq<T>, x: T)
    requires NoDuplicates(s)
    ensures NoDuplicates(Without(s, x))
  {
    if s != [] {
      WithoutKeepsDistinct(s[1..], x);
      WithoutMembers(s[1..], x);
      assert s[0] !in s[1..];
      assert s[0] !in Without(s[1..], x);
    }
  }

  class RibEntry {
    const name: Name
    var children: seq<RibEntry>
    var parent: RibEntry?
    var routes: seq<Route>
    var inheritedRoutes: seq<Route>
    var nRoutesWithCaptureSet: nat

    ghost function View(): EntryView
      reads this
    {
      EntryView(if parent == null then None else Some(parent.name), NamesOf(children),
                routes, inheritedRoutes, nRoutesWithCaptureSet)
    }

    constructor (name: Name)
      ensures this.name == name && View() == EntryView(None, [], [], [], 0) && children == [] && parent == null
    {
      this.name := name;
      children := [];
      parent := null;
      routes := [];
      inheritedRoutes := [];
      nRoutesWithCaptureSet := 0;
    }

    /** The copy the updater works on before the RIB itself changes. */
    constructor Copy(other: RibEntry)
      ensures name == other.name && View() == other.View()
      ensures children == other.children && parent == other.parent
    {
      name := other.name;
      children := other.children;
      parent := other.parent;
      routes := other.routes;
      inheritedRoutes := other.inheritedRoutes;
      nRoutesWithCaptureSet := other.nRoutesWithCaptureSet;
    }

    predicate HasCapture()
      reads this
    {
      nRoutesWithCaptureSet > 0
    }

    method InsertRoute(r: Route) returns (inserted: bool)
      modifies this`routes, this`nRoutesWithCaptureSet
      ensures inserted == (FindRoute(old(routes), r) == |old(routes)|)
      ensures View() == if inserted then WithRoute(old(View()), r) else old(View())
    {
      if FindRoute(routes, r) < |routes| {
        return false;
      }
      if r.IsCapture() {
        nRoutesWithCaptureSet := Increment(nRoutesWithCaptureSet);
      }
      routes := routes + [r];
      return true;
    }

    method UpdateRoute(i: nat, r: Route)
      requires i < |routes|
      modifies this`routes
      ensures View() == WithUpdatedRoute(old(View()), i, r)
    {
      routes := routes[i := routes[i].(flags := r.flags, cost := r.cost)];
    }

    method EraseRoute(i: nat)
      requires i < |routes|
      modifies this`routes, this`nRoutesWithCaptureSet
      ensures View() == WithoutRoute(old(View()), i)
    {
      if routes[i].IsCapture() {
        nRoutesWithCaptureSet := Decrement(nRoutesWithCaptureSet);
      }
      routes := routes[..i] + routes[i + 1..];
    }

    method AddChild(child: RibEntry)
      requires child.parent == null
      modifies this`children, child`parent
      ensures child.parent == this && children == old(children) + [child]
    {
      child.parent := this;
      children := children + [child];
    }

    method RemoveChild(child: RibEntry)
      requires child.parent == this
      modifies this`children, child`parent
      ensures child.parent == null && children == Without(old(children), child)
    {
      child.parent := null;
      children := Without(children, child);
    }

    method AddInheritedRoute(r: Route)
      modifies this`inheritedRoutes
      ensures View() == ChangeInherited(old(View()), RibUpdate(REGISTER, name, r))
    {
      inheritedRoutes := inheritedRoutes + [r];
    }

    /** Removes the first recorded route on the face; there must be one. */
    method RemoveInheritedRoute(r: Route)
      requires HasFace(inheritedRoutes, r.faceId)
      modifies this`inheritedRoutes
      ensures View() == ChangeInherited(old(View()), RibUpdate(UNREGISTER, name, r))
    {
      var i := FindFace(inheritedRoutes, r.faceId);
      inheritedRoutes := inheritedRoutes[..i] + inheritedRoutes[i + 1..];
    }

    method HasChildInheritOnFaceId(face: nat) returns (b: bool)
      ensures b <==> HasChildInherit(routes, face)
    {
      for i := 0 to |routes|
        invariant forall j :: 0 <= j < i ==> !(routes[j].faceId == face && routes[j].IsChildInherit())
      {
        if routes[i].faceId == face && routes[i].IsChildInherit() {
          return true;
        }
      }
      return false;
    }

    /** getRouteWithLowestCostByFaceId and getRouteWithLowestCostAndChildInheritByFaceId. */
    method GetRouteWithLowestCost(face: nat, onlyInherit: bool) returns (candidate: Option<Route>)
      ensures candidate == LowestCost(routes, face, onlyInherit)
    {
      candidate := None;
      for i := 0 to |routes|
        invariant candidate == LowestCost(routes[..i], face, onlyInherit)
      {
        assert routes[..i + 1][..i] == routes[..i];
        var route := routes[i];
        if route.faceId == face && (onlyInherit ==> route.IsChildInherit()) {
          if candidate.None? || route.cost < candidate.value.cost {
            candidate := Some(route);
          }
        }
      }
      assert routes[..|routes|] == routes;
    }
  }
}
