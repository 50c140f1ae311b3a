/** The RIB as a value: entries with their links, direct routes, recorded inherited routes
    and capture count. The classes of RibTable.dfy and FibUpdater.dfy hold the same data in
    objects and are proved against the functions below. */
module RibModel {
  import opened Names
  import opened Options

  /** ROUTE_FLAG_CHILD_INHERIT is bit 0 of the flags and ROUTE_FLAG_CAPTURE is bit 1. */
  datatype Route = Route(faceId: nat, origin: nat, flags: nat, cost: nat) {
    predicate IsChildInherit() { flags % 2 == 1 }
    predicate IsCapture() { flags / 2 % 2 == 1 }
  }

  datatype EntryView = EntryView(parent: Option<Name>, children: seq<Name>, routes: seq<Route>,
                                 inherited: seq<Route>, nCapture: nat) {
    predicate HasCapture() { nCapture > 0 }
    predicate HasInherited(face: nat) { HasFace(inherited, face) }
  }

  type Table = map<Name, EntryView>

  // ----- one entry's route list -----

  predicate HasFace(routes: seq<Route>, face: nat) {
    exists i :: 0 <= i < |routes| && routes[i].faceId == face
  }

  predicate Matches(a: Route, b: Route) {
    a.faceId == b.faceId && a.origin == b.origin
  }

  /** Position of the first route with the face and origin of `r`, |routes| when there is none. */
  function FindRoute(routes: seq<Route>, r: Route): (i: nat)
    ensures i <= |routes|
    ensures i < |routes| ==> Matches(routes[i], r)
    ensures forall j :: 0 <= j < i ==> !Matches(routes[j], r)
  {
    if routes == [] then 0
    else if Matches(routes[0], r) then 0
    else 1 + FindRoute(routes[1..], r)
  }

  /** Position of the first route on the face, |routes| when there is none. */
  function FindFace(routes: seq<Route>, face: nat): (i: nat)
    ensures i <= |routes|
    ensures i < |routes| <==> HasFace(routes, face)
    ensures i < |routes| ==> routes[i].faceId == face
    ensures forall j :: 0 <= j < i ==> routes[j].faceId != face
  {
    if routes == [] then 0
    else if routes[0].faceId == face then 0
    else
      var k := FindFace(routes[1..], face);
      assert forall j :: 0 <= j < |routes[1..]| ==> routes[1..][j] == routes[j + 1];
      assert HasFace(routes, face) ==> HasFace(routes[1..], face) by {
        if HasFace(routes, face) {
          var i :| 0 <= i < |routes| && routes[i].faceId == face;
          assert routes[1..][i - 1].faceId == face;
        }
      }
      1 + k
  }

  predicate HasChildInherit(routes: seq<Route>, face: nat) {
    exists i :: 0 <= i < |routes| && routes[i].faceId == face && routes[i].IsChildInherit()
  }

  predicate Captures(routes: seq<Route>) {
    exists i :: 0 <= i < |routes| && routes[i].IsCapture()
  }

  function CountCapturing(routes: seq<Route>): nat {
    if routes == [] then 0 else (if routes[0].IsCapture() then 1 else 0) + CountCapturing(routes[1..])
  }

  /** First route on the face with the lowest cost, among the child-inherit routes if `onlyInherit`. */
  function LowestCost(routes: seq<Route>, face: nat, onlyInherit: bool): (c: Option<Route>)
    ensures c.Some? ==> c.value in routes && c.value.faceId == face
    ensures c.Some? && onlyInherit ==> c.value.IsChildInherit()
    ensures forall r :: r in routes && r.faceId == face && (onlyInherit ==> r.IsChildInherit())
              ==> c.Some? && c.value.cost <= r.cost
  {
    if routes == [] then None
    else
      var last := routes[|routes| - 1];
      var c := LowestCost(routes[..|routes| - 1], face, onlyInherit);
      if last.faceId == face && (onlyInherit ==> last.IsChildInherit())
         && (c.None? || last.cost < c.value.cost)
      then Some(last) else c
  }

  function OnFace(routes: seq<Route>, face: nat): seq<Route> {
    if routes == [] then []
    else (if routes[0].faceId == face then [routes[0]] else []) + OnFace(routes[1..], face)
  }

  /** Inserts into a list ordered by cost, after the routes of the same cost. */
  function InsertByCost(sorted: seq<Route>, r: Route): seq<Route> {
    if sorted == [] || r.cost < sorted[0].cost then [r] + sorted
    else [sorted[0]] + InsertByCost(sorted[1..], r)
  }

  function SortByCost(routes: seq<Route>): seq<Route> {
    if routes == [] then []
    else InsertByCost(SortByCost(routes[..|routes| - 1]), routes[|routes| - 1])
  }

  /** The route of second lowest cost on the face; equal costs rank in list order. */
  function SecondLowestCost(routes: seq<Route>, face: nat): Option<Route> {
    var matches := SortByCost(OnFace(routes, face));
    if |matches| < 2 then None else Some(matches[1])
  }

  /** m_nRoutesWithCaptureSet is a 64-bit unsigned counter. */
  const UINT64_MAX: nat := 0xFFFF_FFFF_FFFF_FFFF

  function Increment(n: nat): nat { if n == UINT64_MAX then 0 else n + 1 }
  function Decrement(n: nat): nat { if n == 0 then UINT64_MAX else n - 1 }

  function WithRoute(e: EntryView, r: Route): EntryView {
    e.(routes := e.routes + [r], nCapture := if r.IsCapture() then Increment(e.nCapture) else e.nCapture)
  }

  function WithoutRoute(e: EntryView, i: nat): EntryView
    requires i < |e.routes|
  {
    e.(routes := e.routes[..i] + e.routes[i + 1..],
       nCapture := if e.routes[i].IsCapture() then Decrement(e.nCapture) else e.nCapture)
  }

  /** Re-registration overwrites flags and cost and leaves the capture count alone. */
  function WithUpdatedRoute(e: EntryView, i: nat, r: Route): EntryView
    requires i < |e.routes|
  {
    e.(routes := e.routes[i := e.routes[i].(flags := r.flags, cost := r.cost)])
  }

  // ----- the prefix tree -----

  /** The longest name of `keys` among the prefixes of `n` shorter than `k`. */
  function LongestPrefix(keys: set<Name>, n: Name, k: nat): (p: Option<Name>)
    requires k <= |n|
    ensures p.Some? ==> p.value in keys && p.value <= n && |p.value| < k
    ensures forall q :: q in keys && q <= n && |q| < k ==> p.Some? && q <= p.value
  {
    if k == 0 then None
    else if n[..k - 1] in keys then
      assert forall q :: q <= n && |q| < k ==> q == n[..|q|] && q <= n[..k - 1];
      Some(n[..k - 1])
    else
      assert forall q :: q in keys && q <= n && |q| < k ==> q == n[..|q|] && |q| < k - 1;
      LongestPrefix(keys, n, k - 1)
  }

  /** The parent of a name: its longest strict prefix in the table. */
  function FindParent(keys: set<Name>, n: Name): (p: Option<Name>)
    ensures p.Some? ==> p.value in keys && p.value < n
    ensures forall q :: q in keys && q < n ==> p.Some? && q <= p.value
  {
    LongestPrefix(keys, n, |n|)
  }

  ghost predicate NoDuplicates<T>(s: seq<T>) {
    forall i, j :: 0 <= i < j < |s| ==> s[i] != s[j]
  }

  ghost predicate LinksOk(t: Table, n: Name)
    requires n in t
  {
    && t[n].parent == FindParent(t.Keys, n)
    && NoDuplicates(t[n].children)
    && (forall c :: c in t[n].children <==> c in t && FindParent(t.Keys, c) == Some(n))
  }

  /** Every parent link names the longest strict prefix in the table, and the children
      lists are exactly the inverse of the parent links. */
  ghost predicate Shape(t: Table) {
    forall n {:trigger LinksOk(t, n)} :: n in t ==> LinksOk(t, n)
  }

  /** The lists hang at the first entries below `n`: each is below `n` with no entry between. */
  ghost predicate Frontier(t: Table, n: Name, names: seq<Name>) {
    && NoDuplicates(names)
    && forall c :: c in names <==> IsTopBelow(t, n, c)
  }

  ghost predicate IsTopBelow(t: Table, n: Name, c: Name) {
    c in t && n < c && forall m :: m in t && n < m ==> !(m < c)
  }

  lemma PrefixAt(m: Name, d: Name)
    ensures m <= d ==> |m| <= |d| && m == d[..|m|]
  {
  }

  lemma FrontierOfEntry(t: Table, n: Name)
    requires Shape(t) && n in t
    ensures Frontier(t, n, t[n].children)
  {
    assert LinksOk(t, n);
    forall c
      ensures c in t[n].children <==> IsTopBelow(t, n, c)
    {
      if c in t {
        ChildIsTop(t, n, c);
      }
    }
  }

  lemma ChildIsTop(t: Table, n: Name, c: Name)
    requires c in t && n in t
    ensures FindParent(t.Keys, c) == Some(n) <==> IsTopBelow(t, n, c)
  {
    var p := FindParent(t.Keys, c);
    if IsTopBelow(t, n, c) {
      assert n in t.Keys && n < c;
      assert p.value in t;
      if |n| == |p.value| {
        assert n == p.value;
      }
    }
    if p == Some(n) {
      forall m | m in t && n < m
        ensures !(m < c)
      {
        ParentIsDeepest(t.Keys, c, m);
      }
    }
  }

  lemma ParentIsDeepest(keys: set<Name>, c: Name, m: Name)
    requires m in keys
    ensures m < c ==> FindParent(keys, c).Some? && m <= FindParent(keys, c).value
  {
  }

  /** Every entry below `n` lies under one top entry below `n`. */
  lemma TopAbove(t: Table, n: Name, d: Name) returns (c: Name)
    requires d in t && n < d
    ensures IsTopBelow(t, n, c) && c <= d
    ensures forall k :: |n| < k < |c| ==> d[..k] !in t
  {
    var k := |n| + 1;
    while d[..k] !in t
      invariant |n| < k <= |d|
      invariant forall j :: |n| < j < k ==> d[..j] !in t
      decreases |d| - k
    {
      assert d[..|d|] == d;
      k := k + 1;
    }
    c := d[..k];
    assert n == d[..|n|] && n == c[..|n|];
    forall m | m in t && n < m
      ensures !(m < c)
    {
      PrefixAt(m, d);
    }
  }

  /** Two top entries below one name are not above a common name. */
  lemma TopsIncomparable(t: Table, n: Name, a: Name, b: Name, d: Name)
    requires IsTopBelow(t, n, a) && IsTopBelow(t, n, b) && a <= d && b <= d
    ensures a == b
  {
    PrefixesComparable(a, b, d);
    PrefixesComparable(b, a, d);
  }

  // ----- what the mutating operations do to the table -----

  /** `t'` holds exactly the entries `names`, each as in `t` up to its links. */
  ghost predicate SameExceptLinks(t: Table, t': Table, names: set<Name>) {
    forall n :: n in names ==>
      && n in t && n in t'
      && t'[n].routes == t[n].routes
      && t'[n].inherited == t[n].inherited
      && t'[n].nCapture == t[n].nCapture
  }

  /** The table after Rib::insert. */
  ghost predicate Inserted(t: Table, n: Name, r: Route, t': Table) {
    if n in t then
      var i := FindRoute(t[n].routes, r);
      t' == t[n := if i == |t[n].routes| then WithRoute(t[n], r) else WithUpdatedRoute(t[n], i, r)]
    else
      && t'.Keys == t.Keys + {n}
      && SameExceptLinks(t, t', t.Keys)
      && t'[n].routes == [r] && t'[n].inherited == []
      && t'[n].nCapture == (if r.IsCapture() then 1 else 0)
      && Shape(t')
  }

  /** The table after Rib::erase. */
  ghost predicate Erased(t: Table, n: Name, r: Route, t': Table) {
    if n in t && FindRoute(t[n].routes, r) < |t[n].routes| then
      var e := WithoutRoute(t[n], FindRoute(t[n].routes, r));
      if e.routes != [] then t' == t[n := e]
      else
        && t'.Keys == t.Keys - {n}
        && SameExceptLinks(t, t', t.Keys - {n})
        && Shape(t')
    else t' == t
  }
}
