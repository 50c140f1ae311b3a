/** The delta FibUpdater emits: a log of next-hop changes, the subtree walk that produces
    most of it, and what the log does to a FIB. */
module FibDelta {
  import opened Names
  import opened Options
  import opened Sequences
  import opened RibModel
  import opened EffectiveNextHops

  // ----- route sets, kept in ascending order of face -----

  type RouteSet = seq<Route>

  ghost predicate ByFace(s: RouteSet) {
    forall i, j :: 0 <= i < j < |s| ==> s[i].faceId < s[j].faceId
  }

  function Lookup(s: RouteSet, face: nat): (r: Option<Route>)
    ensures r.Some? ==> r.value in s && r.value.faceId == face
    ensures r.None? ==> forall q :: q in s ==> q.faceId != face
  {
    if s == [] then None
    else if s[0].faceId == face then Some(s[0])
    else Lookup(s[1..], face)
  }

  /** std::set::insert: a route whose face is already there is dropped. */
  function Insert(s: RouteSet, r: Route): (s': RouteSet)
    ensures ByFace(s) ==> ByFace(s')
    ensures forall q :: q in s' ==> q in s || q == r
    ensures s' != []
  {
    if s == [] || r.faceId < s[0].faceId then [r] + s
    else if r.faceId == s[0].faceId then s
    else
      HeadIsLowest(s);
      var rest := Insert(s[1..], r);
      assert forall j :: 0 <= j < |rest| ==> rest[j] in rest;
      assert ByFace(s) ==> ByFace([s[0]] + rest) by { Prepended(s[0], rest); }
      [s[0]] + rest
  }

  lemma Prepended(first: Route, rest: RouteSet)
    ensures ByFace(rest) && (forall q :: q in rest ==> first.faceId < q.faceId) ==> ByFace([first] + rest)
  {
    assert forall j :: 0 <= j < |rest| ==> rest[j] in rest;
  }

  lemma HeadIsLowest(s: RouteSet)
    requires s != []
    ensures forall q :: q in s[1..] ==> q in s
    ensures ByFace(s) ==> ByFace(s[1..]) && forall q :: q in s[1..] ==> s[0].faceId < q.faceId
  {
  }

  function EraseFace(s: RouteSet, face: nat): (s': RouteSet)
    ensures ByFace(s) ==> ByFace(s')
    ensures forall q :: q in s' ==> q in s
  {
    if s == [] then []
    else if s[0].faceId == face then s[1..]
    else
      HeadIsLowest(s);
      [s[0]] + EraseFace(s[1..], face)
  }

  lemma {:induction false} LookupInsert(s: RouteSet, r: Route, face: nat)
    requires ByFace(s)
    ensures Lookup(Insert(s, r), face) == if face == r.faceId && Lookup(s, face).None? then Some(r) else Lookup(s, face)
  {
    if s != [] && r.faceId > s[0].faceId {
      LookupInsert(s[1..], r, face);
      assert Insert(s, r)[1..] == Insert(s[1..], r);
    } else {
      assert Insert(s, r) == s || Insert(s, r)[1..] == s;
      if s != [] && r.faceId < s[0].faceId {
        assert forall q :: q in s ==> q.faceId >= s[0].faceId;
      }
    }
  }

  lemma {:induction false} LookupErase(s: RouteSet, x: nat, face: nat)
    requires ByFace(s)
    ensures Lookup(EraseFace(s, x), face) == if face == x then None else Lookup(s, face)
  {
    if s != [] {
      if s[0].faceId == x {
        assert forall q :: q in s[1..] ==> q.faceId != x;
      } else {
        LookupErase(s[1..], x, face);
        assert EraseFace(s, x)[1..] == EraseFace(s[1..], x);
      }
    }
  }

  function InsertOffered(s: RouteSet, routes: seq<Route>): (s': RouteSet)
    ensures ByFace(s) ==> ByFace(s')
    decreases |routes|
  {
    if routes == [] then s
    else InsertOffered(if routes[0].IsChildInherit() then Insert(s, routes[0]) else s, routes[1..])
  }

  lemma {:induction false} LookupInsertOffered(s: RouteSet, routes: seq<Route>, face: nat)
    requires ByFace(s)
    ensures Lookup(InsertOffered(s, routes), face)
            == if Lookup(s, face).Some? then Lookup(s, face) else Offered(routes, face)
    decreases |routes|
  {
    if routes != [] {
      LookupInsert(s, routes[0], face);
      LookupInsertOffered(if routes[0].IsChildInherit() then Insert(s, routes[0]) else s, routes[1..], face);
    }
  }

  /** The routes collected by climbing the parent links from `p`, stopping at a capturing entry. */
  function CollectAncestors(t: Table, p: Option<Name>, acc: RouteSet): (s: RouteSet)
    requires Shape(t) && (p.Some? ==> p.value in t)
    ensures ByFace(acc) ==> ByFace(s)
    decreases if p.Some? then |p.value| + 1 else 0
  {
    if p.None? then acc
    else
      var e := t[p.value];
      var acc' := InsertOffered(acc, e.routes);
      assert LinksOk(t, p.value);
      if e.HasCapture() then acc' else CollectAncestors(t, e.parent, acc')
  }

  function AncestorRoutes(t: Table, p: Option<Name>): (s: RouteSet)
    requires Shape(t) && (p.Some? ==> p.value in t)
    ensures ByFace(s)
  {
    CollectAncestors(t, p, [])
  }

  ghost predicate CountsOk(t: Table) {
    forall n :: n in t ==> (t[n].HasCapture() <==> Captures(t[n].routes))
  }

  /** Climbing the parent links of the tree finds what the definition finds on the prefixes. */
  lemma {:induction false} CollectIsInherited(t: Table, n: Name, k: nat, acc: RouteSet, face: nat)
    requires Shape(t) && CountsOk(t) && k <= |n| && ByFace(acc)
    ensures var m := RoutesOf(t);
            var p := LongestPrefix(t.Keys, n, k);
            Lookup(CollectAncestors(t, p, acc), face)
            == if Lookup(acc, face).Some? then Lookup(acc, face) else InheritedRoute(m, n, k, face)
    decreases k
  {
    var m := RoutesOf(t);
    if k > 0 {
      var q := n[..k - 1];
      if q in t {
        CollectStep(t, n, k, acc);
        LookupInsertOffered(acc, t[q].routes, face);
        if t[q].HasCapture() {
          assert Captures(m[q]);
        } else {
          assert !Captures(m[q]);
          CollectIsInherited(t, n, k - 1, InsertOffered(acc, t[q].routes), face);
        }
      } else {
        assert LongestPrefix(t.Keys, n, k) == LongestPrefix(t.Keys, n, k - 1);
        CollectIsInherited(t, n, k - 1, acc, face);
      }
    }
  }

  lemma CollectStep(t: Table, n: Name, k: nat, acc: RouteSet)
    requires Shape(t) && 0 < k <= |n| && n[..k - 1] in t
    ensures var e := t[n[..k - 1]];
            var acc' := InsertOffered(acc, e.routes);
            CollectAncestors(t, LongestPrefix(t.Keys, n, k), acc)
            == if e.HasCapture() then acc' else CollectAncestors(t, LongestPrefix(t.Keys, n, k - 1), acc')
  {
    NearestPrefix(t, n, k);
    CollectFrom(t, n[..k - 1], acc);
  }

  lemma CollectFrom(t: Table, q: Name, acc: RouteSet)
    requires Shape(t) && q in t
    ensures t[q].parent.Some? ==> t[q].parent.value in t
    ensures var acc' := InsertOffered(acc, t[q].routes);
            CollectAncestors(t, Some(q), acc) == if t[q].HasCapture() then acc'
                else CollectAncestors(t, t[q].parent, acc')
  {
    assert LinksOk(t, q);
  }

  /** A prefix in the table is the longest, and its parent is the longest of the shorter ones. */
  lemma NearestPrefix(t: Table, n: Name, k: nat)
    requires Shape(t) && 0 < k <= |n| && n[..k - 1] in t
    ensures LongestPrefix(t.Keys, n, k) == Some(n[..k - 1])
    ensures t[n[..k - 1]].parent == LongestPrefix(t.Keys, n, k - 1)
  {
    ParentAlong(t.Keys, n, k - 1);
    ParentOf(t, n[..k - 1]);
  }

  lemma ParentOf(t: Table, n: Name)
    requires Shape(t) && n in t
    ensures t[n].parent == FindParent(t.Keys, n)
  {
    assert LinksOk(t, n);
  }

  lemma ParentAlong(keys: set<Name>, n: Name, k: nat)
    requires k <= |n|
    ensures FindParent(keys, n[..k]) == LongestPrefix(keys, n, k)
  {
    LongestPrefixOfPrefix(keys, n, n[..k], k);
  }

  lemma {:induction false} LongestPrefixOfPrefix(keys: set<Name>, n: Name, q: Name, k: nat)
    requires q <= n && k <= |q|
    ensures LongestPrefix(keys, n, k) == LongestPrefix(keys, q, k)
  {
    if k > 0 {
      assert n[..k - 1] == q[..k - 1];
      LongestPrefixOfPrefix(keys, n, q, k - 1);
    }
  }

  /** getAncestorRoutes returns, face by face, the inherited route of the definition. */
  lemma AncestorRoutesExact(t: Table, n: Name, face: nat)
    requires Shape(t) && CountsOk(t)
    ensures Lookup(AncestorRoutes(t, FindParent(t.Keys, n)), face) == Ancestor(RoutesOf(t), n, face)
  {
    CollectIsInherited(t, n, |n|, [], face);
  }

  // ----- the log -----

  /** One next-hop change for `name`: an add with the route's cost or a remove. A recorded one
      also goes to the list of inherited-route changes handed to the RIB. */
  datatype Event = Event(name: Name, route: Route, add: bool, recorded: bool)

  function EventsAt(log: seq<Event>, d: Name, face: nat): seq<Event> {
    if log == [] then []
    else (if log[0].name == d && log[0].route.faceId == face then [log[0]] else []) + EventsAt(log[1..], d, face)
  }

  lemma {:induction false} EventsAtConcat(a: seq<Event>, b: seq<Event>, d: Name, face: nat)
    ensures EventsAt(a + b, d, face) == EventsAt(a, d, face) + EventsAt(b, d, face)
  {
    if a == [] {
      assert a + b == b;
    } else {
      EventsAtConcat(a[1..], b, d, face);
      assert (a + b)[0] == a[0] && (a + b)[1..] == a[1..] + b;
      Associative(if a[0].name == d && a[0].route.faceId == face then [a[0]] else [],
                  EventsAt(a[1..], d, face), EventsAt(b, d, face));
    }
  }

  // ----- the subtree walk -----

  /** Both passes of traverseSubTree over one entry: a route whose face the entry offers itself
      leaves the set, the others stay and are emitted when `Emits`. */
  predicate Emits(e: EntryView, r: Route, add: bool) {
    if add then !HasFace(e.routes, r.faceId) else e.HasInherited(r.faceId)
  }

  function Keep(e: EntryView, s: RouteSet): (k: RouteSet)
    ensures ByFace(s) ==> ByFace(k)
    ensures forall q :: q in k ==> q in s
  {
    if s == [] then []
    else
      HeadIsLowest(s);
      (if HasChildInherit(e.routes, s[0].faceId) then [] else [s[0]]) + Keep(e, s[1..])
  }

  function Emit(n: Name, e: EntryView, s: RouteSet, add: bool): seq<Event> {
    if s == [] then []
    else
      (if !HasChildInherit(e.routes, s[0].faceId) && Emits(e, s[0], add)
       then [Event(n, s[0], add, true)] else []) + Emit(n, e, s[1..], add)
  }

  ghost predicate Bounded(t: Table, bound: nat) {
    forall n :: n in t ==> |n| <= bound
  }

  /** The log of traverseSubTree. `bound` caps the length of the names, for termination only. */
  ghost function Walk(t: Table, bound: nat, n: Name, add: RouteSet, rem: RouteSet): seq<Event>
    requires Shape(t) && Bounded(t, bound) && n in t
    decreases bound - |n|, 1, 0
  {
    var e := t[n];
    if e.HasCapture() then []
    else
      assert LinksOk(t, n);
      Emit(n, e, rem, false) + Emit(n, e, add, true)
      + WalkList(t, bound, n, e.children, Keep(e, add), Keep(e, rem))
  }

  /** The log of modifyChildrensInheritedRoutes over entries strictly below `n`. */
  ghost function WalkList(t: Table, bound: nat, n: Name, names: seq<Name>, add: RouteSet, rem: RouteSet): seq<Event>
    requires Shape(t) && Bounded(t, bound)
    requires forall c :: c in names ==> c in t && n < c
    decreases bound - |n|, 0, |names|
  {
    if names == [] then []
    else
      assert names[0] in names;
      Walk(t, bound, names[0], add, rem) + WalkList(t, bound, n, names[1..], add, rem)
  }

  lemma {:induction false} LookupKeep(e: EntryView, s: RouteSet, face: nat)
    requires ByFace(s)
    ensures Lookup(Keep(e, s), face) == if HasChildInherit(e.routes, face) then None else Lookup(s, face)
  {
    if s != [] {
      LookupKeep(e, s[1..], face);
      if !HasChildInherit(e.routes, s[0].faceId) {
        assert Keep(e, s)[1..] == Keep(e, s[1..]);
      }
      if s[0].faceId == face {
        assert forall q :: q in s[1..] ==> q.faceId != face;
      }
    }
  }

  /** What one pass emits at (d, face). */
  ghost function PassAt(e: EntryView, d: Name, face: nat, s: RouteSet, add: bool): seq<Event> {
    var r := Lookup(s, face);
    if r.Some? && Emits(e, r.value, add) then [Event(d, r.value, add, true)] else []
  }

  lemma EmitHead(n: Name, e: EntryView, s: RouteSet, add: bool, d: Name, face: nat)
    requires s != []
    ensures EventsAt(Emit(n, e, s, add), d, face)
            == (if d == n && s[0].faceId == face && !HasChildInherit(e.routes, face) && Emits(e, s[0], add)
                then [Event(n, s[0], add, true)] else [])
               + EventsAt(Emit(n, e, s[1..], add), d, face)
  {
    var ev, rest := Event(n, s[0], add, true), Emit(n, e, s[1..], add);
    if !HasChildInherit(e.routes, s[0].faceId) && Emits(e, s[0], add) {
      assert ([ev] + rest)[1..] == rest;
      assert Emit(n, e, s, add) == [ev] + rest;
    } else {
      assert Emit(n, e, s, add) == rest;
    }
  }

  lemma {:induction false} EmitAt(n: Name, e: EntryView, s: RouteSet, add: bool, d: Name, face: nat)
    requires ByFace(s)
    ensures EventsAt(Emit(n, e, s, add), d, face)
            == if d == n && !HasChildInherit(e.routes, face) then PassAt(e, d, face, s, add) else []
  {
    if s != [] {
      PassHead(e, d, face, s, add);
      EmitHead(n, e, s, add, d, face);
      EmitAt(n, e, s[1..], add, d, face);
    }
  }

  lemma PassHead(e: EntryView, d: Name, face: nat, s: RouteSet, add: bool)
    requires s != [] && ByFace(s)
    ensures ByFace(s[1..])
    ensures s[0].faceId == face ==> PassAt(e, d, face, s[1..], add) == []
    ensures PassAt(e, d, face, s, add)
            == (if s[0].faceId == face && Emits(e, s[0], add) then [Event(d, s[0], add, true)] else [])
               + PassAt(e, d, face, s[1..], add)
  {
    HeadIsLowest(s);
  }

  /** No entry at the prefix lengths from `k` up to `d` itself captures or offers the face. */
  ghost predicate Open(t: Table, k: nat, d: Name, face: nat) {
    forall j {:trigger d[..j]} :: k <= j <= |d| && d[..j] in t ==>
      !t[d[..j]].HasCapture() && !HasChildInherit(t[d[..j]].routes, face)
  }

  /** The pending change for (d, face) when the walk reaches `d`: a remove if the face is in the
      remove set and recorded as inherited, then an add if it is in the add set and not direct. */
  ghost function ReachedAt(t: Table, k: nat, d: Name, face: nat, add: RouteSet, rem: RouteSet): seq<Event> {
    if d in t && Open(t, k, d, face)
    then PassAt(t[d], d, face, rem, false) + PassAt(t[d], d, face, add, true)
    else []
  }

  lemma OpenSplit(t: Table, n: Name, d: Name, face: nat)
    requires n in t && n < d
    ensures Open(t, |n|, d, face)
            == (!t[n].HasCapture() && !HasChildInherit(t[n].routes, face) && Open(t, |n| + 1, d, face))
  {
    assert d[..|n|] == n;
  }

  lemma OpenAtTop(t: Table, n: Name, c: Name, d: Name, face: nat)
    requires n < c <= d
    requires forall k :: |n| < k < |c| ==> d[..k] !in t
    ensures Open(t, |n| + 1, d, face) == Open(t, |c|, d, face)
  {
  }

  /** The subtree walk is exact: everything it logs, at every descendant and face. */
  lemma {:induction false} WalkExact(t: Table, bound: nat, n: Name, add: RouteSet, rem: RouteSet, d: Name, face: nat)
    requires Shape(t) && Bounded(t, bound) && n in t && ByFace(add) && ByFace(rem)
    ensures EventsAt(Walk(t, bound, n, add, rem), d, face)
            == if n <= d then ReachedAt(t, |n|, d, face, add, rem) else []
    decreases bound - |n|, 1, 0
  {
    var e := t[n];
    if e.HasCapture() {
      assert n <= d ==> d[..|n|] == n;
    } else {
      assert LinksOk(t, n);
      FrontierOfEntry(t, n);
      var add', rem' := Keep(e, add), Keep(e, rem);
      var self := Emit(n, e, rem, false) + Emit(n, e, add, true);
      EventsAtConcat(self, WalkList(t, bound, n, e.children, add', rem'), d, face);
      SelfAt(t, n, add, rem, d, face);
      WalkListExact(t, bound, n, e.children, add', rem', d, face);
      if n < d {
        BelowSelf(t, n, add, rem, d, face);
      }
    }
  }

  /** Below an entry that does not capture, its passes leave the sets to the walk as if the
      walk had started above it. */
  lemma BelowSelf(t: Table, n: Name, add: RouteSet, rem: RouteSet, d: Name, face: nat)
    requires n in t && !t[n].HasCapture() && ByFace(add) && ByFace(rem) && n < d
    ensures ReachedAt(t, |n| + 1, d, face, Keep(t[n], add), Keep(t[n], rem)) == ReachedAt(t, |n|, d, face, add, rem)
  {
    LookupKeep(t[n], add, face);
    LookupKeep(t[n], rem, face);
    OpenSplit(t, n, d, face);
    if d in t {
      SamePass(t[d], d, face, add, Keep(t[n], add), true);
      SamePass(t[d], d, face, rem, Keep(t[n], rem), false);
    }
  }

  lemma SamePass(e: EntryView, d: Name, face: nat, s: RouteSet, s': RouteSet, add: bool)
    ensures Lookup(s, face) == Lookup(s', face) ==> PassAt(e, d, face, s, add) == PassAt(e, d, face, s', add)
    ensures Lookup(s', face).None? ==> PassAt(e, d, face, s', add) == []
  {
  }

  lemma SelfAt(t: Table, n: Name, add: RouteSet, rem: RouteSet, d: Name, face: nat)
    requires n in t && !t[n].HasCapture() && ByFace(add) && ByFace(rem)
    ensures EventsAt(Emit(n, t[n], rem, false) + Emit(n, t[n], add, true), d, face)
            == if d == n then ReachedAt(t, |n|, n, face, add, rem) else []
  {
    EventsAtConcat(Emit(n, t[n], rem, false), Emit(n, t[n], add, true), d, face);
    EmitAt(n, t[n], rem, false, d, face);
    EmitAt(n, t[n], add, true, d, face);
    assert n[..|n|] == n;
    assert Open(t, |n|, n, face) == !HasChildInherit(t[n].routes, face);
  }

  lemma {:induction false} WalkListExact(t: Table, bound: nat, n: Name, names: seq<Name>, add: RouteSet,
                                         rem: RouteSet, d: Name, face: nat)
    requires Shape(t) && Bounded(t, bound) && Frontier(t, n, names) && ByFace(add) && ByFace(rem)
    ensures EventsAt(WalkList(t, bound, n, names, add, rem), d, face)
            == if n < d then ReachedAt(t, |n| + 1, d, face, add, rem) else []
    decreases bound - |n|, 0, |names| + 1
  {
    if i :| 0 <= i < |names| && names[i] <= d {
      assert names[i] in names;
      forall j | 0 <= j < |names| && names[j] <= d
        ensures j == i
      {
        assert names[j] in names;
        TopsIncomparable(t, n, names[i], names[j], d);
      }
      WalkListAt(t, bound, n, names, add, rem, d, face, i);
      NothingBetween(t, n, names[i], d);
      OpenAtTop(t, n, names[i], d, face);
    } else {
      if n < d && d in t {
        var c := TopAbove(t, n, d);
      }
      WalkListAt(t, bound, n, names, add, rem, d, face, |names|);
    }
  }

  lemma NothingBetween(t: Table, n: Name, c: Name, d: Name)
    requires IsTopBelow(t, n, c) && c <= d
    ensures forall k :: |n| < k < |c| ==> d[..k] !in t
  {
    forall k | |n| < k < |c|
      ensures d[..k] !in t
    {
      assert n == d[..|n|] && c == d[..|c|];
      assert n < d[..k] && d[..k] < c;
    }
  }

  /** In a list with at most one entry above `d`, the `i`-th, no other logs anything at `d`. */
  lemma {:induction false} WalkListAt(t: Table, bound: nat, n: Name, names: seq<Name>,
                                      add: RouteSet, rem: RouteSet, d: Name, face: nat, i: nat)
    requires Shape(t) && Bounded(t, bound) && ByFace(add) && ByFace(rem)
    requires forall c :: c in names ==> c in t && n < c
    requires i <= |names| && forall j :: 0 <= j < |names| ==> (names[j] <= d <==> j == i)
    ensures EventsAt(WalkList(t, bound, n, names, add, rem), d, face)
            == if i < |names| then ReachedAt(t, |names[i]|, d, face, add, rem) else []
    decreases bound - |n|, 0, |names|
  {
    if names != [] {
      assert names[0] in names;
      var rest := names[1..];
      assert forall c :: c in rest ==> c in names;
      EventsAtConcat(Walk(t, bound, names[0], add, rem), WalkList(t, bound, n, rest, add, rem), d, face);
      WalkExact(t, bound, names[0], add, rem, d, face);
      WalkListAt(t, bound, n, rest, add, rem, d, face, if i == 0 then |rest| else i - 1);
    }
  }
}
