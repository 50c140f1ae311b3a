/** The RIB: entries by name in canonical order, the prefix tree they form, the face lookup
    table and the number of routes. */
module RibTable {
  import opened Names
  import opened Options
  import opened RibModel
  import opened EffectiveNextHops
  import opened FibDelta
  import opened FibCompute
  import opened FibRefinement
  import opened RibShape
  import opened RibEntries

  class Rib {
    var entries: map<Name, RibEntry>
    var order: seq<Name>
    var faceMap: map<nat, seq<RibEntry>>
    var nItems: nat

    ghost predicate InTable(e: RibEntry)
      reads this`entries
    {
      e.name in entries && entries[e.name] == e
    }

    /** Names agree with keys and links stay inside the table. */
    ghost predicate Linked()
      reads this`entries, entries.Values`parent, entries.Values`children
    {
      forall n :: n in entries ==>
        && entries[n].name == n
        && (entries[n].parent != null ==> InTable(entries[n].parent))
        && (forall c :: c in entries[n].children ==> InTable(c))
    }

    ghost function View(): Table
      reads this`entries, entries.Values
    {
      map n | n in entries :: entries[n].View()
    }

    ghost predicate OrderOk()
      reads this`entries, this`order
    {
      Sorted(order) && forall n :: n in order <==> n in entries
    }

    /** A face lists exactly the entries with a route on it. */
    ghost predicate FaceIndexOk()
      reads this`entries, this`faceMap, entries.Values`routes
    {
      && (forall f, i :: f in faceMap && 0 <= i < |faceMap[f]| ==> InTable(faceMap[f][i]))
      && (forall f, n :: n in entries ==> (f in faceMap && entries[n] in faceMap[f] <==> HasFace(entries[n].routes, f)))
    }

    ghost predicate CountOk()
      reads this`entries, this`order, this`nItems, entries.Values
    {
      && (forall n :: n in order ==> n in View())
      && nItems == TotalRoutes(order, View())
      && (forall n :: n in entries ==> entries[n].routes != [])
    }

    ghost predicate Valid()
      reads this, entries.Values
    {
      Linked() && OrderOk() && Shape(View()) && FaceIndexOk() && CountOk()
    }

    constructor ()
      ensures Valid() && View() == map[]
    {
      entries, order, faceMap, nItems := map[], [], map[], 0;
    }

    // ----- lookups -----

    /** The loop over ever shorter prefixes. */
    method FindParentEntry(prefix: Name) returns (p: RibEntry?)
      requires Linked()
      ensures p == null <==> FindParent(entries.Keys, prefix) == None
      ensures p != null ==> InTable(p) && FindParent(entries.Keys, prefix) == Some(p.name)
    {
      var i := |prefix| - 1;
      while i >= 0
        invariant -1 <= i < |prefix|
        invariant FindParent(entries.Keys, prefix) == LongestPrefix(entries.Keys, prefix, i + 1)
      {
        if prefix[..i] in entries {
          return entries[prefix[..i]];
        }
        i := i - 1;
      }
      return null;
    }

    /** Walks the table from position `from` until a name is not below `prefix`. */
    method WalkFrom(prefix: Name, from: nat) returns (ds: seq<RibEntry>, ghost end: nat)
      requires Linked() && OrderOk() && from <= |order|
      ensures from <= end <= |order| && NamesOf(ds) == order[from..end]
      ensures forall i :: 0 <= i < |ds| ==> InTable(ds[i])
      ensures forall j :: from <= j < end ==> prefix <= order[j]
      ensures end < |order| ==> !(prefix <= order[end])
    {
      ds := [];
      var i := from;
      while i < |order| && prefix <= order[i]
        invariant from <= i <= |order| && NamesOf(ds) == order[from..i]
        invariant forall k :: 0 <= k < |ds| ==> InTable(ds[k])
        invariant forall j :: from <= j < i ==> prefix <= order[j]
      {
        assert order[i] in order;
        NamesAppend(ds, entries[order[i]]);
        assert order[from..i + 1] == order[from..i] + [order[i]];
        ds := ds + [entries[order[i]]];
        i := i + 1;
      }
      end := i;
    }

    /** Starts the walk just after the entry of `prefix`. */
    method FindDescendants(prefix: Name) returns (ds: seq<RibEntry>)
      requires Linked() && OrderOk()
      ensures prefix !in entries ==> ds == []
      ensures forall i :: 0 <= i < |ds| ==> InTable(ds[i])
      ensures NoDuplicates(NamesOf(ds))
      ensures prefix in entries ==> forall d :: d in NamesOf(ds) <==> d in entries && prefix < d
    {
      ds := [];
      if prefix in entries {
        var k := Position(order, prefix);
        PositionHere(prefix);
        ghost var end;
        ds, end := WalkFrom(prefix, k + 1);
        BelowIsSlice(order, k, end, prefix);
        SortedDistinct(order);
        SliceDistinct(order, k + 1, end);
      }
    }

    /** The whole table is searched: `prefix` itself has no entry to start from. */
    method FindDescendantsForNonInsertedName(prefix: Name) returns (ds: seq<RibEntry>)
      requires Linked() && OrderOk()
      ensures NamesOf(ds) == NamesBelow(order, prefix)
      ensures forall i :: 0 <= i < |ds| ==> InTable(ds[i])
    {
      ds := SearchBelow(prefix);
    }

    ghost predicate Keyed()
      reads this`entries
    {
      forall n :: n in entries ==> entries[n].name == n
    }

    method SearchBelow(prefix: Name) returns (ds: seq<RibEntry>)
      requires Keyed() && OrderOk()
      ensures NamesOf(ds) == NamesBelow(order, prefix)
      ensures forall i :: 0 <= i < |ds| ==> InTable(ds[i])
    {
      ds := [];
      BelowEnds(order, prefix);
      for i := 0 to |order|
        invariant NamesOf(ds) + BelowFrom(order, i, prefix) == BelowFrom(order, 0, prefix)
        invariant forall k :: 0 <= k < |ds| ==> InTable(ds[k])
      {
        assert order[i] in order;
        BelowStep(order, i, prefix, NamesOf(ds));
        NamesAppend(ds, entries[order[i]]);
        if prefix <= order[i] {
          ds := ds + [entries[order[i]]];
        }
      }
    }

    /** The routes on the face of the entries that the face table lists for it, as often as it lists
        them. */
    ghost function FoundOn(face: nat): seq<(Name, Route)>
      requires FaceIndexOk()
      reads this`entries, this`faceMap, entries.Values
    {
      if face in faceMap then
        assert forall e :: e in faceMap[face] ==> InTable(e);
        Listed(faceMap[face], face)
      else []
    }

    /** Every route on the face, found through the face table. */
    method FindRoutesWithFaceId(face: nat) returns (found: seq<(Name, Route)>)
      requires Valid()
      ensures found == FoundOn(face)
      ensures forall n, r :: (n, r) in found <==> n in entries && r in entries[n].routes && r.faceId == face
    {
      found := [];
      if face in faceMap {
        found := RoutesListed(faceMap[face], face);
      }
      FoundExactly(face);
    }

    lemma FoundExactly(face: nat)
      requires Valid()
      ensures forall n, r :: (n, r) in FoundOn(face) <==> n in entries && r in entries[n].routes && r.faceId == face
    {
      if face in faceMap {
        ListedAll(faceMap[face], face);
      }
      forall n, r
        ensures (n, r) in FoundOn(face) <==> n in entries && r in entries[n].routes && r.faceId == face
      {
        if (n, r) in FoundOn(face) {
          var e :| e in faceMap[face] && e.name == n && r in e.routes;
          assert InTable(e);
        }
        if n in entries && r in entries[n].routes && r.faceId == face {
          assert HasFace(entries[n].routes, face);
          assert entries[n] in faceMap[face] && entries[n].name == n;
        }
      }
    }

    /** getAncestorRoutes: climbs the parent links, a route set keeping the first on each face. */
    method GetAncestorRoutes(start: RibEntry?) returns (routes: RouteSet)
      requires Linked() && Shape(View()) && (start != null ==> InTable(start))
      ensures start != null ==> start.name in View()
      ensures routes == AncestorRoutes(View(), if start == null then None else Some(start.name))
    {
      routes := [];
      var p := start;
      ghost var t := View();
      while p != null
        invariant p != null ==> InTable(p)
        invariant CollectAncestors(t, if p == null then None else Some(p.name), routes)
                  == AncestorRoutes(t, if start == null then None else Some(start.name))
        decreases if p == null then 0 else |p.name| + 1
      {
        assert t[p.name] == p.View();
        ghost var before := routes;
        for j := 0 to |p.routes|
          invariant InsertOffered(routes, p.routes[j..]) == InsertOffered(before, p.routes)
        {
          assert p.routes[j..][1..] == p.routes[j + 1..];
          if p.routes[j].IsChildInherit() {
            routes := FibDelta.Insert(routes, p.routes[j]);
          }
        }
        if p.HasCapture() {
          return;
        }
        assert LinksOk(t, p.name);
        p := p.parent;
      }
    }

    lemma ChildrenReachable(e: RibEntry)
      requires Linked() && Shape(View()) && InTable(e)
      ensures View()[e.name] == e.View()
      ensures forall i :: 0 <= i < |e.children| ==> InTable(e.children[i]) && e.name < e.children[i].name
    {
      ViewAt(e.name);
      assert LinksOk(View(), e.name);
      forall i | 0 <= i < |e.children|
        ensures InTable(e.children[i]) && e.name < e.children[i].name
      {
        var c := e.children[i];
        assert c in e.children && InTable(c);
        assert c.name in View()[e.name].children;
      }
    }

    // ----- relinking -----

    /** The loop of insert over the descendants: those with the new entry's parent become its children. */
    method AdoptDescendants(entry: RibEntry, parent: RibEntry?, ds: seq<RibEntry>)
      requires entry !in ds && entry != parent && parent !in ds && entry.children == []
      requires NoDuplicates(ds)
      requires parent != null ==> NoDuplicates(parent.children)
      modifies ds`parent, entry`children, (if parent == null then {} else {parent})`children
      ensures forall d :: d in ds ==> d.parent == if old(d.parent) == parent then entry else old(d.parent)
      ensures NoDuplicates(entry.children)
      ensures forall c :: c in entry.children <==> c in ds && old(c.parent) == parent
      ensures parent != null ==> NoDuplicates(parent.children)
      ensures parent != null ==>
                forall c :: c in parent.children <==> c in old(parent.children) && !(c in ds && old(c.parent) == parent)
    {
      for i := 0 to |ds|
        invariant forall j :: 0 <= j < i ==>
                      ds[j].parent == if old(ds[j].parent) == parent then entry else old(ds[j].parent)
        invariant forall j :: i <= j < |ds| ==> ds[j].parent == old(ds[j].parent)
        invariant NoDuplicates(entry.children)
        invariant forall c :: c in entry.children <==> c in ds[..i] && old(c.parent) == parent
        invariant parent != null ==> NoDuplicates(parent.children)
        invariant parent != null ==>
                    forall c :: c in parent.children
                        <==> c in old(parent.children) && !(c in ds[..i] && old(c.parent) == parent)
      {
        var child := ds[i];
        assert ds[..i + 1] == ds[..i] + [child];
        assert child !in ds[..i];
        if child.parent == parent {
          if parent != null {
            ghost var siblings := parent.children;
            parent.RemoveChild(child);
            WithoutMembers(siblings, child);
            WithoutKeepsDistinct(siblings, child);
          }
          entry.AddChild(child);
        } else if parent != null {
          assert forall c :: c in parent.children ==> !(c == child && old(c.parent) == parent);
        }
      }
      assert ds[..|ds|] == ds;
    }

    // ----- insertion -----

    /** An entry's own view changes, the links of the table do not. */
    lemma ViewAt(n: Name)
      requires Linked() && n in entries
      ensures View()[n] == entries[n].View()
      ensures forall c :: c in View()[n].children <==> c in entries && entries[c] in entries[n].children
      ensures NoDuplicates(View()[n].children) <==> NoDuplicates(entries[n].children)
    {
      var s := entries[n].children;
      assert forall i :: 0 <= i < |s| ==> s[i] in s;
      assert forall i :: 0 <= i < |s| ==> NamesOf(s)[i] == s[i].name && entries[s[i].name] == s[i];
    }

    /** Only the entry `n` changed. */
    twostate predicate OnlyEntry(n: Name)
      reads this`entries, entries.Values
    {
      && entries == old(entries) && n in entries
      && entries[n].parent == old(entries[n].parent) && entries[n].children == old(entries[n].children)
      && forall m :: m in entries && m != n ==> unchanged(entries[m])
    }

    /** Changing one entry's routes, with the face index and the count kept up, keeps the rest. */
    twostate lemma ValidAfterEntry(n: Name)
      requires old(Valid()) && OnlyEntry(n) && order == old(order)
      requires FaceIndexOk() && entries[n].routes != []
      requires nItems == old(nItems) - |old(entries[n].routes)| + |entries[n].routes|
      ensures Valid()
    {
      ViewAfterEntry(n);
      var t, t' := old(View()), View();
      assert t'[n] == entries[n].View();
      ShapeFrame(t, t');
      TotalChange(order, t, t', n);
    }

    twostate lemma ViewAfterEntry(n: Name)
      requires OnlyEntry(n)
      ensures View() == old(View())[n := entries[n].View()]
    {
    }

    /** The face index is right except that `n` may still be missing under `face`. */
    ghost predicate FaceIndexBut(n: Name, face: nat)
      reads this`entries, this`faceMap, entries.Values`routes
    {
      && (forall f, i :: f in faceMap && 0 <= i < |faceMap[f]| ==> InTable(faceMap[f][i]))
      && (forall f, m :: m in entries && !(m == n && f == face) ==>
            (f in faceMap && entries[m] in faceMap[f] <==> HasFace(entries[m].routes, f)))
      && n in entries && HasFace(entries[n].routes, face)
    }

    method ListUnderFace(n: Name, face: nat)
      requires Linked() && FaceIndexBut(n, face)
      modifies this`faceMap
      ensures FaceIndexOk()
    {
      var entry := entries[n];
      var listed := if face in faceMap then faceMap[face] else [];
      faceMap := faceMap[face := listed + [entry]];
      forall f, m | m in entries
        ensures f in faceMap && entries[m] in faceMap[f] <==> HasFace(entries[m].routes, f)
      {
        if m != n {
          assert entries[m] != entry;
        }
      }
    }

    method RouteInto(n: Name, route: Route)
      requires Valid() && n in entries && FindRoute(entries[n].routes, route) == |entries[n].routes|
      modifies entries.Values`routes, entries.Values`nRoutesWithCaptureSet
      ensures OnlyEntry(n) && Linked() && FaceIndexBut(n, route.faceId)
      ensures entries[n].View() == WithRoute(old(entries[n].View()), route)
    {
      var _ := entries[n].InsertRoute(route);
      FaceAdded(old(entries[n].routes), route);
    }

    method AppendRoute(prefix: Name, route: Route)
      requires Valid() && prefix in entries && FindRoute(entries[prefix].routes, route) == |entries[prefix].routes|
      modifies this`nItems, this`faceMap, entries.Values`routes, entries.Values`nRoutesWithCaptureSet
      ensures Valid() && View() == old(View())[prefix := WithRoute(old(View())[prefix], route)]
    {
      RouteInto(prefix, route);
      nItems := nItems + 1;
      ListUnderFace(prefix, route.faceId);
      ValidAfterEntry(prefix);
      ViewAfterEntry(prefix);
    }

    method OverwriteRoute(prefix: Name, i: nat, route: Route)
      requires Valid() && prefix in entries && i < |entries[prefix].routes|
      modifies entries.Values`routes
      ensures Valid() && View() == old(View())[prefix := WithUpdatedRoute(old(View())[prefix], i, route)]
    {
      entries[prefix].UpdateRoute(i, route);
      FaceUpdated(old(entries[prefix].routes), i, route);
      ValidAfterEntry(prefix);
      ViewAfterEntry(prefix);
    }

    method CreateEntry(prefix: Name, route: Route)
      requires Valid() && prefix !in entries
      modifies this`entries, this`order, this`nItems
      ensures prefix in entries && fresh(entries[prefix]) && entries == old(entries)[prefix := entries[prefix]]
      ensures entries[prefix].name == prefix && entries[prefix].parent == null && entries[prefix].children == []
      ensures entries[prefix].View() == WithRoute(EntryView(None, [], [], [], 0), route)
      ensures OrderOk() && nItems == old(nItems) + 1
      ensures order == old(order)[..Position(old(order), prefix)] + [prefix]
                  + old(order)[Position(old(order), prefix)..]
    {
      var entry := new RibEntry(prefix);
      var _ := entry.InsertRoute(route);
      var k := Position(order, prefix);
      SortedInsert(order, prefix);
      InsertMembers(order, k, prefix);
      order := order[..k] + [prefix] + order[k..];
      entries := entries[prefix := entry];
      nItems := nItems + 1;
    }

    ghost function ParentName(n: Name): Option<Name>
      requires n in entries
      reads this`entries, entries.Values`parent
    {
      if entries[n].parent == null then None else Some(entries[n].parent.name)
    }

    /** The table `t` with the entry `n` added under its parent but without its children. */
    ghost predicate Attached(t: Table, n: Name)
      reads this`entries, entries.Values`parent, entries.Values`children
    {
      && Linked() && entries.Keys == t.Keys + {n} && n !in t && entries[n].children == []
      && AttachedParents(t, n) && AttachedSiblings(t, n) && AttachedUnderParent(t, n)
    }

    ghost predicate AttachedParents(t: Table, n: Name)
      requires entries.Keys == t.Keys + {n}
      reads this`entries, entries.Values`parent, entries.Values`children
    {
      && ParentName(n) == FindParent(t.Keys, n)
      && forall d :: d in t ==> ParentName(d) == t[d].parent
    }

    ghost predicate AttachedSiblings(t: Table, n: Name)
      requires entries.Keys == t.Keys + {n}
      reads this`entries, entries.Values`parent, entries.Values`children
    {
      && (forall d :: d in t ==> NoDuplicates(entries[d].children))
      && (forall d :: d in t && FindParent(t.Keys, n) != Some(d) ==> NamesOf(entries[d].children) == t[d].children)
    }

    ghost predicate AttachedUnderParent(t: Table, n: Name)
      requires entries.Keys == t.Keys + {n}
      reads this`entries, entries.Values`parent, entries.Values`children
    {
      var p := FindParent(t.Keys, n);
      p.Some? ==> forall c :: c in entries ==>
        (entries[c] in entries[p.value].children <==> c == n || c in t[p.value].children)
    }

    static ghost function NewParent(t: Table, n: Name, d: Name): Option<Name>
      requires d in t
    {
      if n < d && t[d].parent == FindParent(t.Keys, n) then Some(n) else t[d].parent
    }

    /** The table `t` with the entry `n` added and its children moved to it. */
    ghost predicate Adopted(t: Table, n: Name)
      reads this`entries, entries.Values`parent, entries.Values`children
    {
      && entries.Keys == t.Keys + {n} && n !in t && ParentName(n) == FindParent(t.Keys, n)
      && AdoptedParents(t, n) && AdoptedSiblings(t, n) && AdoptedUnderParent(t, n)
    }

    ghost predicate AdoptedParents(t: Table, n: Name)
      requires entries.Keys == t.Keys + {n}
      reads this`entries, entries.Values`parent, entries.Values`children
    {
      && (forall d :: d in t ==> ParentName(d) == NewParent(t, n, d))
      && (forall c :: c in entries ==>
            (entries[c] in entries[n].children <==> c in t && n < c && t[c].parent == FindParent(t.Keys, n)))
    }

    ghost predicate AdoptedSiblings(t: Table, n: Name)
      requires entries.Keys == t.Keys + {n}
      reads this`entries, entries.Values`parent, entries.Values`children
    {
      && (forall d :: d in entries ==> NoDuplicates(entries[d].children))
      && (forall d :: d in t && FindParent(t.Keys, n) != Some(d) ==> NamesOf(entries[d].children) == t[d].children)
    }

    ghost predicate AdoptedUnderParent(t: Table, n: Name)
      requires entries.Keys == t.Keys + {n}
      reads this`entries, entries.Values`parent, entries.Values`children
    {
      var p := FindParent(t.Keys, n);
      p.Some? ==> forall c :: c in entries ==>
        (entries[c] in entries[p.value].children <==> c == n || (c in t[p.value].children && !(n < c)))
    }

    lemma AdoptedShape(t: Table, n: Name)
      requires Shape(t) && Linked() && Adopted(t, n)
      ensures Shape(View())
    {
      var t' := View();
      forall d | d in t'
        ensures t'[d].parent == ParentName(d)
        ensures NoDuplicates(t'[d].children)
        ensures forall c :: c in t'[d].children <==> c in entries && entries[c] in entries[d].children
      {
        ViewAt(d);
      }
      assert ChildrenAfterInsert(t, t', n) by {
        forall d | d in t && FindParent(t.Keys, n) == Some(d)
          ensures forall c :: c in t'[d].children <==> c == n || (c in t[d].children && !(n < c))
        {
          assert LinksOk(t, d);
        }
      }
      ShapeAfterInsert(t, t', n);
    }

    /** What the adoption loop did, name by name. */
    twostate predicate Moved(n: Name, p: Option<Name>)
      reads this`entries, entries.Values
    {
      && entries == old(entries) && n in entries && (p.Some? ==> p.value in entries && p.value != n)
      && (forall d :: d in entries ==>
            && (n < d && old(ParentName(d)) == p ==> ParentName(d) == Some(n))
            && (!(n < d && old(ParentName(d)) == p) ==> ParentName(d) == old(ParentName(d))))
      && NoDuplicates(entries[n].children)
      && (forall c :: c in entries ==> (entries[c] in entries[n].children <==> n < c && old(ParentName(c)) == p))
      && (p.Some? ==> NoDuplicates(entries[p.value].children))
      && (p.Some? ==> forall c :: c in entries ==>
            (entries[c] in entries[p.value].children <==>
               old(entries[c] in entries[p.value].children) && !(n < c && old(ParentName(c)) == p)))
      && (forall d :: d in entries && d != n && Some(d) != p ==> entries[d].children == old(entries[d].children))
    }

    twostate lemma MovedParents(new t: Table, new n: Name, new p: Option<Name>)
      requires old(Attached(t, n)) && Moved(n, p) && p == FindParent(t.Keys, n)
      ensures AdoptedParents(t, n)
    {
      forall d | d in t
        ensures ParentName(d) == NewParent(t, n, d)
        ensures entries[d] in entries[n].children <==> n < d && t[d].parent == p
      {
        assert old(ParentName(d)) == t[d].parent;
      }
    }

    twostate lemma MovedSiblings(new t: Table, new n: Name, new p: Option<Name>)
      requires old(Attached(t, n)) && Moved(n, p) && p == FindParent(t.Keys, n)
      ensures AdoptedSiblings(t, n)
    {
      forall d | d in t
        ensures NoDuplicates(entries[d].children)
        ensures p != Some(d) ==> NamesOf(entries[d].children) == t[d].children
      {
      }
    }

    twostate lemma MovedUnderParent(new t: Table, new n: Name, new p: Option<Name>)
      requires Shape(t) && old(Attached(t, n)) && Moved(n, p) && FindParent(t.Keys, n) == p
      ensures AdoptedUnderParent(t, n)
    {
      if p.Some? {
        var d := p.value;
        assert LinksOk(t, d);
        forall c | c in entries
          ensures entries[c] in entries[d].children <==> c == n || (c in t[d].children && !(n < c))
        {
          if c in t {
            assert LinksOk(t, c);
            assert old(ParentName(c)) == t[c].parent;
          }
        }
      }
    }

    /** The adoption loop seen through names. */
    method MoveChildren(prefix: Name, parent: RibEntry?, ghost p: Option<Name>)
      requires OrderOk() && Linked() && prefix in entries && entries[prefix].children == []
      requires p == if parent == null then None else Some(parent.name)
      requires parent != null ==> InTable(parent) && parent.name < prefix && NoDuplicates(parent.children)
      modifies entries.Values`parent, entries.Values`children
      ensures Linked() && Moved(prefix, p)
    {
      var entry := entries[prefix];
      var ds := FindDescendants(prefix);
      DistinctByName(ds);
      forall c | c in entries
        ensures entries[c] in ds <==> prefix < c
      {
        assert forall i :: 0 <= i < |ds| ==> NamesOf(ds)[i] == ds[i].name && entries[ds[i].name] == ds[i];
      }
      AdoptDescendants(entry, parent, ds);
    }

    method AdoptChildren(prefix: Name, parent: RibEntry?, ghost t: Table)
      requires OrderOk() && Shape(t) && Attached(t, prefix) && entries[prefix].parent == parent
      modifies entries.Values`parent, entries.Values`children
      ensures Linked() && Adopted(t, prefix)
    {
      ghost var p := FindParent(t.Keys, prefix);
      MoveChildren(prefix, parent, p);
      MovedParents(t, prefix, p);
      MovedSiblings(t, prefix, p);
      MovedUnderParent(t, prefix, p);
    }

    /** A table `t` and one entry `n` more, not yet linked. */
    ghost predicate Unlinked(t: Table, n: Name)
      reads this`entries, entries.Values`parent, entries.Values`children
    {
      && n in entries && n !in t && entries.Keys == t.Keys + {n}
      && entries[n].parent == null && entries[n].children == []
      && (forall d :: d in t ==> ParentName(d) == t[d].parent && NamesOf(entries[d].children) == t[d].children)
    }

    /** The children's names and the children say the same. */
    ghost predicate ChildrenByName(t: Table)
      reads this`entries, entries.Values
    {
      forall d :: d in t && d in entries ==>
        NoDuplicates(entries[d].children)
        && forall c :: c in entries ==> (entries[c] in entries[d].children <==> c in t[d].children)
    }

    lemma UnlinkedChildren(t: Table, n: Name)
      requires Linked() && Shape(t) && Unlinked(t, n)
      ensures ChildrenByName(t)
    {
      forall d | d in t
        ensures NoDuplicates(entries[d].children)
        ensures forall c :: c in entries ==> (entries[c] in entries[d].children <==> c in t[d].children)
      {
        ViewAt(d);
        assert LinksOk(t, d);
      }
    }

    /** `n` became the last child of its parent `p`, if it has one. */
    twostate predicate Joined(n: Name, p: Option<Name>)
      reads this`entries, entries.Values
    {
      && entries == old(entries) && n in entries && (p.Some? ==> p.value in entries && p.value != n)
      && entries[n].parent == (if p.None? then null else entries[p.value])
          && entries[n].children == old(entries[n].children)
      && (forall d :: d in entries && d != n ==> entries[d].parent == old(entries[d].parent))
      && (forall d :: d in entries && p != Some(d) ==> entries[d].children == old(entries[d].children))
      && (p.Some? ==> entries[p.value].children == old(entries[p.value].children) + [entries[n]])
    }

    twostate lemma JoinedLinked(n: Name, new p: Option<Name>)
      requires old(Linked()) && Joined(n, p)
      ensures Linked()
    {
      forall d | d in entries
        ensures forall c :: c in entries[d].children ==> InTable(c)
      {
        if p == Some(d) {
          assert forall c :: c in entries[d].children ==> c in old(entries[d].children) || c == entries[n];
        }
      }
    }

    twostate lemma JoinedNew(new t: Table, new n: Name)
      requires old(Linked()) && Shape(t) && old(Unlinked(t, n)) && old(ChildrenByName(t)) && entries == old(entries)
      ensures forall d :: d in t ==> entries[n] !in old(entries[d].children)
    {
      forall d | d in t
        ensures entries[n] !in old(entries[d].children)
      {
        assert LinksOk(t, d);
        assert n !in t[d].children;
      }
    }

    twostate lemma JoinedSiblings(new t: Table, new n: Name, new p: Option<Name>)
      requires old(Linked()) && Shape(t) && old(Unlinked(t, n)) && old(ChildrenByName(t))
      requires Joined(n, p) && p == FindParent(t.Keys, n)
      ensures AttachedSiblings(t, n)
    {
      JoinedNew(t, n);
      forall d | d in t
        ensures NoDuplicates(entries[d].children)
        ensures p != Some(d) ==> NamesOf(entries[d].children) == t[d].children
      {
        JoinedAt(t, n, p, d);
      }
    }

    twostate lemma JoinedAt(new t: Table, new n: Name, new p: Option<Name>, new d: Name)
      requires Shape(t) && old(Unlinked(t, n)) && Joined(n, p) && d in t && entries[n] !in old(entries[d].children)
      ensures NoDuplicates(entries[d].children)
      ensures p != Some(d) ==> NamesOf(entries[d].children) == t[d].children
    {
      var former := old(entries[d].children);
      assert LinksOk(t, d);
      DistinctByName(former);
      if p == Some(d) {
        assert forall i :: 0 <= i < |former| ==> former[i] in former;
      }
    }

    twostate lemma JoinedUnder(new t: Table, new n: Name, new p: Option<Name>)
      requires old(Linked()) && Shape(t) && old(Unlinked(t, n)) && old(ChildrenByName(t))
      requires Joined(n, p) && p == FindParent(t.Keys, n)
      ensures AttachedUnderParent(t, n)
    {
      JoinedNew(t, n);
    }

    twostate lemma JoinedParents(new t: Table, new n: Name, new p: Option<Name>)
      requires old(Linked()) && old(Unlinked(t, n)) && Joined(n, p) && p == FindParent(t.Keys, n)
      ensures AttachedParents(t, n)
    {
      forall d | d in t
        ensures ParentName(d) == t[d].parent
      {
        assert old(ParentName(d)) == t[d].parent;
      }
    }

    method AttachEntry(prefix: Name, ghost t: Table) returns (parent: RibEntry?)
      requires Linked() && Shape(t) && Unlinked(t, prefix)
      modifies entries.Values`parent, entries.Values`children
      ensures Attached(t, prefix) && entries[prefix].parent == parent
    {
      var entry := entries[prefix];
      ParentAfterInsert(t.Keys, prefix, prefix);
      UnlinkedChildren(t, prefix);
      parent := FindParentEntry(prefix);
      if parent != null {
        parent.AddChild(entry);
      }
      ghost var p := FindParent(t.Keys, prefix);
      JoinedLinked(prefix, p);
      JoinedParents(t, prefix, p);
      JoinedSiblings(t, prefix, p);
      JoinedUnder(t, prefix, p);
    }

    /** The table `t`'s entries keep what they hold, and `n` holds the route `r` alone. */
    ghost predicate Contents(t: Table, n: Name, r: Route)
      reads this`entries, entries.Values`routes, entries.Values`inheritedRoutes, entries.Values`nRoutesWithCaptureSet
    {
      && entries.Keys == t.Keys + {n} && n !in t
      && (forall d :: d in t ==>
            && entries[d].routes == t[d].routes && entries[d].inheritedRoutes == t[d].inherited
            && entries[d].nRoutesWithCaptureSet == t[d].nCapture)
      && entries[n].routes == [r] && entries[n].inheritedRoutes == []
      && entries[n].nRoutesWithCaptureSet == if r.IsCapture() then 1 else 0
    }

    lemma InsertedContents(t: Table, n: Name, r: Route)
      requires Shape(View()) && Contents(t, n, r)
      ensures Inserted(t, n, r, View())
    {
      var t' := View();
      assert t'.Keys == entries.Keys;
      forall d | d in t'
        ensures t'[d] == entries[d].View()
      {
      }
    }

    twostate lemma CreatedUnlinked(new t: Table, new n: Name, new r: Route)
      requires old(Linked()) && t == old(View()) && n !in t
      requires n in entries && fresh(entries[n]) && entries == old(entries)[n := entries[n]]
      requires forall d :: d in old(entries) ==> unchanged(old(entries[d]))
      requires entries[n].name == n && entries[n].parent == null && entries[n].children == []
      requires entries[n].View() == WithRoute(EntryView(None, [], [], [], 0), r)
      ensures Linked() && Unlinked(t, n) && Contents(t, n, r)
    {
      assert t.Keys == old(entries).Keys;
      forall d | d in t
        ensures t[d] == entries[d].View()
      {
      }
    }

    method NewUnlinked(prefix: Name, route: Route, ghost t: Table)
      requires Valid() && prefix !in entries && t == View()
      modifies this`entries, this`order, this`nItems
      ensures Linked() && OrderOk() && Unlinked(t, prefix) && Contents(t, prefix, route)
      ensures prefix in entries && fresh(entries[prefix]) && entries == old(entries)[prefix := entries[prefix]]
      ensures nItems == old(nItems) + 1
      ensures order == old(order)[..Position(old(order), prefix)] + [prefix]
                  + old(order)[Position(old(order), prefix)..]
    {
      CreateEntry(prefix, route);
      CreatedUnlinked(t, prefix, route);
    }

    method LinkIn(prefix: Name, ghost t: Table)
      requires Linked() && OrderOk() && Shape(t) && Unlinked(t, prefix)
      modifies entries.Values`parent, entries.Values`children
      ensures Linked() && Shape(View())
    {
      var parent := AttachEntry(prefix, t);
      AdoptChildren(prefix, parent, t);
      AdoptedShape(t, prefix);
    }

    /** The face index after `n` came with one route on `face`, not yet listed. */
    twostate lemma CreatedIndex(new n: Name, new r: Route)
      requires old(Linked()) && old(FaceIndexOk()) && faceMap == old(faceMap)
      requires n in entries && fresh(entries[n]) && n !in old(entries) && entries == old(entries)[n := entries[n]]
      requires entries[n].routes == [r]
      requires forall d :: d in old(entries) ==> entries[d].routes == old(entries[d].routes)
      ensures FaceIndexBut(n, r.faceId)
    {
      assert entries[n].routes[0] == r;
      forall f, i | f in faceMap && 0 <= i < |faceMap[f]|
        ensures InTable(faceMap[f][i]) && faceMap[f][i] != entries[n]
      {
        assert old(InTable(faceMap[f][i]));
      }
    }

    /** The new entry, neither linked nor listed under its face. */
    method NewUnlisted(prefix: Name, route: Route, ghost t: Table)
      requires Valid() && prefix !in entries && t == View()
      modifies this`entries, this`order, this`nItems
      ensures Linked() && OrderOk() && Unlinked(t, prefix) && Contents(t, prefix, route)
      ensures FaceIndexBut(prefix, route.faceId)
      ensures prefix in entries && fresh(entries[prefix]) && entries == old(entries)[prefix := entries[prefix]]
      ensures nItems == old(nItems) + 1
      ensures order == old(order)[..Position(old(order), prefix)] + [prefix]
                  + old(order)[Position(old(order), prefix)..]
    {
      NewUnlinked(prefix, route, t);
      CreatedIndex(prefix, route);
    }

    method BuildAndLink(prefix: Name, route: Route, ghost t: Table)
      requires Valid() && prefix !in entries && t == View()
      modifies this`entries, this`order, this`nItems, entries.Values`parent, entries.Values`children
      ensures Linked() && OrderOk() && Shape(View()) && Contents(t, prefix, route) && FaceIndexBut(prefix, route.faceId)
      ensures prefix in entries && fresh(entries[prefix]) && entries == old(entries)[prefix := entries[prefix]]
      ensures nItems == old(nItems) + 1
      ensures order == old(order)[..Position(old(order), prefix)] + [prefix]
                  + old(order)[Position(old(order), prefix)..]
    {
      NewUnlisted(prefix, route, t);
      LinkIn(prefix, t);
    }

    lemma InsertedCount(t: Table, before: seq<Name>, n: Name, r: Route)
      requires Contents(t, n, r) && OrderOk() && (forall d :: d in before ==> d in t)
      requires (forall d :: d in t ==> t[d].routes != [])
      requires order == before[..Position(before, n)] + [n] + before[Position(before, n)..]
      requires nItems == TotalRoutes(before, t) + 1
      ensures CountOk()
    {
      assert View()[n].routes == [r];
      TotalInsert(before, Position(before, n), n, t, View());
    }

    ghost predicate Counted(t: Table, before: seq<Name>, n: nat) {
      (forall d :: d in before ==> d in t) && (forall d :: d in t ==> t[d].routes != []) && n == TotalRoutes(before, t)
    }

    lemma ValidCounted()
      requires Valid()
      ensures Counted(View(), order, nItems)
    {
      forall d | d in View()
        ensures View()[d].routes != []
      {
      }
    }

    method BuildCounted(prefix: Name, route: Route, ghost t: Table)
      requires Valid() && prefix !in entries && t == View()
      modifies this`entries, this`order, this`nItems, entries.Values`parent, entries.Values`children
      ensures Linked() && OrderOk() && Shape(View()) && CountOk() && FaceIndexBut(prefix, route.faceId)
      ensures Inserted(t, prefix, route, View())
      ensures prefix in entries && fresh(entries[prefix]) && entries == old(entries)[prefix := entries[prefix]]
    {
      ghost var before := order;
      ValidCounted();
      BuildAndLink(prefix, route, t);
      InsertedContents(t, prefix, route);
      InsertedCount(t, before, prefix, route);
    }

    /** insert, for a name not in the table yet. */
    method InsertNewEntry(prefix: Name, route: Route)
      requires Valid() && prefix !in entries
      modifies this, entries.Values`parent, entries.Values`children
      ensures Valid() && Inserted(old(View()), prefix, route, View())
      ensures prefix in entries && fresh(entries[prefix]) && entries == old(entries)[prefix := entries[prefix]]
    {
      BuildCounted(prefix, route, View());
      label built:
      ListUnderFace(prefix, route.faceId);
      ListedKeeps@built();
    }

    /** Listing an entry under a face touches nothing but the face index. */
    twostate lemma ListedKeeps()
      requires old(Linked() && OrderOk() && Shape(View()) && CountOk()) && FaceIndexOk()
      requires unchanged(this`entries, this`order, this`nItems) && unchanged(old(entries.Values))
      ensures Valid() && View() == old(View())
    {
    }

    /** Rib::insert. */
    method Insert(prefix: Name, route: Route)
      requires Valid()
      modifies this, entries.Values
      ensures Valid() && Inserted(old(View()), prefix, route, View())
      ensures forall n :: n in entries ==> (n in old(entries) && entries[n] == old(entries)[n]) || fresh(entries[n])
    {
      if prefix in entries {
        var i := FindRoute(entries[prefix].routes, route);
        if i == |entries[prefix].routes| {
          AppendRoute(prefix, route);
        } else {
          OverwriteRoute(prefix, i, route);
        }
      } else {
        InsertNewEntry(prefix, route);
      }
    }

    // ----- erasure -----

    /** The loop of eraseEntry: the entry leaves its parent and hands it its children. */
    method HandOver(entry: RibEntry, parent: RibEntry?)
      requires entry.parent == parent && entry != parent && NoDuplicates(entry.children)
      requires forall c :: c in entry.children ==> c.parent == entry && c != entry && c != parent
      modifies entry`children, entry`parent, entry.children`parent, (if parent == null then {} else {parent})`children
      ensures entry.children == [] && entry.parent == null
      ensures forall c :: c in old(entry.children) ==> c.parent == parent
      ensures parent != null ==> parent.children == Without(old(parent.children), entry) + old(entry.children)
    {
      ghost var cs := entry.children;
      if parent != null {
        parent.RemoveChild(entry);
      }
      ghost var i := 0;
      while entry.children != []
        invariant 0 <= i <= |cs| && entry.children == cs[i..] && entry.parent == null
        invariant forall j :: 0 <= j < i ==> cs[j].parent == parent
        invariant forall j :: i <= j < |cs| ==> cs[j].parent == entry
        invariant parent != null ==> parent.children == Without(old(parent.children), entry) + cs[..i]
        decreases |entry.children|
      {
        var child := entry.children[0];
        assert child == cs[i];
        WithoutFirst(cs[i..]);
        entry.RemoveChild(child);
        if parent != null {
          parent.AddChild(child);
          assert cs[..i + 1] == cs[..i] + [child];
        }
        i := i + 1;
      }
      assert cs[..i] == cs;
    }

    lemma ChildIff(c: Name, d: Name)
      requires Linked() && Shape(View()) && c in entries && d in entries
      ensures entries[c] in entries[d].children <==> ParentName(c) == Some(d)
      ensures ParentName(c) == Some(d) ==> d < c
    {
      var t := View();
      ViewAt(d);
      assert LinksOk(t, d);
      assert LinksOk(t, c);
      assert t[c] == entries[c].View();
    }

    /** What the tree's shape says about an entry's neighbours. */
    lemma NeighbourOf(n: Name, c: RibEntry)
      requires Linked() && Shape(View()) && n in entries && c in entries[n].children
      ensures c.parent == entries[n] && c != entries[n] && c != entries[n].parent
    {
      assert entries[c.name] == c;
      ChildIff(c.name, n);
      ChildIff(n, n);
      if entries[n].parent != null {
        ChildIff(n, entries[n].parent.name);
      }
    }

    lemma Neighbours(n: Name)
      requires Linked() && Shape(View()) && n in entries
      ensures entries[n].parent != entries[n] && NoDuplicates(entries[n].children)
      ensures forall c :: c in entries[n].children ==>
                  c.parent == entries[n] && c != entries[n] && c != entries[n].parent
    {
      ViewAt(n);
      assert LinksOk(View(), n);
      ChildIff(n, n);
      forall c | c in entries[n].children
        ensures c.parent == entries[n] && c != entries[n] && c != entries[n].parent
      {
        NeighbourOf(n, c);
      }
    }

    /** No entry shares a child with `n`. */
    ghost predicate ChildrenApart(n: Name)
      reads this`entries, entries.Values`children
    {
      n in entries ==>
        forall d, i, j :: d in entries && d != n && 0 <= i < |entries[d].children| && 0 <= j < |entries[n].children| ==>
          entries[d].children[i] != entries[n].children[j]
    }

    lemma ShapeSeparates(n: Name)
      requires Linked() && ChildrenInvert()
      ensures ChildrenApart(n)
    {
      if n in entries {
        forall d, i, j | d in entries && d != n && 0 <= i < |entries[d].children| && 0 <= j < |entries[n].children|
          ensures entries[d].children[i] != entries[n].children[j]
        {
          var c := entries[d].children[i];
          assert InTable(c) && entries[c.name] in entries[d].children;
          assert entries[n].children[j] in entries[n].children;
        }
      }
    }

    ghost predicate ChildrenInvert()
      reads this`entries, entries.Values`parent, entries.Values`children
    {
      && (forall d :: d in entries ==> NoDuplicates(entries[d].children))
      && (forall c, d :: c in entries && d in entries ==>
          (entries[c] in entries[d].children <==> ParentName(c) == Some(d)))
    }

    lemma ShapeInverts()
      requires Linked() && Shape(View())
      ensures ChildrenInvert()
    {
      forall d | d in entries
        ensures NoDuplicates(entries[d].children)
      {
        ViewAt(d);
        assert LinksOk(View(), d);
      }
      forall c, d | c in entries && d in entries
        ensures entries[c] in entries[d].children <==> ParentName(c) == Some(d)
      {
        ChildIff(c, d);
      }
    }

    /** `n` has left the table and its children hang at its parent `p`. */
    twostate predicate Left(n: Name, p: Option<Name>)
      reads this`entries, entries.Values`parent, entries.Values`children
    {
      && n in old(entries) && entries == old(entries) - {n} && (p.Some? ==> p.value in entries)
      && (forall d :: d in entries ==>
            && (old(entries[d] in entries[n].children) ==>
                entries[d].parent == (if p.None? then null else entries[p.value]))
            && (!old(entries[d] in entries[n].children) ==> entries[d].parent == old(entries[d].parent)))
      && (forall d :: d in entries && p != Some(d) ==> entries[d].children == old(entries[d].children))
      && (p.Some? ==>
            entries[p.value].children
            == Without(old(entries[p.value].children), old(entries[n])) + old(entries[n].children))
    }

    twostate lemma LeftLinked(new n: Name, new p: Option<Name>)
      requires old(Linked()) && Left(n, p) && p == old(ParentName(n))
      requires forall c, d :: c in old(entries) && d in old(entries) ==>
                 (old(entries)[c] in old(entries[d].children) <==> old(ParentName(c)) == Some(d))
      ensures Linked()
    {
      forall d | d in entries
        ensures entries[d].name == d && (entries[d].parent != null ==> InTable(entries[d].parent))
        ensures forall c :: c in entries[d].children ==> InTable(c)
      {
        assert old(entries[d].name == d);
        if p == Some(d) {
          WithoutMembers(old(entries[d].children), old(entries[n]));
          forall c | c in entries[d].children
            ensures InTable(c)
          {
            assert c in old(entries[d].children) || c in old(entries[n].children);
          }
        }
      }
    }

    twostate lemma LeftParents(new n: Name, new p: Option<Name>, d: Name)
      requires old(Linked()) && old(ChildrenInvert()) && Left(n, p) && p == old(ParentName(n)) && Linked()
      requires d in entries
      ensures ParentName(d) == if old(ParentName(d)) == Some(n) then p else old(ParentName(d))
    {
    }

    twostate lemma LeftChildren(new n: Name, new p: Option<Name>, d: Name)
      requires old(Linked()) && old(ChildrenInvert()) && old(ChildrenApart(n)) && Left(n, p) && Linked() && d in entries
      ensures NoDuplicates(entries[d].children)
      ensures p == Some(d) ==>
                forall c :: c in entries ==> (entries[c] in entries[d].children <==>
                  old(entries[c] in entries[d].children) || old(entries[c] in entries[n].children))
    {
      if p == Some(d) {
        var rest := Without(old(entries[d].children), old(entries[n]));
        WithoutMembers(old(entries[d].children), old(entries[n]));
        WithoutKeepsDistinct(old(entries[d].children), old(entries[n]));
        forall i, j | 0 <= i < |rest| && 0 <= j < |old(entries[n].children)|
          ensures rest[i] != old(entries[n].children)[j]
        {
          assert rest[i] == entries[d].children[i] && rest[i] in rest;
          var k :| 0 <= k < |old(entries[d].children)| && old(entries[d].children)[k] == rest[i];
        }
      }
    }

    lemma SeenByName()
      requires Linked() && Shape(View())
      ensures ChildrenByName(View())
    {
      forall d | d in entries
        ensures NoDuplicates(entries[d].children)
        ensures forall c :: c in entries ==> (entries[c] in entries[d].children <==> c in View()[d].children)
      {
        ViewAt(d);
        assert LinksOk(View(), d);
      }
    }

    twostate lemma LeftChild(new t: Table, new n: Name, new d: Name, new c: Name)
      requires old(Linked()) && old(ChildrenInvert()) && old(ChildrenApart(n)) && old(ChildrenByName(t))
      requires Left(n, Some(d)) && Linked() && d in entries && c in entries && n in t && d in t
      ensures entries[c] in entries[d].children <==> c in t[d].children || c in t[n].children
    {
      LeftChildren(n, Some(d), d);
      assert old(entries[c] in entries[d].children) <==> c in t[d].children;
      assert old(entries[c] in entries[n].children) <==> c in t[n].children;
    }

    twostate lemma LeftSeen(new t: Table, new n: Name, new d: Name)
      requires old(Linked()) && old(ChildrenInvert()) && old(ChildrenApart(n)) && old(ChildrenByName(t))
      requires Left(n, Some(d)) && Linked() && d in entries
      requires Shape(t) && t.Keys == old(entries).Keys
      ensures forall c :: c in View()[d].children <==> (c in t[d].children && c != n) || c in t[n].children
    {
      ViewAt(d);
      ChildrenInside(t, d);
      ChildrenInside(t, n);
      forall c
        ensures c in View()[d].children <==> (c in t[d].children && c != n) || c in t[n].children
      {
        if c in entries {
          LeftChild(t, n, d, c);
        }
      }
    }

    twostate lemma LeftDistinct(new n: Name, new p: Option<Name>, new d: Name)
      requires old(Linked()) && old(ChildrenInvert()) && old(ChildrenApart(n)) && Left(n, p) && Linked() && d in entries
      ensures NoDuplicates(View()[d].children)
    {
      LeftChildren(n, p, d);
      ViewAt(d);
    }

    twostate lemma LeftRest(new t: Table, new n: Name, new p: Option<Name>, new d: Name)
      requires old(Linked()) && old(ChildrenInvert()) && Left(n, p) && p == old(ParentName(n)) && Linked()
      requires t == old(View()) && d in entries
      ensures View()[d].parent == if t[d].parent == Some(n) then t[n].parent else t[d].parent
      ensures p != Some(d) ==> View()[d].children == t[d].children
      ensures View()[d].routes == t[d].routes ==> entries[d].routes == old(entries[d].routes)
    {
      LeftParents(n, p, d);
      assert t[d] == old(entries[d].View()) && t[n] == old(entries[n].View());
    }

    twostate lemma LeftOne(new t: Table, new n: Name, new p: Option<Name>, new d: Name)
      requires old(Linked()) && old(ChildrenInvert()) && old(ChildrenApart(n)) && old(ChildrenByName(t))
      requires Left(n, p) && p == old(ParentName(n)) && Linked()
      requires Shape(t) && t == old(View()) && n in t && t[n].parent == p && t.Keys == old(entries).Keys
      requires d in View()
      ensures d in t && AfterEraseAt(t, View(), n, d)
    {
      LeftRest(t, n, p, d);
      LeftDistinct(n, p, d);
      if p == Some(d) {
        LeftSeen(t, n, d);
      }
    }

    twostate lemma LeftKeys(new n: Name, new p: Option<Name>)
      requires Left(n, p)
      ensures View().Keys == old(View()).Keys - {n}
    {
    }

    twostate lemma LeftEach(new t: Table, new n: Name, new p: Option<Name>)
      requires old(Linked()) && old(ChildrenInvert()) && old(ChildrenApart(n)) && old(ChildrenByName(t))
      requires Left(n, p) && p == old(ParentName(n)) && Linked()
      requires Shape(t) && t == old(View()) && n in t && t[n].parent == p && t.Keys == old(entries).Keys
      ensures forall d :: d in View() ==> d in t && AfterEraseAt(t, View(), n, d)
    {
      forall d | d in View()
        ensures d in t && AfterEraseAt(t, View(), n, d)
      {
        LeftOne(t, n, p, d);
      }
    }

    twostate lemma LeftShape(new t: Table, new n: Name, new p: Option<Name>)
      requires old(Linked()) && old(ChildrenInvert()) && old(ChildrenApart(n)) && old(ChildrenByName(t))
      requires Left(n, p) && p == old(ParentName(n)) && Linked()
      requires Shape(t) && t == old(View()) && n in t && t[n].parent == p && t.Keys == old(entries).Keys
      ensures Shape(View())
    {
      LeftEach(t, n, p);
      LeftKeys(n, p);
      ShapeAfterErase(t, View(), n);
    }

    /** The links of the table once `n` is gone from it. */
    method Unlink(n: Name, ghost p: Option<Name>)
      requires Linked() && Shape(View()) && n in entries && p == ParentName(n)
      modifies this`entries, entries.Values`parent, entries.Values`children
      ensures Left(n, p) && ContentsKept(n)
    {
      Neighbours(n);
      var entry := entries[n];
      var parent := entry.parent;
      assert entries[n] in entries.Values;
      forall c | c in entry.children
        ensures c in entries.Values
      {
        assert InTable(c) && entries[c.name] in entries.Values;
      }
      assert parent != null ==> entries[parent.name] in entries.Values;
      HandOver(entry, parent);
      entries := entries - {n};
    }

    /** Everything but the entry `n`, which has lost its last route, is as it should be. */
    ghost predicate ValidBut(n: Name)
      reads this, entries.Values
    {
      && Linked() && OrderOk() && Shape(View()) && FaceIndexOk()
      && (forall m :: m in order ==> m in View()) && nItems == TotalRoutes(order, View())
      && n in entries && (forall m :: m in entries && m != n ==> entries[m].routes != [])
    }

    method RemoveFromTree(n: Name, ghost t: Table)
      requires Linked() && Shape(t) && n in entries && t == View()
      modifies this`entries, entries.Values`parent, entries.Values`children
      ensures Linked() && Shape(View()) && ContentsKept(n)
    {
      ghost var p := ParentName(n);
      ShapeInverts();
      ShapeSeparates(n);
      SeenByName();
      assert t[n] == entries[n].View() && t.Keys == entries.Keys;
      Unlink(n, p);
      LeftLinked(n, p);
      LeftShape(t, n, p);
    }

    lemma PositionHere(n: Name)
      requires OrderOk() && n in entries
      ensures var k := Position(order, n); k < |order| && order[k] == n
      ensures var k := Position(order, n); var o := order[..k] + order[k + 1..];
              Sorted(o) && forall m :: m in o <==> m in order && m != n
    {
      var at :| 0 <= at < |order| && order[at] == n;
      PositionOf(order, n, at);
      SortedDistinct(order);
      OthersIn(order, at);
    }

    twostate predicate ContentsKept(n: Name)
      reads this`entries, entries.Values`routes, entries.Values`inheritedRoutes, entries.Values`nRoutesWithCaptureSet
    {
      && n in old(entries) && entries == old(entries) - {n}
      && forall d :: d in entries ==>
           && entries[d].routes == old(entries[d].routes)
               && entries[d].inheritedRoutes == old(entries[d].inheritedRoutes)
           && entries[d].nRoutesWithCaptureSet == old(entries[d].nRoutesWithCaptureSet)
    }

    twostate lemma ErasedContents(new n: Name)
      requires ContentsKept(n)
      ensures View().Keys == old(View()).Keys - {n} && SameExceptLinks(old(View()), View(), old(View()).Keys - {n})
    {
      var t, t' := old(View()), View();
      assert t.Keys == old(entries).Keys && t'.Keys == entries.Keys;
      forall d | d in entries
        ensures t'[d] == entries[d].View() && t[d] == old(entries[d].View())
      {
      }
    }

    twostate lemma ErasedCount(new n: Name)
      requires old(OrderOk()) && ContentsKept(n) && nItems == old(nItems) && old(entries[n].routes) == []
      requires old((forall m :: m in order ==> m in View()) && nItems == TotalRoutes(order, View()))
      requires var k := Position(old(order), n);
               k < |old(order)| && old(order)[k] == n && order == old(order)[..k] + old(order)[k + 1..]
      requires forall m :: m in order <==> m in entries
      ensures (forall m :: m in order ==> m in View()) && nItems == TotalRoutes(order, View())
    {
      var t := old(View());
      ErasedContents(n);
      assert t[n] == old(entries[n].View());
      assert View().Keys == entries.Keys;
      TotalAt(old(order), Position(old(order), n), t);
      TotalFrame(order, t, View());
    }

    twostate lemma ErasedIndex(new n: Name)
      requires old(FaceIndexOk()) && faceMap == old(faceMap) && ContentsKept(n)
      requires old(Linked()) && old(entries[n].routes) == []
      ensures FaceIndexOk()
    {
      forall f, i | f in faceMap && 0 <= i < |faceMap[f]|
        ensures InTable(faceMap[f][i])
      {
        assert old(InTable(faceMap[f][i]));
        assert old(HasFace(entries[n].routes, f)) == false;
      }
    }

    ghost predicate OrderWithout(n: Name)
      reads this`entries, this`order
    {
      Sorted(order) && forall m :: m in order <==> m in entries && m != n
    }

    method DropName(n: Name)
      requires OrderOk() && n in entries
      modifies this`order
      ensures OrderWithout(n)
      ensures var k := Position(old(order), n);
              k < |old(order)| && old(order)[k] == n && order == old(order)[..k] + old(order)[k + 1..]
    {
      PositionHere(n);
      var k := Position(order, n);
      order := order[..k] + order[k + 1..];
    }

    method TreeAndOrder(n: Name, ghost t: Table)
      requires Linked() && OrderOk() && Shape(t) && n in entries && t == View()
      modifies this`entries, this`order, entries.Values`parent, entries.Values`children
      ensures Linked() && OrderOk() && Shape(View()) && ContentsKept(n)
      ensures var k := Position(old(order), n);
              k < |old(order)| && old(order)[k] == n && order == old(order)[..k] + old(order)[k + 1..]
    {
      DropName(n);
      assert View() == t;
      label dropped:
      RemoveFromTree(n, t);
      OrderAgain@dropped(n);
    }

    twostate lemma OrderAgain(new n: Name)
      requires old(OrderWithout(n)) && order == old(order) && entries == old(entries) - {n}
      ensures OrderOk()
    {
    }

    /** eraseEntry. */
    method EraseEntry(n: Name)
      requires ValidBut(n) && entries[n].routes == []
      modifies this`entries, this`order, entries.Values`parent, entries.Values`children
      ensures Valid() && entries == old(entries) - {n}
      ensures SameExceptLinks(old(View()), View(), old(View()).Keys - {n}) && View().Keys == old(View()).Keys - {n}
    {
      TreeAndOrder(n, View());
      ErasedIndex(n);
      ErasedContents(n);
      ErasedCount(n);
    }

    /** The face index is right except that `n` may still be listed under `face` without need. */
    ghost predicate FaceIndexOver(n: Name, face: nat)
      reads this`entries, this`faceMap, entries.Values`routes
    {
      && (forall f, i :: f in faceMap && 0 <= i < |faceMap[f]| ==> InTable(faceMap[f][i]))
      && (forall f, m :: m in entries && !(m == n && f == face) ==>
            (f in faceMap && entries[m] in faceMap[f] <==> HasFace(entries[m].routes, f)))
      && n in entries && face in faceMap && entries[n] in faceMap[face]
    }

    method UnlistFace(n: Name, face: nat)
      requires Linked() && FaceIndexOver(n, face) && !HasFace(entries[n].routes, face)
      modifies this`faceMap
      ensures FaceIndexOk()
    {
      var entry := entries[n];
      WithoutMembers(faceMap[face], entry);
      ghost var list := Without(faceMap[face], entry);
      WithoutFrom(faceMap[face], entry);
      assert forall i :: 0 <= i < |list| ==> list[i].name in entries && entries[list[i].name] == list[i];
      faceMap := faceMap[face := Without(faceMap[face], entry)];
      assert forall i :: 0 <= i < |list| ==> list[i].name in entries && entries[list[i].name] == list[i];
      forall f, i | f in faceMap && 0 <= i < |faceMap[f]|
        ensures InTable(faceMap[f][i])
      {
        assert f == face ==> faceMap[f] == list;
      }
      forall f, m | m in entries
        ensures f in faceMap && entries[m] in faceMap[f] <==> HasFace(entries[m].routes, f)
      {
        if m != n {
          assert entries[m] != entry;
        }
      }
    }

    method RouteOut(n: Name, i: nat)
      requires Valid() && n in entries && i < |entries[n].routes|
      modifies entries.Values`routes, entries.Values`nRoutesWithCaptureSet
      ensures OnlyEntry(n) && Linked() && FaceIndexOver(n, old(entries[n].routes)[i].faceId)
      ensures entries[n].View() == WithoutRoute(old(entries[n].View()), i)
    {
      assert HasFace(entries[n].routes, entries[n].routes[i].faceId);
      entries[n].EraseRoute(i);
      FaceRemoved(old(entries[n].routes), i);
    }

    twostate lemma ValidButAfterEntry(n: Name)
      requires old(Valid()) && OnlyEntry(n) && order == old(order) && FaceIndexOk()
      requires nItems == old(nItems) - |old(entries[n].routes)| + |entries[n].routes|
      ensures ValidBut(n)
    {
      ViewAfterEntry(n);
      var t, t' := old(View()), View();
      assert t'[n] == entries[n].View();
      ShapeFrame(t, t');
      TotalChange(order, t, t', n);
    }

    lemma CountCovers(n: Name)
      requires OrderOk() && CountOk() && n in entries
      ensures nItems >= |entries[n].routes|
    {
      var k :| 0 <= k < |order| && order[k] == n;
      TotalAt(order, k, View());
      assert View()[n].routes == entries[n].routes;
    }

    /** The route leaves the entry, and the entry the list of the face if it was the last on it. */
    method TakeOut(n: Name, i: nat)
      requires Valid() && n in entries && i < |entries[n].routes|
      modifies this`faceMap, entries.Values`routes, entries.Values`nRoutesWithCaptureSet
      ensures OnlyEntry(n) && FaceIndexOk() && entries[n].View() == WithoutRoute(old(entries[n].View()), i)
    {
      var face := entries[n].routes[i].faceId;
      RouteOut(n, i);
      if !HasFaceId(entries[n].routes, face) {
        UnlistFace(n, face);
      }
    }

    method TakeRoute(n: Name, i: nat)
      requires Valid() && n in entries && i < |entries[n].routes|
      modifies this`nItems, this`faceMap, entries.Values`routes, entries.Values`nRoutesWithCaptureSet
      ensures ValidBut(n) && View() == old(View())[n := WithoutRoute(old(View())[n], i)]
    {
      CountCovers(n);
      TakeOut(n, i);
      nItems := nItems - 1;
      ValidButAfterEntry(n);
      ViewAfterEntry(n);
    }

    /** Rib::erase. */
    method Erase(prefix: Name, route: Route)
      requires Valid()
      modifies this, entries.Values
      ensures Valid() && Erased(old(View()), prefix, route, View())
      ensures forall n :: n in entries ==> n in old(entries) && entries[n] == old(entries)[n]
    {
      if prefix in entries {
        var i := FindRoute(entries[prefix].routes, route);
        if i < |entries[prefix].routes| {
          TakeRoute(prefix, i);
          ghost var t := View();
          assert t[prefix] == entries[prefix].View();
          if entries[prefix].routes == [] {
            EraseEntry(prefix);
          }
        }
      }
    }

    // ----- the end of a batch -----

    method ChangeEntry(rec: RibUpdate)
      requires rec.name in entries && Linked()
      requires rec.action == UNREGISTER ==> entries[rec.name].View().HasInherited(rec.route.faceId)
      modifies entries.Values`inheritedRoutes
      ensures OnlyEntry(rec.name) && entries[rec.name].routes == old(entries[rec.name].routes)
      ensures entries[rec.name].View() == ChangeInherited(old(entries[rec.name].View()), rec)
    {
      var entry := entries[rec.name];
      match rec.action
      case REGISTER =>
        entry.AddInheritedRoute(rec.route);
      case UNREGISTER =>
        entry.RemoveInheritedRoute(rec.route);
      case REMOVE_FACE =>
    }

    method ChangeRecorded(rec: RibUpdate)
      requires Valid() && Applicable(View(), rec)
      modifies entries.Values`inheritedRoutes
      ensures Valid() && View() == old(View())[rec.name := ChangeInherited(old(View())[rec.name], rec)]
    {
      assert View()[rec.name] == entries[rec.name].View();
      ChangeEntry(rec);
      ValidAfterEntry(rec.name);
      ViewAfterEntry(rec.name);
    }

    predicate CanChange(rec: RibUpdate)
      reads this`entries, entries.Values`inheritedRoutes
    {
      rec.name in entries && (rec.action == UNREGISTER ==>
          HasFaceId(entries[rec.name].inheritedRoutes, rec.route.faceId))
    }

    /** modifyInheritedRoutes: every record must find its entry, and its element to remove. The
        result is false where the assertion on that fails. */
    method ModifyInheritedRoutes(recs: seq<RibUpdate>) returns (ok: bool)
      requires Valid()
      modifies entries.Values`inheritedRoutes
      ensures Valid() && ok == AllApplicable(old(View()), recs)
      ensures ok ==> View() == ModifyInherited(old(View()), recs)
    {
      for i := 0 to |recs|
        invariant Valid() && (AllApplicable(View(), recs[i..]) <==> AllApplicable(old(View()), recs))
        invariant AllApplicable(View(), recs[i..]) ==>
                      ModifyInherited(View(), recs[i..]) == ModifyInherited(old(View()), recs)
      {
        assert recs[i..][0] == recs[i] && recs[i..][1..] == recs[i + 1..];
        CanChangeIs(recs[i]);
        if !CanChange(recs[i]) {
          return false;
        }
        ChangeRecorded(recs[i]);
      }
      return true;
    }

    lemma CanChangeIs(rec: RibUpdate)
      ensures CanChange(rec) <==> Applicable(View(), rec)
    {
      if rec.name in entries {
        assert View()[rec.name] == entries[rec.name].View();
      }
    }

    /** onFibUpdateSuccess: the update enters the table, then the records it came with. */
    method OnFibUpdateSuccess(u: RibUpdate, recs: seq<RibUpdate>) returns (ok: bool, ghost mutated: Table)
      requires Valid()
      modifies this, entries.Values
      ensures Valid() && Mutated(old(View()), u, mutated) && ok == AllApplicable(mutated, recs)
      ensures ok ==> View() == ModifyInherited(mutated, recs)
      ensures forall n :: n in entries ==> (n in old(entries) && entries[n] == old(entries)[n]) || fresh(entries[n])
    {
      if u.action == REGISTER {
        Insert(u.name, u.route);
      } else {
        Erase(u.name, u.route);
      }
      mutated := View();
      assert Mutated(old(View()), u, mutated);
      ok := ModifyInheritedRoutes(recs);
    }
  }

  predicate HasFaceId(routes: seq<Route>, face: nat)
    ensures HasFaceId(routes, face) <==> HasFace(routes, face)
  {
    FindFace(routes, face) < |routes|
  }

  lemma FaceRemoved(routes: seq<Route>, i: nat)
    requires i < |routes|
    ensures forall f :: f != routes[i].faceId ==> (HasFace(routes[..i] + routes[i + 1..], f) <==> HasFace(routes, f))
  {
    var rest := routes[..i] + routes[i + 1..];
    forall f | f != routes[i].faceId
      ensures HasFace(rest, f) <==> HasFace(routes, f)
    {
      if HasFace(routes, f) {
        var j :| 0 <= j < |routes| && routes[j].faceId == f;
        assert rest[if j < i then j else j - 1].faceId == f;
      }
      if HasFace(rest, f) {
        var j :| 0 <= j < |rest| && rest[j].faceId == f;
        assert routes[if j < i then j else j + 1].faceId == f;
      }
    }
  }

  lemma ChildrenInside(t: Table, d: Name)
    requires Shape(t) && d in t
    ensures forall c :: c in t[d].children ==> c in t
    ensures d !in t[d].children
  {
    assert LinksOk(t, d);
  }

  lemma {:induction false} WithoutFrom<T>(s: seq<T>, x: T)
    ensures forall i :: 0 <= i < |Without(s, x)| ==> Without(s, x)[i] in s
  {
    if s != [] {
      WithoutFrom(s[1..], x);
      var r, tail := Without(s, x), Without(s[1..], x);
      forall i | 0 <= i < |r|
        ensures r[i] in s
      {
        if s[0] == x {
          assert r[i] == tail[i];
          assert tail[i] in s[1..];
        } else if i > 0 {
          assert r[i] == tail[i - 1];
          assert tail[i - 1] in s[1..];
        }
      }
    }
  }

  lemma WithoutFirst<T>(s: seq<T>)
    requires s != [] && NoDuplicates(s)
    ensures Without(s, s[0]) == s[1..]
  {
    WithoutAbsent(s[1..], s[0]);
  }

  lemma {:induction false} WithoutAbsent<T>(s: seq<T>, x: T)
    requires x !in s
    ensures Without(s, x) == s
  {
    if s != [] {
      WithoutAbsent(s[1..], x);
    }
  }

  /** A new name with one route adds one to the total. */
  lemma TotalInsert(order: seq<Name>, k: nat, n: Name, t: Table, t': Table)
    requires k <= |order| && (forall m :: m in order ==> m in t)
    requires n in t' && |t'[n].routes| == 1 && n !in order
    requires forall m :: m in t ==> m in t' && |t'[m].routes| == |t[m].routes|
    ensures forall m :: m in order[..k] + [n] + order[k..] ==> m in t'
    ensures TotalRoutes(order[..k] + [n] + order[k..], t') == TotalRoutes(order, t) + 1
  {
    var o := order[..k] + [n] + order[k..];
    InsertMembers(order, k, n);
    TotalAt(o, k, t');
    assert o[..k] + o[k + 1..] == order;
    TotalFrame(order, t, t');
  }

  lemma InsertMembers(order: seq<Name>, k: nat, n: Name)
    requires k <= |order|
    ensures forall m :: m in order[..k] + [n] + order[k..] <==> m in order || m == n
  {
    assert order == order[..k] + order[k..];
  }

  /** The routes of an entry on a face, with its name. */
  function RoutesOn(e: RibEntry, face: nat): (found: seq<(Name, Route)>)
    reads e`routes
    ensures forall n, r :: (n, r) in found <==> n == e.name && r in e.routes && r.faceId == face
  {
    Named(e.name, e.routes, face)
  }

  function Named(n: Name, routes: seq<Route>, face: nat): (found: seq<(Name, Route)>)
    ensures forall m, r :: (m, r) in found <==> m == n && r in routes && r.faceId == face
  {
    if routes == [] then []
    else
      assert forall r :: r in routes <==> r == routes[0] || r in routes[1..];
      (if routes[0].faceId == face then [(n, routes[0])] else []) + Named(n, routes[1..], face)
  }

  function NamedFrom(n: Name, routes: seq<Route>, j: nat, face: nat): seq<(Name, Route)>
    requires j <= |routes|
  {
    Named(n, routes[j..], face)
  }

  lemma NamedStep(n: Name, routes: seq<Route>, j: nat, face: nat, found: seq<(Name, Route)>)
    requires j < |routes|
    ensures found + NamedFrom(n, routes, j, face)
            == (if routes[j].faceId == face then found + [(n, routes[j])] else found)
                + NamedFrom(n, routes, j + 1, face)
  {
    assert routes[j..][1..] == routes[j + 1..];
  }

  lemma NamedEnds(n: Name, routes: seq<Route>, face: nat)
    ensures NamedFrom(n, routes, 0, face) == Named(n, routes, face) && NamedFrom(n, routes, |routes|, face) == []
  {
    assert routes[0..] == routes;
  }

  function Listed(list: seq<RibEntry>, face: nat): seq<(Name, Route)>
    reads list`routes
  {
    if list == [] then [] else Listed(list[..|list| - 1], face) + RoutesOn(list[|list| - 1], face)
  }

  /** The two loops of findRoutesWithFaceId. */
  method RoutesListed(list: seq<RibEntry>, face: nat) returns (found: seq<(Name, Route)>)
    ensures found == Listed(list, face)
  {
    found := [];
    for i := 0 to |list|
      invariant found == Listed(list[..i], face)
    {
      var e := list[i];
      ghost var before := found;
      for j := 0 to |e.routes|
        invariant found + NamedFrom(e.name, e.routes, j, face) == before + NamedFrom(e.name, e.routes, 0, face)
      {
        NamedStep(e.name, e.routes, j, face, found);
        if e.routes[j].faceId == face {
          found := found + [(e.name, e.routes[j])];
        }
      }
      NamedEnds(e.name, e.routes, face);
      assert list[..i + 1][..i] == list[..i];
    }
    assert list[..|list|] == list;
  }

  lemma {:induction false} ListedAll(list: seq<RibEntry>, face: nat)
    ensures forall n, r :: (n, r) in Listed(list, face) <==>
              r.faceId == face && exists e :: e in list && e.name == n && r in e.routes
  {
    if list != [] {
      var front, last := list[..|list| - 1], list[|list| - 1];
      ListedAll(front, face);
      assert forall e :: e in list <==> e in front || e == last;
    }
  }

  lemma SliceDistinct<T>(s: seq<T>, from: nat, to: nat)
    requires NoDuplicates(s) && from <= to <= |s|
    ensures NoDuplicates(s[from..to])
  {
  }

  lemma DistinctByName(s: seq<RibEntry>)
    requires NoDuplicates(NamesOf(s))
    ensures NoDuplicates(s)
  {
    assert forall i :: 0 <= i < |s| ==> NamesOf(s)[i] == s[i].name;
  }

  lemma FaceAdded(routes: seq<Route>, r: Route)
    ensures forall f :: HasFace(routes + [r], f) <==> HasFace(routes, f) || f == r.faceId
  {
    forall f
      ensures HasFace(routes + [r], f) <==> HasFace(routes, f) || f == r.faceId
    {
      assert (routes + [r])[|routes|] == r;
      if HasFace(routes, f) {
        var i :| 0 <= i < |routes| && routes[i].faceId == f;
        assert (routes + [r])[i].faceId == f;
      }
    }
  }

  lemma FaceUpdated(routes: seq<Route>, i: nat, r: Route)
    requires i < |routes|
    ensures forall f :: HasFace(routes[i := routes[i].(flags := r.flags, cost := r.cost)], f) <==> HasFace(routes, f)
  {
    var updated := routes[i := routes[i].(flags := r.flags, cost := r.cost)];
    forall f
      ensures HasFace(updated, f) <==> HasFace(routes, f)
    {
      assert forall j :: 0 <= j < |routes| ==> updated[j].faceId == routes[j].faceId;
      if HasFace(routes, f) {
        var j :| 0 <= j < |routes| && routes[j].faceId == f;
        assert updated[j].faceId == f;
      }
    }
  }

  /** Changing one entry's routes changes the total by the difference. */
  lemma TotalChange(order: seq<Name>, t: Table, t': Table, n: Name)
    requires Sorted(order) && n in order && n in t && n in t' && t' == t[n := t'[n]]
    requires forall m :: m in order ==> m in t
    ensures forall m :: m in order ==> m in t'
    ensures TotalRoutes(order, t') == TotalRoutes(order, t) - |t[n].routes| + |t'[n].routes|
  {
    SortedDistinct(order);
    var k :| 0 <= k < |order| && order[k] == n;
    TotalAt(order, k, t);
    TotalAt(order, k, t');
    OthersIn(order, k);
    TotalFrame(order[..k] + order[k + 1..], t, t');
  }

  lemma OthersIn(order: seq<Name>, k: nat)
    requires k < |order| && NoDuplicates(order)
    ensures forall n :: n in order[..k] + order[k + 1..] <==> n in order && n != order[k]
  {
    var rest := order[..k] + order[k + 1..];
    forall n
      ensures n in rest <==> n in order && n != order[k]
    {
      if n in order && n != order[k] {
        var i :| 0 <= i < |order| && order[i] == n;
        assert rest[if i < k then i else i - 1] == n;
      }
      if n in rest {
        var i :| 0 <= i < |rest| && rest[i] == n;
        assert order[if i < k then i else i + 1] == n;
      }
    }
  }

  lemma PositionOf(order: seq<Name>, n: Name, at: nat)
    requires Sorted(order) && at < |order| && order[at] == n
    ensures Position(order, n) == at
  {
    var k := Position(order, n);
    NameLessTotal(n, n);
  }

  /** The stretch of the table the walk covers is exactly the strict descendants. */
  lemma BelowIsSlice(order: seq<Name>, k: nat, i: nat, prefix: Name)
    requires Sorted(order) && k < |order| && order[k] == prefix && k + 1 <= i <= |order|
    requires forall j :: k + 1 <= j < i ==> prefix <= order[j]
    requires i < |order| ==> !(prefix <= order[i])
    ensures forall d :: d in order[k + 1..i] <==> d in order && prefix < d
  {
    AfterIsGreater(order, k, prefix);
    WalkIsFilter(order, k + 1, prefix);
    WalkIsStretch(order, k + 1, i, prefix);
  }

  lemma WalkIsStretch(order: seq<Name>, k: nat, i: nat, prefix: Name)
    requires k <= i <= |order| && forall j :: k <= j < i ==> prefix <= order[j]
    requires i < |order| ==> !(prefix <= order[i])
    ensures WalkBelow(order[k..], prefix) == order[k..i]
  {
    var names := order[k..];
    assert forall j :: 0 <= j < |names| ==> names[j] == order[k + j];
    WalkEnds(names, i - k, prefix);
    assert names[..i - k] == order[k..i];
  }

  lemma {:induction false} WalkEnds(names: seq<Name>, m: nat, p: Name)
    requires m <= |names| && (forall j :: 0 <= j < m ==> p <= names[j])
    requires m < |names| ==> !(p <= names[m])
    ensures WalkBelow(names, p) == names[..m]
  {
    if m > 0 {
      WalkEnds(names[1..], m - 1, p);
      assert names[..m] == [names[0]] + names[1..][..m - 1];
    }
  }

  lemma AfterIsGreater(order: seq<Name>, k: nat, n: Name)
    requires Sorted(order) && k < |order| && order[k] == n
    ensures forall i :: 0 <= i < |order| ==> (i < k + 1 <==> !NameLess(n, order[i]))
  {
    forall i | 0 <= i < |order|
      ensures i < k + 1 <==> !NameLess(n, order[i])
    {
      NameLessTotal(order[i], n);
      if i < k {
        assert NameLess(order[i], order[k]);
      }
    }
  }

  /** The names at or below `n`, in the order of the list. */
  function NamesBelow(order: seq<Name>, n: Name): (names: seq<Name>)
    ensures forall d :: d in names <==> d in order && n <= d
  {
    if order == [] then []
    else
      assert forall d :: d in order <==> d == order[0] || d in order[1..];
      (if n <= order[0] then [order[0]] else []) + NamesBelow(order[1..], n)
  }

  function BelowFrom(order: seq<Name>, i: nat, n: Name): seq<Name>
    requires i <= |order|
  {
    NamesBelow(order[i..], n)
  }

  lemma BelowEnds(order: seq<Name>, n: Name)
    ensures BelowFrom(order, 0, n) == NamesBelow(order, n) && BelowFrom(order, |order|, n) == []
  {
    assert order[0..] == order;
  }

  lemma BelowStep(order: seq<Name>, i: nat, n: Name, front: seq<Name>)
    requires i < |order|
    ensures front + BelowFrom(order, i, n)
            == (if n <= order[i] then front + [order[i]] else front) + BelowFrom(order, i + 1, n)
  {
    assert order[i..][0] == order[i] && order[i..][1..] == order[i + 1..];
  }

  lemma NamesAppend(entries: seq<RibEntry>, e: RibEntry)
    ensures NamesOf(entries + [e]) == NamesOf(entries) + [e.name]
  {
  }
}
