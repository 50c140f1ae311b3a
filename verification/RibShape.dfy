/** How the prefix tree changes when a name enters or leaves the table. */
module RibShape {
  import opened Names
  import opened Options
  import opened RibModel

  lemma PrefixOrder(a: Name, b: Name, d: Name)
    requires a < d && b < d
    ensures a < b || a == b || b < a
  {
    PrefixesComparable(a, b, d);
    PrefixesComparable(b, a, d);
    if a <= b && |a| == |b| {
      assert a == b;
    }
    if b <= a && |a| == |b| {
      assert a == b;
    }
  }

  lemma ParentIs(keys: set<Name>, d: Name, p: Name)
    requires p in keys && p < d && forall q :: q in keys && q < d ==> q <= p
    ensures FindParent(keys, d) == Some(p)
  {
    ParentIsDeepest(keys, d, p);
    MutualPrefixes(FindParent(keys, d).value, p);
  }

  /** Inserting `n` re-parents exactly the names below it that had the parent it gets. */
  lemma ParentAfterInsert(keys: set<Name>, n: Name, d: Name)
    requires n !in keys
    ensures FindParent(keys + {n}, d)
            == if n < d && FindParent(keys, d) == FindParent(keys, n) then Some(n) else FindParent(keys, d)
  {
    var p, f := FindParent(keys, n), FindParent(keys, d);
    if n < d {
      if f == p {
        forall q | q in keys + {n} && q < d
          ensures q <= n
        {
          PrefixOrder(q, n, d);
          if q in keys {
            ParentIsDeepest(keys, d, q);
          }
        }
        ParentIs(keys + {n}, d, n);
      } else {
        if p.Some? {
          ParentIsDeepest(keys, d, p.value);
        }
        PrefixOrder(f.value, n, d);
        ParentIsDeepest(keys, n, f.value);
        if p.Some? {
          MutualPrefixes(f.value, p.value);
        }
        ParentIs(keys + {n}, d, f.value);
      }
    } else if f.Some? {
      ParentIs(keys + {n}, d, f.value);
    } else {
      assert forall q :: q in keys ==> !(q < d);
      assert forall q :: q in keys + {n} ==> !(q < d);
      NoParent(keys + {n}, d);
    }
  }

  lemma MutualPrefixes(a: Name, b: Name)
    ensures a <= b && b <= a ==> a == b
  {
  }

  lemma NoParent(keys: set<Name>, d: Name)
    requires forall q :: q in keys ==> !(q < d)
    ensures FindParent(keys, d) == None
  {
  }

  /** Erasing `n` hands its children to its parent and leaves every other parent. */
  lemma ParentAfterErase(keys: set<Name>, n: Name, d: Name)
    requires n in keys && d != n
    ensures FindParent(keys - {n}, d)
            == if FindParent(keys, d) == Some(n) then FindParent(keys, n) else FindParent(keys, d)
  {
    var rest := keys - {n};
    assert rest + {n} == keys;
    ParentAfterInsert(rest, n, d);
    ParentAfterInsert(rest, n, n);
  }

  ghost predicate ParentsAfterInsert(t: Table, t': Table, n: Name) {
    && t'.Keys == t.Keys + {n}
    && t'[n].parent == FindParent(t.Keys, n)
    && forall d :: d in t ==> t'[d].parent == if n < d && t[d].parent == FindParent(t.Keys, n) then Some(n)
        else t[d].parent
  }

  ghost predicate ChildrenAfterInsert(t: Table, t': Table, n: Name)
    requires t'.Keys == t.Keys + {n}
  {
    && (forall d :: d in t' ==> NoDuplicates(t'[d].children))
    && (forall c :: c in t'[n].children <==> c in t && n < c && t[c].parent == FindParent(t.Keys, n))
    && (forall d :: d in t ==>
          if FindParent(t.Keys, n) == Some(d)
          then forall c :: c in t'[d].children <==> c == n || (c in t[d].children && !(n < c))
          else t'[d].children == t[d].children)
  }

  lemma ShapeAfterInsert(t: Table, t': Table, n: Name)
    requires Shape(t) && n !in t
    requires ParentsAfterInsert(t, t', n) && ChildrenAfterInsert(t, t', n)
    ensures Shape(t')
  {
    forall d | d in t'
      ensures LinksOk(t', d)
    {
      ParentAfterInsert(t.Keys, n, d);
      assert d in t ==> LinksOk(t, d);
      forall c
        ensures c in t'[d].children <==> c in t' && FindParent(t'.Keys, c) == Some(d)
      {
        ChildAfterInsert(t, t', n, d, c);
      }
    }
  }

  lemma ChildAfterInsert(t: Table, t': Table, n: Name, d: Name, c: Name)
    requires Shape(t) && n !in t && d in t'
    requires ParentsAfterInsert(t, t', n) && ChildrenAfterInsert(t, t', n)
    ensures c in t'[d].children <==> c in t' && FindParent(t'.Keys, c) == Some(d)
  {
    ParentAfterInsert(t.Keys, n, c);
    if c in t {
      assert LinksOk(t, c);
    }
    if d in t {
      assert LinksOk(t, d);
      assert c in t[d].children <==> c in t && FindParent(t.Keys, c) == Some(d);
    }
  }

  /** What erasing `n` leaves of the links of another entry. */
  ghost predicate AfterEraseAt(t: Table, t': Table, n: Name, d: Name)
    requires n in t && d in t && d in t'
  {
    && t'[d].parent == (if t[d].parent == Some(n) then t[n].parent else t[d].parent)
    && NoDuplicates(t'[d].children)
    && if t[n].parent == Some(d)
       then forall c :: c in t'[d].children <==> (c in t[d].children && c != n) || c in t[n].children
       else t'[d].children == t[d].children
  }

  ghost predicate AfterErase(t: Table, t': Table, n: Name)
    requires n in t
  {
    t'.Keys == t.Keys - {n} && forall d :: d in t' ==> d in t && AfterEraseAt(t, t', n, d)
  }

  lemma ShapeAfterErase(t: Table, t': Table, n: Name)
    requires Shape(t) && n in t && AfterErase(t, t', n)
    ensures Shape(t')
  {
    forall d | d in t'
      ensures LinksOk(t', d)
    {
      LinksAfterErase(t, t', n, d);
    }
  }

  lemma LinksAfterErase(t: Table, t': Table, n: Name, d: Name)
    requires Shape(t) && n in t && AfterErase(t, t', n) && d in t'
    ensures LinksOk(t', d)
  {
    assert AfterEraseAt(t, t', n, d);
    assert LinksOk(t, n) && LinksOk(t, d);
    ParentAfterErase(t.Keys, n, d);
    forall c
      ensures c in t'[d].children <==> c in t' && FindParent(t'.Keys, c) == Some(d)
    {
      if c != n {
        ParentAfterErase(t.Keys, n, c);
      }
      assert c in t ==> LinksOk(t, c);
    }
  }

  // ----- the number of routes -----

  function TotalRoutes(order: seq<Name>, t: Table): nat
    requires forall n :: n in order ==> n in t
  {
    if order == [] then 0 else |t[order[0]].routes| + TotalRoutes(order[1..], t)
  }

  lemma {:induction false} TotalFrame(order: seq<Name>, t: Table, t': Table)
    requires forall n :: n in order ==> n in t && n in t' && |t[n].routes| == |t'[n].routes|
    ensures TotalRoutes(order, t) == TotalRoutes(order, t')
  {
    if order != [] {
      assert forall n :: n in order[1..] ==> n in order;
      TotalFrame(order[1..], t, t');
    }
  }

  lemma {:induction false} TotalSplit(a: seq<Name>, b: seq<Name>, t: Table)
    requires forall n :: n in a + b ==> n in t
    ensures (forall n :: n in a ==> n in t) && (forall n :: n in b ==> n in t)
    ensures TotalRoutes(a + b, t) == TotalRoutes(a, t) + TotalRoutes(b, t)
  {
    forall n | n in a || n in b
      ensures n in a + b
    {
    }
    if a == [] {
      assert a + b == b;
    } else {
      assert (a + b)[1..] == a[1..] + b;
      assert forall n :: n in a[1..] + b ==> n in a + b;
      TotalSplit(a[1..], b, t);
    }
  }

  lemma TotalAt(order: seq<Name>, i: nat, t: Table)
    requires i < |order| && forall n :: n in order ==> n in t
    ensures forall n :: n in order[..i] + order[i + 1..] ==> n in t
    ensures TotalRoutes(order, t) == TotalRoutes(order[..i] + order[i + 1..], t) + |t[order[i]].routes|
  {
    var n := order[i];
    assert order == order[..i] + ([n] + order[i + 1..]);
    TotalSplit(order[..i], [n] + order[i + 1..], t);
    var one := [n];
    TotalSplit(one, order[i + 1..], t);
    assert one[1..] == [];
    assert TotalRoutes(one, t) == |t[n].routes|;
    forall m | m in order[..i] + order[i + 1..]
      ensures m in order
    {
      if m in order[..i] {
      }
    }
    TotalSplit(order[..i], order[i + 1..], t);
  }

  // ----- the table's order -----

  /** How many names sort before `n`: the position std::map gives it. */
  function Position(order: seq<Name>, n: Name): (k: nat)
    ensures k <= |order|
    ensures forall i :: 0 <= i < k ==> NameLess(order[i], n)
    ensures k < |order| ==> !NameLess(order[k], n)
  {
    if order == [] || !NameLess(order[0], n) then 0 else 1 + Position(order[1..], n)
  }

  lemma SortedInsert(order: seq<Name>, n: Name)
    requires Sorted(order) && n !in order
    ensures var k := Position(order, n); Sorted(order[..k] + [n] + order[k..])
  {
    var k := Position(order, n);
    var o := order[..k] + [n] + order[k..];
    forall i, j | 0 <= i < j < |o|
      ensures NameLess(o[i], o[j])
    {
      if k < |order| {
        NameLessTotal(order[k], n);
        if j > k + 1 {
          NameLessTransitive(n, order[k], order[j - 1]);
        }
      }
    }
  }

  lemma SortedDistinct(order: seq<Name>)
    requires Sorted(order)
    ensures NoDuplicates(order)
  {
    forall i, j | 0 <= i < j < |order|
      ensures order[i] != order[j]
    {
      NameLessTotal(order[i], order[j]);
    }
  }
}
