/** NDN names and their canonical order (section "Canonical Order" of the NDN Packet
    Format Specification): a shorter component comes first, components of one length are
    compared byte by byte, and a name comes before every name it is a strict prefix of.
    Dafny's `<=` and `<` on sequences are the prefix and the strict prefix relation. */
module Names {
  type Component = seq<nat>
  type Name = seq<Component>

  predicate BytesLess(a: seq<nat>, b: seq<nat>) {
    if b == [] then false
    else if a == [] then true
    else if a[0] == b[0] then BytesLess(a[1..], b[1..])
    else a[0] < b[0]
  }

  predicate ComponentLess(a: Component, b: Component) {
    |a| < |b| || (|a| == |b| && BytesLess(a, b))
  }

  predicate NameLess(a: Name, b: Name) {
    if b == [] then false
    else if a == [] then true
    else if a[0] == b[0] then NameLess(a[1..], b[1..])
    else ComponentLess(a[0], b[0])
  }

  lemma {:induction false} BytesLessAsymmetric(a: seq<nat>, b: seq<nat>)
    ensures !(BytesLess(a, b) && BytesLess(b, a))
    ensures a == b || BytesLess(a, b) || BytesLess(b, a)
    ensures !BytesLess(a, a)
  {
    if a != [] {
      BytesLessAsymmetric(a[1..], if b == [] then [] else b[1..]);
      if b != [] && a[0] == b[0] && a[1..] == b[1..] {
        assert a == [a[0]] + a[1..] && b == [b[0]] + b[1..];
      }
    }
  }

  lemma {:induction false} BytesLessTransitive(a: seq<nat>, b: seq<nat>, c: seq<nat>)
    requires BytesLess(a, b) && BytesLess(b, c)
    ensures BytesLess(a, c)
  {
    if a != [] && a[0] == b[0] == c[0] {
      BytesLessTransitive(a[1..], b[1..], c[1..]);
    }
  }

  lemma ComponentLessTransitive(a: Component, b: Component, c: Component)
    requires ComponentLess(a, b) && ComponentLess(b, c)
    ensures ComponentLess(a, c)
  {
    if |a| == |b| == |c| {
      BytesLessTransitive(a, b, c);
    }
  }

  /** The canonical order is a strict total order. */
  lemma {:induction false} NameLessTotal(a: Name, b: Name)
    ensures a == b || NameLess(a, b) || NameLess(b, a)
    ensures !(NameLess(a, b) && NameLess(b, a))
    ensures !NameLess(a, a)
  {
    if a != [] {
      NameLessTotal(a[1..], if b == [] then [] else b[1..]);
      if b != [] {
        BytesLessAsymmetric(a[0], b[0]);
        if a[0] == b[0] && a[1..] == b[1..] {
          assert a == [a[0]] + a[1..] && b == [b[0]] + b[1..];
        }
      }
    }
  }

  lemma {:induction false} NameLessTransitive(a: Name, b: Name, c: Name)
    requires NameLess(a, b) && NameLess(b, c)
    ensures NameLess(a, c)
  {
    if a != [] {
      if a[0] == b[0] == c[0] {
        NameLessTransitive(a[1..], b[1..], c[1..]);
      } else if a[0] != b[0] && b[0] != c[0] {
        ComponentLessTransitive(a[0], b[0], c[0]);
        BytesLessAsymmetric(a[0], c[0]);
      }
    }
  }

  lemma {:induction false} StrictPrefixLess(p: Name, d: Name)
    requires p < d
    ensures NameLess(p, d)
  {
    if p != [] {
      StrictPrefixLess(p[1..], d[1..]);
    }
  }

  /** The names below a prefix are contiguous: nothing sorts between a prefix and one of
      its descendants without being a descendant too. */
  lemma {:induction false} DescendantsContiguous(p: Name, x: Name, d: Name)
    requires p <= d && NameLess(p, x) && NameLess(x, d)
    ensures p < x
  {
    if p != [] {
      if x[0] != d[0] {
        BytesLessAsymmetric(x[0], d[0]);
        assert false;
      }
      DescendantsContiguous(p[1..], x[1..], d[1..]);
      assert p == [p[0]] + p[1..] && x == [x[0]] + x[1..];
    }
  }

  /** Two prefixes of one name are comparable. */
  lemma PrefixesComparable(a: Name, b: Name, d: Name)
    requires a <= d && b <= d
    ensures a <= b || b <= a
    ensures |a| <= |b| ==> a <= b
  {
    if |a| <= |b| {
      assert a == d[..|a|] && b == d[..|b|];
      assert b[..|a|] == a;
    } else {
      assert a == d[..|a|] && b == d[..|b|];
      assert a[..|b|] == b;
    }
  }

  ghost predicate Sorted(names: seq<Name>) {
    forall i, j :: 0 <= i < j < |names| ==> NameLess(names[i], names[j])
  }

  /** The entries that follow `p` in canonical order, up to the first one not below `p`. */
  function WalkBelow(names: seq<Name>, p: Name): (r: seq<Name>) {
    if names == [] || !(p <= names[0]) then []
    else [names[0]] + WalkBelow(names[1..], p)
  }

  /** Walking the ordered table from just after `p` to the first name not below it finds
      every strict descendant of `p` and nothing else, each once. */
  lemma {:induction false} WalkIsFilter(names: seq<Name>, k: nat, p: Name)
    requires Sorted(names) && k <= |names|
    requires forall i :: 0 <= i < |names| ==> (i < k <==> !NameLess(p, names[i]))
    ensures var w := WalkBelow(names[k..], p);
            && k + |w| <= |names|
            && w == names[k..k + |w|]
            && (forall d :: d in w <==> d in names && p < d)
    decreases |names| - k
  {
    WalkPrefix(names[k..], p);
    var w := WalkBelow(names[k..], p);
    assert names[k..][..|w|] == names[k..k + |w|];
    forall d | d in names && p < d
      ensures d in w
    {
      var i :| 0 <= i < |names| && names[i] == d;
      StrictPrefixLess(p, d);
      assert i >= k;
      if i >= k + |w| {
        var j := k + |w|;
        assert names[k..][|w|] == names[j];
        assert NameLess(p, names[j]);
        if j != i {
          assert NameLess(names[j], d);
          DescendantsContiguous(p, names[j], d);
        }
        assert false;
      }
      assert w[i - k] == d;
    }
    forall d | d in w
      ensures d in names && p < d
    {
      var i :| 0 <= i < |w| && w[i] == d;
      assert d == names[k + i];
      assert NameLess(p, d);
      NameLessTotal(p, p);
      assert p <= d && p != d;
    }
  }

  lemma {:induction false} WalkPrefix(names: seq<Name>, p: Name)
    ensures var w := WalkBelow(names, p);
            && |w| <= |names| && w == names[..|w|]
            && (forall d :: d in w ==> p <= d)
            && (|w| < |names| ==> !(p <= names[|w|]))
  {
    if names != [] && p <= names[0] {
      WalkPrefix(names[1..], p);
      var t := WalkBelow(names[1..], p);
      assert WalkBelow(names, p) == [names[0]] + t;
      assert names[..|t| + 1] == [names[0]] + names[1..][..|t|];
    }
  }
}
