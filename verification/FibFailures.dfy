/** Inputs on which the FIB or an assertion goes wrong. */
module FibFailures {
  import opened Names
  import opened Options
  import opened RibModel
  import opened EffectiveNextHops
  import opened FibDelta
  import opened FibCompute
  import opened FibRefinement
  import opened FibSteps
  import opened FibCommands
  import opened FibTheorem
  import opened FibSecondRoute

  const ROOT: Name := []
  const A: Name := [[97]]
  const AB: Name := [[97], [98]]
  const FROM_ROOT := Route(1, 0, 1, 10)
  const CAPTURING := Route(2, 0, 2, 20)

  lemma ParentIs(keys: set<Name>, c: Name, p: Name)
    requires p in keys && p < c && forall q :: q in keys && q < c ==> q <= p
    ensures FindParent(keys, c) == Some(p)
  {
    var found := FindParent(keys, c).value;
    assert p <= found && found <= p;
    PrefixAntisymmetric(p, found);
  }

  lemma NoParent(keys: set<Name>, c: Name)
    requires forall q :: q in keys ==> !(q < c)
    ensures FindParent(keys, c) == None
  {
  }

  lemma NamesNest()
    ensures ROOT < A && A < AB && ROOT < AB && !(A < ROOT) && !(AB < A) && !(AB < ROOT)
  {
  }

  lemma TwoParents(keys: set<Name>)
    requires keys == {ROOT, A}
    ensures FindParent(keys, ROOT) == None && FindParent(keys, A) == Some(ROOT)
  {
    NamesNest();
    NoParent(keys, ROOT);
    ParentIs(keys, A, ROOT);
  }

  /** "/a" hangs below "/". */
  ghost predicate TwoNested(t: Table) {
    && t.Keys == {ROOT, A} && t[ROOT].parent == None && t[ROOT].children == [A]
    && t[A].parent == Some(ROOT) && t[A].children == []
  }

  lemma TwoLinks(t: Table, n: Name)
    requires TwoNested(t) && n in t
    ensures LinksOk(t, n)
  {
    TwoParents(t.Keys);
    if n == ROOT {
      assert NoDuplicates([A]);
    } else {
      assert n == A;
    }
  }

  lemma TwoShape(t: Table)
    requires TwoNested(t)
    ensures Shape(t)
  {
    forall n | n in t
      ensures LinksOk(t, n)
    {
      TwoLinks(t, n);
    }
  }

  // ----- erasing a capturing route -----

  function FailingState(): State {
    State(map[ROOT := EntryView(None, [A], [FROM_ROOT], [], 0),
              A := EntryView(Some(ROOT), [], [CAPTURING], [], 1)],
          map[(ROOT, 1) := 10, (A, 2) := 20],
          {})
  }

  lemma FailingShape()
    ensures Shape(FailingState().table)
  {
    TwoShape(FailingState().table);
  }

  lemma FailingRoutes()
    ensures var m := RoutesOf(FailingState().table);
            m.Keys == {ROOT, A} && m[ROOT] == [FROM_ROOT] && m[A] == [CAPTURING]
  {
  }

  lemma FailingEffective(m: RouteMap, n: Name, face: nat)
    requires m.Keys == {ROOT, A} && m[ROOT] == [FROM_ROOT] && m[A] == [CAPTURING]
    ensures Effective(m, n, face) == if n == ROOT && face == 1 then Some(10) else if n == A && face == 2 then Some(20)
                else None
    ensures !Inherits(m, n, face)
  {
    if n == ROOT {
      EffectiveOne(m, n, FROM_ROOT, face);
      OneRoute([FROM_ROOT], face);
    } else if n == A {
      EffectiveOne(m, n, CAPTURING, face);
      OneRoute([CAPTURING], face);
    }
  }

  lemma FailingFib(n: Name, face: nat)
    ensures FibAt(FailingState().fib, n, face)
            == if n == ROOT && face == 1 then Some(10) else if n == A && face == 2 then Some(20) else None
  {
  }

  lemma FailingStatePoint(n: Name, face: nat)
    ensures var s := FailingState();
            FibAt(s.fib, n, face) == Effective(RoutesOf(s.table), n, face) && !Inherits(RoutesOf(s.table), n, face)
  {
    FailingRoutes();
    FailingEffective(RoutesOf(FailingState().table), n, face);
    FailingFib(n, face);
  }

  lemma FailingStateAncestor()
    ensures Ancestor(RoutesOf(FailingState().table), A, 1) == Some(FROM_ROOT)
  {
    var m := RoutesOf(FailingState().table);
    assert m[ROOT] == [FROM_ROOT];
    OneRoute([FROM_ROOT], 1);
    assert A[..0] == ROOT;
    assert InheritedRoute(m, A, 1, 1) == Some(FROM_ROOT);
  }

  lemma FailingStateInv()
    ensures Inv(FailingState())
    ensures Ancestor(RoutesOf(FailingState().table), A, 1) == Some(FROM_ROOT)
  {
    var s := FailingState();
    CountOne(s.table);
    FailingShape();
    forall n, f
      ensures FibAt(s.fib, n, f) == Effective(RoutesOf(s.table), n, f) && !Inherits(RoutesOf(s.table), n, f)
    {
      FailingStatePoint(n, f);
    }
    FailingStateAncestor();
    assert FibMatches(s);
    assert RecordsOk(s.table) by {
      forall d, f | d in s.table
        ensures !s.table[d].HasInherited(f)
      {
      }
    }
  }

  /** What the unregistration of "/a" leaves in the RIB. */
  function ErasedTable(): Table {
    map[ROOT := EntryView(None, [], [FROM_ROOT], [], 0)]
  }

  lemma ErasedIs()
    ensures Mutated(FailingState().table, RibUpdate(UNREGISTER, A, CAPTURING), ErasedTable())
  {
    var t1 := ErasedTable();
    NoParent(t1.Keys, ROOT);
    assert LinksOk(t1, ROOT);
  }

  /** "/" offers face 1 to its children and "/a" captures. Unregistering "/a" would restore face 1
      to "/a" itself: the RIB then looks for the erased entry and its assertion fails. */
  lemma ErasingCaptureFails()
    ensures var t, u := FailingState().table, RibUpdate(UNREGISTER, A, CAPTURING);
            && Inv(FailingState()) && Mutated(t, u, ErasedTable())
            && !AllApplicable(ErasedTable(), Records(UnregistrationLog(t, u)))
  {
    FailingStateInv();
    var t := FailingState().table;
    var u := RibUpdate(UNREGISTER, A, CAPTURING);
    CountOne(t);
    EraseLog(t, u);
    EraseAtSelf(t, A, 1);
    var a := Event(A, FROM_ROOT, true, true);
    assert EventsAt(EraseParts(t, A), A, 1) == [a] by {
      assert [] + ([a] + []) == [a];
    }
    RecordedMember([a], 0);
    ErasedIs();
    RecordOutside(ErasedTable(), UnregistrationLog(t, u), A, 1);
  }

  // ----- a second route -----

  const FROM_A := Route(1, 0, 1, 15)
  const AT_AB := Route(3, 0, 0, 30)

  /** "/" and "/a" offer face 1, and "/a/b" takes it from "/a". */
  function OfferingState(): State {
    State(map[ROOT := EntryView(None, [A], [FROM_ROOT], [], 0),
              A := EntryView(Some(ROOT), [AB], [FROM_A], [], 0),
              AB := EntryView(Some(A), [], [AT_AB], [FROM_A], 0)],
          map[(ROOT, 1) := 10, (A, 1) := 15, (AB, 1) := 15, (AB, 3) := 30],
          {})
  }

  lemma ThreeParents(keys: set<Name>)
    requires keys == {ROOT, A, AB}
    ensures FindParent(keys, ROOT) == None && FindParent(keys, A) == Some(ROOT) && FindParent(keys, AB) == Some(A)
  {
    NamesNest();
    NoParent(keys, ROOT);
    ParentIs(keys, A, ROOT);
    ParentIs(keys, AB, A);
  }

  ghost predicate ThreeNested(t: Table) {
    && t.Keys == {ROOT, A, AB} && t[ROOT].parent == None && t[ROOT].children == [A]
    && t[A].parent == Some(ROOT) && t[A].children == [AB] && t[AB].parent == Some(A) && t[AB].children == []
  }

  lemma ThreeLinks(t: Table, n: Name)
    requires ThreeNested(t) && n in t
    ensures LinksOk(t, n)
  {
    ThreeParents(t.Keys);
    if n == ROOT {
      assert NoDuplicates([A]);
    } else if n == A {
      assert NoDuplicates([AB]);
    } else {
      assert n == AB;
    }
  }

  lemma ThreeShape(t: Table)
    requires ThreeNested(t)
    ensures Shape(t)
  {
    forall n | n in t
      ensures LinksOk(t, n)
    {
      ThreeLinks(t, n);
    }
  }

  lemma OfferingShape()
    ensures Shape(OfferingState().table)
  {
    ThreeShape(OfferingState().table);
  }

  lemma OfferingRoutes()
    ensures Three(RoutesOf(OfferingState().table))
  {
  }

  ghost predicate Three(m: RouteMap) {
    m.Keys == {ROOT, A, AB} && m[ROOT] == [FROM_ROOT] && m[A] == [FROM_A] && m[AB] == [AT_AB]
  }

  lemma OfferingAncestors(m: RouteMap, face: nat)
    requires Three(m)
    ensures Ancestor(m, ROOT, face) == None
    ensures Ancestor(m, A, face) == if face == 1 then Some(FROM_ROOT) else None
    ensures Ancestor(m, AB, face) == if face == 1 then Some(FROM_A) else None
  {
    OneRoute([FROM_ROOT], face);
    OneRoute([FROM_A], face);
    assert A[..0] == ROOT && AB[..0] == ROOT && AB[..1] == A;
    assert InheritedRoute(m, A, 1, face) == if face == 1 then Some(FROM_ROOT) else None;
    assert InheritedRoute(m, AB, 1, face) == if face == 1 then Some(FROM_ROOT) else None;
  }

  lemma OfferingEffective(m: RouteMap, n: Name, face: nat)
    requires Three(m)
    ensures Effective(m, n, face) == if n == ROOT && face == 1 then Some(10)
                                     else if (n == A || n == AB) && face == 1 then Some(15)
                                     else if n == AB && face == 3 then Some(30) else None
  {
    OfferingAncestors(m, face);
    if n == ROOT {
      EffectiveOne(m, n, FROM_ROOT, face);
    } else if n == A {
      EffectiveOne(m, n, FROM_A, face);
    } else if n == AB {
      EffectiveOne(m, n, AT_AB, face);
    }
  }

  lemma OfferingFib(n: Name, face: nat)
    ensures FibAt(OfferingState().fib, n, face)
            == if n == ROOT && face == 1 then Some(10)
               else if (n == A || n == AB) && face == 1 then Some(15)
               else if n == AB && face == 3 then Some(30) else None
  {
  }

  lemma OfferingRecords(d: Name, face: nat)
    requires d in OfferingState().table
    ensures var t := OfferingState().table;
            && (t[d].HasInherited(face) <==> d == AB && face == 1)
            && (HasFace(t[d].routes, face) <==> face == if d == AB then 3 else 1)
  {
    var t := OfferingState().table;
    assert d == ROOT || d == A || d == AB;
    OneRoute(t[d].routes, face);
    assert t[AB].inherited[0].faceId == 1;
  }

  lemma OfferingInv()
    ensures Inv(OfferingState())
  {
    var s := OfferingState();
    OfferingShape();
    OfferingRoutes();
    CountOne(s.table);
    forall n, f
      ensures FibAt(s.fib, n, f) == Effective(RoutesOf(s.table), n, f)
    {
      OfferingEffective(RoutesOf(s.table), n, f);
      OfferingFib(n, f);
    }
    forall d, f | d in s.table
      ensures Inherits(RoutesOf(s.table), d, f) ==> s.table[d].HasInherited(f)
      ensures s.table[d].HasInherited(f) ==> !HasFace(s.table[d].routes, f)
    {
      OfferingEffective(RoutesOf(s.table), d, f);
      OfferingRecords(d, f);
    }
  }

  lemma OfferingTakes()
    ensures Takes(OfferingState().table, A, AB, 1)
  {
    var t := OfferingState().table;
    assert AB[..2] == AB && A < AB;
    OneRoute([AT_AB], 1);
  }

  /** A second route on "/a" that captures, on another face: "/a/b" loses face 1 from the FIB, which
      "/a" still offers. */
  lemma SecondRouteBreaks()
    ensures var s, u := OfferingState(), RibUpdate(REGISTER, A, CAPTURING);
            var t1 := s.table[A := WithRoute(s.table[A], CAPTURING)];
            && Inv(s) && OrderOf(s.table, [ROOT, A, AB]) && Mutated(s.table, u, t1) && Defined(s.table, u)
            && AllApplicable(t1, Records(ComputeLog(s.table, [ROOT, A, AB], u)))
            && !FibMatches(Next(s, ComputeLog(s.table, [ROOT, A, AB], u), u, t1))
  {
    var s, u := OfferingState(), RibUpdate(REGISTER, A, CAPTURING);
    OfferingInv();
    OfferingTakes();
    OfferingRoutes();
    OfferingAncestors(RoutesOf(s.table), 1);
    assert SecondMisleads(s.table, A, CAPTURING, false);
    SecondRouteExact(s, [ROOT, A, AB], u, s.table[A := WithRoute(s.table[A], CAPTURING)], false);
  }

  // ----- a capture count left behind -----

  const PLAIN := Route(2, 0, 0, 20)

  /** One successful batch takes the state to `s'`. */
  ghost predicate Becomes(s: State, order: seq<Name>, u: RibUpdate, t1: Table, s': State) {
    && Shape(s.table) && OrderOf(s.table, order) && Defined(s.table, u) && Mutated(s.table, u, t1)
    && AllApplicable(t1, Records(ComputeLog(s.table, order, u)))
    && s' == Next(s, ComputeLog(s.table, order, u), u, t1)
  }

  /** "/a" with one route, whose recorded number of capturing routes is zero. */
  function AloneState(r: Route): State {
    State(map[A := EntryView(None, [], [r], [], 0)], map[(A, 2) := 20], {})
  }

  lemma OneShape(t: Table)
    requires t.Keys == {A} && t[A].parent == None && t[A].children == []
    ensures Shape(t) && FindParent(t.Keys, A) == None && FindParent(t.Keys, ROOT) == None
  {
    NamesNest();
    NoParent(t.Keys, A);
    NoParent(t.Keys, ROOT);
    assert LinksOk(t, A);
  }

  lemma AloneShape(r: Route)
    ensures Shape(AloneState(r).table) && FindParent(AloneState(r).table.Keys, A) == None
    ensures FindParent(AloneState(r).table.Keys, ROOT) == None
  {
    OneShape(AloneState(r).table);
  }

  lemma FirstLog()
    ensures var u := RibUpdate(REGISTER, A, PLAIN);
            Shape(map[]) && OrderOf(map[], []) && Defined(map[], u)
                && ComputeLog(map[], [], u) == [Event(A, PLAIN, true, false)]
  {
    var t: Table := map[];
    NoParent(t.Keys, A);
    assert AddInheritedIgnoring(A, AncestorRoutes(t, None), PLAIN.faceId) == [];
  }

  lemma FirstStep()
    ensures Becomes(State(map[], map[], {}), [], RibUpdate(REGISTER, A, PLAIN), AloneState(PLAIN).table,
                    AloneState(PLAIN))
  {
    FirstLog();
    FirstInserted();
    FirstNext();
  }

  lemma FirstInserted()
    ensures Mutated(map[], RibUpdate(REGISTER, A, PLAIN), AloneState(PLAIN).table)
  {
    AloneShape(PLAIN);
  }

  lemma FirstNext()
    ensures var log, u, t1 := [Event(A, PLAIN, true, false)], RibUpdate(REGISTER, A, PLAIN), AloneState(PLAIN).table;
            AllApplicable(t1, Records(log)) && AloneState(PLAIN) == Next(State(map[], map[], {}), log, u, t1)
  {
    var fib: Fib := map[];
    OneEvent(Event(A, PLAIN, true, false), RibUpdate(REGISTER, A, PLAIN), fib);
    assert map[(A, 2) := 20] == fib[(A, 2) := 20];
  }

  lemma OneEvent(ev: Event, u: RibUpdate, fib: Fib)
    requires !ev.recorded && ev.add && ev.route.faceId == u.route.faceId && u.action == REGISTER
    ensures Records([ev]) == []
    ensures FibAfter(fib, [ev], u) == fib[(ev.name, ev.route.faceId) := ev.route.cost]
  {
    var log := [ev];
    assert log[1..] == [] && log[..|log| - 1] == [] && log[|log| - 1] == ev;
    assert Pending([], u.route.faceId, true) == [] && Pending([], u.route.faceId, false) == [];
    assert Pending(log, u.route.faceId, true) == [ToFibUpdate(ev)];
    assert Pending(log, u.route.faceId, false) == [];
    var list := [ToFibUpdate(ev)];
    assert list[1..] == [];
    assert ApplyUpdates(fib, list) == ApplyUpdate(fib, list[0]);
    assert Records(log[1..]) == [];
  }

  lemma SecondLog(t: Table, e: EntryView)
    requires t == AloneState(PLAIN).table && e == AloneState(CAPTURING).table[A]
    ensures Shape(t) && HasFace(e.routes, 2) && UpdateDefined(e.routes, CAPTURING, PLAIN)
    ensures UpdatedRouteLog(t, A, e, CAPTURING, PLAIN) == []
  {
    AloneShape(PLAIN);
    CostPart(A, e, CAPTURING, PLAIN);
    assert InheritChangeLog(t, A, e, CAPTURING, PLAIN) == [];
    assert CaptureChangeLog(t, A, e, CAPTURING, PLAIN) == [];
  }

  lemma SecondCompute()
    ensures var t, u := AloneState(PLAIN).table, RibUpdate(REGISTER, A, CAPTURING);
            Shape(t) && OrderOf(t, [A]) && Defined(t, u) && ComputeLog(t, [A], u) == []
  {
    var t := AloneState(PLAIN).table;
    assert FindRoute([PLAIN], CAPTURING) == 0;
    assert WithUpdatedRoute(t[A], 0, CAPTURING) == AloneState(CAPTURING).table[A];
    SecondLog(t, AloneState(CAPTURING).table[A]);
  }

  /** The re-registration with the capture flag logs nothing and leaves the count at zero. */
  lemma SecondStep()
    ensures Becomes(AloneState(PLAIN), [A], RibUpdate(REGISTER, A, CAPTURING), AloneState(CAPTURING).table,
                    AloneState(CAPTURING))
  {
    SecondCompute();
    SecondMutated();
    NothingSent(AloneState(PLAIN).fib, RibUpdate(REGISTER, A, CAPTURING), AloneState(CAPTURING).table);
  }

  lemma SecondMutated()
    ensures Mutated(AloneState(PLAIN).table, RibUpdate(REGISTER, A, CAPTURING), AloneState(CAPTURING).table)
  {
    var t := AloneState(PLAIN).table;
    assert FindRoute([PLAIN], CAPTURING) == 0;
    assert WithUpdatedRoute(t[A], 0, CAPTURING) == AloneState(CAPTURING).table[A];
    assert AloneState(CAPTURING).table == t[A := WithUpdatedRoute(t[A], 0, CAPTURING)];
  }

  lemma NothingSent(fib: Fib, u: RibUpdate, t: Table)
    ensures FibAfter(fib, [], u) == fib && Records([]) == []
    ensures AllApplicable(t, []) && ModifyInherited(t, []) == t
  {
  }

  /** The table once "/" has been registered above it. */
  function BelowRoot(): Table {
    map[ROOT := EntryView(None, [A], [FROM_ROOT], [], 0), A := EntryView(Some(ROOT), [], [CAPTURING], [], 0)]
  }

  lemma BelowRootShape()
    ensures Shape(BelowRoot())
  {
    TwoShape(BelowRoot());
  }

  /** Everything the third registration logs. */
  lemma ThirdAt(d: Name, face: nat)
    ensures forall c :: c in [A] ==> c in AloneState(CAPTURING).table && ROOT < c
    ensures EventsAt(NewEntryLog(AloneState(CAPTURING).table, ROOT, FROM_ROOT, [A]), d, face)
            == if d == ROOT then if face == 1 then [Event(ROOT, FROM_ROOT, true, false)] else []
               else if ROOT < d then ReachedAt(AloneState(CAPTURING).table, 1, d, face, [FROM_ROOT], [])
               else []
  {
    var t := AloneState(CAPTURING).table;
    AloneShape(CAPTURING);
    assert Frontier(t, ROOT, [A]) by {
      assert IsTopBelow(t, ROOT, A);
    }
    assert NewAdd(t, ROOT, FROM_ROOT) == [FROM_ROOT] && NewRemove(t, ROOT, FROM_ROOT) == [];
    NewEntryParts(t, ROOT, FROM_ROOT, [A]);
    var below := NewBelow(t, ROOT, FROM_ROOT, [A]);
    assert NewInherit(t, ROOT, FROM_ROOT) + below == below;
    ChildrenAt(t, ROOT, [A], [FROM_ROOT], [], d, face);
    SelfThenBelow(ROOT, FROM_ROOT, true, below, d, face);
  }

  lemma ThirdReaches()
    ensures ReachedAt(AloneState(CAPTURING).table, 1, A, 1, [FROM_ROOT], []) == [Event(A, FROM_ROOT, true, true)]
  {
    var t := AloneState(CAPTURING).table;
    assert A[..1] == A;
    OneRoute([CAPTURING], 1);
    assert Open(t, 1, A, 1);
  }

  /** What the first two steps leave: the FIB is right, the count is not. */
  lemma StaleCount()
    ensures FibMatches(AloneState(PLAIN)) && FibMatches(AloneState(CAPTURING))
    ensures !CountsExact(AloneState(CAPTURING).table)
  {
    AloneRight(PLAIN);
    AloneRight(CAPTURING);
    CountOne(AloneState(CAPTURING).table);
    assert AloneState(CAPTURING).table[A].routes[0] == CAPTURING;
  }

  lemma AloneRight(r: Route)
    requires r == PLAIN || r == CAPTURING
    ensures FibMatches(AloneState(r))
  {
    var s := AloneState(r);
    forall n, f {:trigger FibAt(s.fib, n, f)}
      ensures FibAt(s.fib, n, f) == Effective(RoutesOf(s.table), n, f)
    {
      AloneEffective(RoutesOf(s.table), r, n, f);
    }
  }

  lemma AloneEffective(m: RouteMap, r: Route, n: Name, face: nat)
    requires m.Keys == {A} && m[A] == [r] && (r == PLAIN || r == CAPTURING)
    ensures Effective(m, n, face) == if n == A && face == 2 then Some(20) else None
  {
    if n == A {
      assert A[..0] !in m && InheritedRoute(m, A, 0, face) == None;
      assert InheritedRoute(m, A, 1, face) == None;
      EffectiveOne(m, A, r, face);
    }
  }

  /** "/a" is registered and then registered again as capturing; the FIB is right after both. When
      "/" is registered offering face 1, the walk does not see that "/a" captures: the FIB gets
      face 1 at "/a". */
  lemma StaleCountBreaks()
    ensures var s0, s1, s2 := State(map[], map[], {}), AloneState(PLAIN), AloneState(CAPTURING);
            var u3 := RibUpdate(REGISTER, ROOT, FROM_ROOT);
            && Becomes(s0, [], RibUpdate(REGISTER, A, PLAIN), s1.table, s1) && FibMatches(s1)
            && Becomes(s1, [A], RibUpdate(REGISTER, A, CAPTURING), s2.table, s2) && FibMatches(s2)
            && !CountsExact(s2.table)
            && exists s3 :: Becomes(s2, [A], u3, BelowRoot(), s3) && !FibMatches(s3)
  {
    FirstStep();
    SecondStep();
    StaleCount();
    ThirdStep();
  }

  lemma ThirdLog()
    ensures var s, u := AloneState(CAPTURING), RibUpdate(REGISTER, ROOT, FROM_ROOT);
            && Shape(s.table) && OrderOf(s.table, [A]) && Defined(s.table, u) && Mutated(s.table, u, BelowRoot())
            && (forall c :: c in [A] ==> c in s.table && ROOT < c)
            && ComputeLog(s.table, [A], u) == NewEntryLog(s.table, ROOT, FROM_ROOT, [A])
  {
    var s := AloneState(CAPTURING);
    AloneShape(CAPTURING);
    BelowRootShape();
    assert [A][1..] == [];
    assert PredictedChildren(s.table, [A], ROOT) == [A];
    assert BelowRoot().Keys == s.table.Keys + {ROOT};
  }

  lemma ThirdStep()
    ensures var s2, u3 := AloneState(CAPTURING), RibUpdate(REGISTER, ROOT, FROM_ROOT);
            exists s3 :: Becomes(s2, [A], u3, BelowRoot(), s3) && !FibMatches(s3)
  {
    var s, u, t1 := AloneState(CAPTURING), RibUpdate(REGISTER, ROOT, FROM_ROOT), BelowRoot();
    ThirdLog();
    var log := ComputeLog(s.table, [A], u);
    forall d, f
      ensures Pattern(t1, d, f, Recorded(EventsAt(log, d, f)))
    {
      ThirdAt(d, f);
      if d == ROOT {
        RecordedShort(EventsAt(log, d, f));
      } else {
        ReachedPattern(s.table, t1, 1, d, f, [FROM_ROOT], []);
      }
    }
    RecordsApply(t1, log);
    ThirdAt(A, 1);
    ThirdReaches();
    ThirdWrong(s, u, t1, log);
    assert Becomes(s, [A], u, t1, Next(s, log, u, t1));
  }

  lemma ThirdWrong(s: State, u: RibUpdate, t1: Table, log: seq<Event>)
    requires s == AloneState(CAPTURING) && u == RibUpdate(REGISTER, ROOT, FROM_ROOT) && t1 == BelowRoot()
    requires AllApplicable(t1, Records(log)) && EventsAt(log, A, 1) == [Event(A, FROM_ROOT, true, true)]
    ensures !FibMatches(Next(s, log, u, t1))
  {
    FibAfterLog(s.fib, log, u, A, 1);
    SameRoutes(t1, Records(log));
    NothingEffective();
  }

  lemma NothingEffective()
    ensures Effective(RoutesOf(BelowRoot()), A, 1) == None
  {
    assert RoutesOf(BelowRoot())[A] == [CAPTURING];
    OneRoute([CAPTURING], 1);
  }
}
