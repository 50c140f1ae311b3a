/** The incremental FIB against the effective next hops: one command, exactly when it keeps
    them equal, and whole runs. The domain is one route per name. */
module FibRefinement {
  import opened Names
  import opened Options
  import opened RibModel
  import opened EffectiveNextHops
  import opened FibDelta
  import opened FibCompute

  // ----- logs at one name and face -----

  function Recorded(evs: seq<Event>): seq<Event> {
    if evs == [] then [] else (if evs[0].recorded then [evs[0]] else []) + Recorded(evs[1..])
  }

  lemma RecordedShort(evs: seq<Event>)
    ensures evs == [] ==> Recorded(evs) == []
    ensures |evs| == 1 ==> Recorded(evs) == if evs[0].recorded then evs else []
  {
    if |evs| == 1 {
      assert evs[1..] == [];
    }
  }

  lemma {:induction false} IgnoringAt(n: Name, s: RouteSet, ignore: nat, d: Name, face: nat)
    requires ByFace(s)
    ensures EventsAt(AddInheritedIgnoring(n, s, ignore), d, face)
            == if d == n && face != ignore && Lookup(s, face).Some?
               then [Event(n, Lookup(s, face).value, true, true)] else []
  {
    if s != [] {
      HeadIsLowest(s);
      IgnoringAt(n, s[1..], ignore, d, face);
      var rest := AddInheritedIgnoring(n, s[1..], ignore);
      if s[0].faceId != ignore {
        assert ([Event(n, s[0], true, true)] + rest)[1..] == rest;
      } else {
        assert AddInheritedIgnoring(n, s, ignore) == rest;
      }
    }
  }

  lemma {:induction false} AddInheritedAt(n: Name, e: EntryView, s: RouteSet, d: Name, face: nat)
    requires ByFace(s)
    ensures EventsAt(AddInheritedLog(n, e, s), d, face)
            == if d == n && !HasFace(e.routes, face) && Lookup(s, face).Some?
               then [Event(n, Lookup(s, face).value, true, true)] else []
  {
    if s != [] {
      HeadIsLowest(s);
      AddInheritedAt(n, e, s[1..], d, face);
      var rest := AddInheritedLog(n, e, s[1..]);
      if !HasFace(e.routes, s[0].faceId) {
        assert ([Event(n, s[0], true, true)] + rest)[1..] == rest;
      } else {
        assert AddInheritedLog(n, e, s) == rest;
      }
    }
  }

  lemma {:induction false} RemoveInheritedAt(n: Name, e: EntryView, s: RouteSet, d: Name, face: nat)
    requires ByFace(s)
    ensures EventsAt(RemoveInheritedLog(n, e, s), d, face)
            == if d == n && e.HasInherited(face) && Lookup(s, face).Some?
               then [Event(n, Lookup(s, face).value, false, true)] else []
  {
    if s != [] {
      HeadIsLowest(s);
      RemoveInheritedAt(n, e, s[1..], d, face);
      var rest := RemoveInheritedLog(n, e, s[1..]);
      if e.HasInherited(s[0].faceId) {
        assert ([Event(n, s[0], false, true)] + rest)[1..] == rest;
      } else {
        assert RemoveInheritedLog(n, e, s) == rest;
      }
    }
  }

  lemma {:induction false} ErasedEntryAt(n: Name, inherited: seq<Route>, d: Name, face: nat)
    ensures var evs := EventsAt(ErasedEntryLog(n, inherited), d, face);
            && (evs == [] <==> !(d == n && HasFace(inherited, face)))
            && Recorded(evs) == []
            && (forall i :: 0 <= i < |evs| ==> !evs[i].add)
  {
    if inherited != [] {
      ErasedEntryAt(n, inherited[1..], d, face);
      var rest := ErasedEntryLog(n, inherited[1..]);
      assert ErasedEntryLog(n, inherited)[1..] == rest;
      assert HasFace(inherited, face) <==> inherited[0].faceId == face || HasFace(inherited[1..], face) by {
        if HasFace(inherited, face) && inherited[0].faceId != face {
          var i :| 0 <= i < |inherited| && inherited[i].faceId == face;
          assert inherited[1..][i - 1].faceId == face;
        }
        if HasFace(inherited[1..], face) {
          var i :| 0 <= i < |inherited[1..]| && inherited[1..][i].faceId == face;
          assert inherited[i + 1].faceId == face;
        }
      }
      var evs := EventsAt(rest, d, face);
      if d == n && inherited[0].faceId == face {
        assert ([Event(n, inherited[0], false, false)] + evs)[1..] == evs;
        assert EventsAt(ErasedEntryLog(n, inherited), d, face) == [Event(n, inherited[0], false, false)] + evs;
      } else {
        assert EventsAt(ErasedEntryLog(n, inherited), d, face) == evs;
      }
    }
  }

  /** What the children's walks log, wherever the list of children is the frontier. */
  lemma ChildrenAt(t: Table, n: Name, names: seq<Name>, add: RouteSet, rem: RouteSet, d: Name, face: nat)
    requires Shape(t) && Frontier(t, n, names) && ByFace(add) && ByFace(rem)
    ensures forall c :: c in names ==> c in t && n < c
    ensures EventsAt(ChildrenLog(t, n, names, add, rem), d, face)
            == if n < d then ReachedAt(t, |n| + 1, d, face, add, rem) else []
  {
    WalkListExact(t, BoundOf(t), n, names, add, rem, d, face);
  }

  // ----- the state and its invariant -----

  datatype State = State(table: Table, fib: Fib, dead: set<nat>)

  ghost predicate Single(t: Table) {
    forall n :: n in t ==> |t[n].routes| == 1
  }

  ghost predicate Inherits(m: RouteMap, d: Name, face: nat) {
    d in m && Effective(m, d, face).Some? && !HasFace(m[d], face)
  }

  /** The recorded inherited faces include the really inherited ones and no direct one. */
  ghost predicate RecordsOk(t: Table) {
    forall d, f {:trigger t[d].HasInherited(f)} {:trigger Inherits(RoutesOf(t), d, f)} :: d in t ==>
      && (Inherits(RoutesOf(t), d, f) ==> t[d].HasInherited(f))
      && (t[d].HasInherited(f) ==> !HasFace(t[d].routes, f))
  }

  /** The FIB holds the effective next hops of the RIB, on every face not destroyed. */
  ghost predicate FibMatches(s: State) {
    forall n, f {:trigger FibAt(s.fib, n, f)} :: f !in s.dead ==>
      FibAt(s.fib, n, f) == Effective(RoutesOf(s.table), n, f)
  }

  /** m_nRoutesWithCaptureSet counts the capturing routes. */
  ghost predicate CountsExact(t: Table) {
    forall n :: n in t ==> t[n].nCapture == CountCapturing(t[n].routes)
  }

  lemma CountOne(t: Table)
    requires Single(t)
    ensures CountsExact(t) <==> forall n :: n in t ==> t[n].nCapture == if t[n].routes[0].IsCapture() then 1 else 0
    ensures CountsExact(t) ==> CountsOk(t)
  {
    forall n | n in t
      ensures CountCapturing(t[n].routes) == if t[n].routes[0].IsCapture() then 1 else 0
      ensures Captures(t[n].routes) <==> t[n].routes[0].IsCapture()
    {
      assert t[n].routes[1..] == [];
    }
  }

  /** The tree, the records and the FIB are right. */
  ghost predicate Right(s: State) {
    Shape(s.table) && Single(s.table) && RecordsOk(s.table) && FibMatches(s)
  }

  ghost predicate Inv(s: State) {
    Right(s) && CountsExact(s.table)
  }

  lemma EmptyInv()
    ensures Inv(State(map[], map[], {}))
  {
    var s := State(map[], map[], {});
    assert RoutesOf(s.table) == map[];
    forall n, f {:trigger FibAt(s.fib, n, f)}
      ensures FibAt(s.fib, n, f) == Effective(RoutesOf(s.table), n, f)
    {
    }
  }

  /** The table after insert or erase, before the inherited-route records are applied. */
  ghost predicate Mutated(t: Table, u: RibUpdate, t': Table) {
    if u.action == REGISTER then Inserted(t, u.name, u.route, t') else Erased(t, u.name, u.route, t')
  }

  /** Commands that keep one route per name, on faces that exist: a registration at an existing
      name is a re-registration of its route. */
  ghost predicate SingleRouteCommand(s: State, u: RibUpdate) {
    && (u.action != REMOVE_FACE ==> u.route.faceId !in s.dead)
    && (u.action == REGISTER && u.name in s.table && s.table[u.name].routes != [] ==>
          Matches(s.table[u.name].routes[0], u.route))
  }

  function Next(s: State, log: seq<Event>, u: RibUpdate, t1: Table): State
    requires AllApplicable(t1, Records(log))
  {
    State(ModifyInherited(t1, Records(log)), FibAfter(s.fib, log, u),
          if u.action == REMOVE_FACE then s.dead + {u.route.faceId} else s.dead)
  }

  // ----- the records -----

  /** Changes to one recorded face of an entry that pass the assertions: a removal finds the face
      recorded beforehand (`has`), or appended by the change before it. */
  ghost predicate Fits(has: bool, q: seq<Event>)
    decreases |q|
  {
    q == [] || (if q[0].add then Fits(true, q[1..]) else has && Fits(false, q[1..]))
  }

  lemma {:induction false} FitsMore(q: seq<Event>)
    requires Fits(false, q)
    ensures Fits(true, q)
  {
  }

  /** Short lists, position by position. */
  lemma {:induction false} FitsShort(has: bool, q: seq<Event>)
    ensures |q| == 1 ==> (Fits(has, q) <==> q[0].add || has)
    ensures |q| == 2 ==> (Fits(has, q) <==> (q[0].add || has) && (q[1].add || q[0].add))
    ensures |q| == 3 ==> (Fits(has, q) <==> (q[0].add || has) && (q[1].add || q[0].add) && (q[2].add || q[1].add))
    decreases |q|
  {
    if |q| > 1 {
      FitsShort(true, q[1..]);
      FitsShort(false, q[1..]);
    }
  }

  /** The records a log may leave at one name and face of the table. */
  ghost predicate Pattern(t: Table, d: Name, face: nat, q: seq<Event>) {
    (q != [] ==> d in t) && Fits(d in t && t[d].HasInherited(face), q)
  }

  ghost predicate AllPatterns(t: Table, log: seq<Event>) {
    forall d, f {:trigger EventsAt(log, d, f)} :: Pattern(t, d, f, Recorded(EventsAt(log, d, f)))
  }

  lemma ChangeAt(e: EntryView, rec: RibUpdate, face: nat)
    requires rec.action == REGISTER || (rec.action == UNREGISTER && e.HasInherited(rec.route.faceId))
    ensures var e' := ChangeInherited(e, rec);
            && e' == e.(inherited := e'.inherited)
            && (rec.route.faceId != face ==> e'.HasInherited(face) == e.HasInherited(face))
            && (rec.action == REGISTER && rec.route.faceId == face ==> e'.HasInherited(face))
            && (rec.action == UNREGISTER && e'.HasInherited(face) ==> e.HasInherited(face))
  {
    var e' := ChangeInherited(e, rec);
    if rec.action == REGISTER {
      assert e'.inherited[|e.inherited|] == rec.route;
      if e.HasInherited(face) {
        var i :| 0 <= i < |e.inherited| && e.inherited[i].faceId == face;
        assert e'.inherited[i].faceId == face;
      }
    } else {
      var k := FindFace(e.inherited, rec.route.faceId);
      if e.HasInherited(face) && rec.route.faceId != face {
        var i :| 0 <= i < |e.inherited| && e.inherited[i].faceId == face;
        assert e'.inherited[if i < k then i else i - 1].faceId == face;
      }
      if e'.HasInherited(face) {
        var i :| 0 <= i < |e'.inherited| && e'.inherited[i].faceId == face;
        assert e.inherited[if i < k then i else i + 1].faceId == face;
      }
    }
  }

  ghost predicate SameButInherited(t: Table, t': Table) {
    t'.Keys == t.Keys && forall n :: n in t ==> t'[n] == t[n].(inherited := t'[n].inherited)
  }

  lemma {:induction false} ModifyKeeps(t: Table, recs: seq<RibUpdate>)
    requires AllApplicable(t, recs)
    ensures SameButInherited(t, ModifyInherited(t, recs))
    decreases |recs|
  {
    if recs != [] {
      ModifyKeeps(t[recs[0].name := ChangeInherited(t[recs[0].name], recs[0])], recs[1..]);
    }
  }

  function HeadRecord(log: seq<Event>): RibUpdate
    requires log != []
  {
    RibUpdate(if log[0].add then REGISTER else UNREGISTER, log[0].name, log[0].route)
  }

  predicate HeadFits(t: Table, log: seq<Event>)
    requires log != []
  {
    log[0].recorded ==> Applicable(t, HeadRecord(log))
  }

  /** The table after the first change of the log, if that is recorded. */
  function HeadDone(t: Table, log: seq<Event>): Table
    requires log != [] && HeadFits(t, log)
  {
    if log[0].recorded then t[log[0].name := ChangeInherited(t[log[0].name], HeadRecord(log))] else t
  }

  lemma RecordsHead(t: Table, log: seq<Event>)
    requires log != []
    ensures AllApplicable(t, Records(log)) <==> HeadFits(t, log) && AllApplicable(HeadDone(t, log), Records(log[1..]))
    ensures AllApplicable(t, Records(log)) ==>
              ModifyInherited(t, Records(log)) == ModifyInherited(HeadDone(t, log), Records(log[1..]))
  {
    var rest := Records(log[1..]);
    if log[0].recorded {
      assert Records(log) == [HeadRecord(log)] + rest;
      assert ([HeadRecord(log)] + rest)[1..] == rest;
    } else {
      assert Records(log) == rest;
    }
  }

  lemma RecordedHead(log: seq<Event>, d: Name, face: nat)
    requires log != []
    ensures Recorded(EventsAt(log, d, face))
            == (if log[0].recorded && log[0].name == d && log[0].route.faceId == face then [log[0]] else [])
               + Recorded(EventsAt(log[1..], d, face))
  {
    var rest := EventsAt(log[1..], d, face);
    if log[0].name == d && log[0].route.faceId == face {
      assert EventsAt(log, d, face)[1..] == rest;
    } else {
      assert EventsAt(log, d, face) == rest;
    }
  }

  lemma HeadApplicable(t: Table, log: seq<Event>)
    requires log != [] && AllPatterns(t, log)
    ensures HeadFits(t, log)
  {
    var d, f := log[0].name, log[0].route.faceId;
    RecordedHead(log, d, f);
    assert Pattern(t, d, f, Recorded(EventsAt(log, d, f)));
  }

  lemma PatternTail(t: Table, log: seq<Event>, d: Name, face: nat)
    requires log != [] && HeadFits(t, log) && Pattern(t, d, face, Recorded(EventsAt(log, d, face)))
    ensures Pattern(HeadDone(t, log), d, face, Recorded(EventsAt(log[1..], d, face)))
  {
    RecordedHead(log, d, face);
    var q, rest := Recorded(EventsAt(log, d, face)), Recorded(EventsAt(log[1..], d, face));
    if log[0].recorded {
      var rec := HeadRecord(log);
      ChangeAt(t[rec.name], rec, face);
      if log[0].name == d && log[0].route.faceId == face {
        assert q[1..] == rest;
        if !log[0].add {
          FitsMore(rest);
        }
      } else {
        assert q == rest;
      }
    } else {
      assert q == rest;
    }
  }

  /** A log of allowed patterns passes every assertion when its records are applied. */
  lemma {:induction false} RecordsApply(t: Table, log: seq<Event>)
    requires AllPatterns(t, log)
    ensures AllApplicable(t, Records(log))
    decreases |log|
  {
    if log != [] {
      HeadApplicable(t, log);
      forall d, f
        ensures Pattern(HeadDone(t, log), d, f, Recorded(EventsAt(log[1..], d, f)))
      {
        assert Pattern(t, d, f, Recorded(EventsAt(log, d, f)));
        PatternTail(t, log, d, f);
      }
      RecordsApply(HeadDone(t, log), log[1..]);
      RecordsHead(t, log);
    }
  }

  ghost predicate Adds(q: seq<Event>) {
    exists i :: 0 <= i < |q| && q[i].add
  }

  /** What the records do to the recorded faces at (d, face): nothing without a change, recorded
      after a last append, and never recorded anew without an append. */
  ghost predicate RecordEffect(t: Table, t': Table, d: Name, face: nat, q: seq<Event>) {
    d in t && d in t' ==>
      && (q == [] ==> t'[d].HasInherited(face) == t[d].HasInherited(face))
      && (q != [] && q[|q| - 1].add ==> t'[d].HasInherited(face))
      && (t'[d].HasInherited(face) ==> t[d].HasInherited(face) || Adds(q))
  }

  lemma EffectHead(t: Table, t2: Table, log: seq<Event>, d: Name, face: nat)
    requires log != [] && HeadFits(t, log)
    requires RecordEffect(HeadDone(t, log), t2, d, face, Recorded(EventsAt(log[1..], d, face)))
    ensures RecordEffect(t, t2, d, face, Recorded(EventsAt(log, d, face)))
  {
    RecordedHead(log, d, face);
    var q, rest := Recorded(EventsAt(log, d, face)), Recorded(EventsAt(log[1..], d, face));
    if log[0].recorded {
      var rec := HeadRecord(log);
      ChangeAt(t[rec.name], rec, face);
      if log[0].name == d && log[0].route.faceId == face {
        assert q == [log[0]] + rest;
        if Adds(rest) {
          var i :| 0 <= i < |rest| && rest[i].add;
          assert q[i + 1].add;
        }
        assert log[0].add ==> q[0].add;
      } else {
        assert q == rest;
      }
    } else {
      assert q == rest;
    }
  }

  lemma {:induction false} RecordsAt(t: Table, log: seq<Event>, d: Name, face: nat)
    requires AllApplicable(t, Records(log))
    ensures RecordEffect(t, ModifyInherited(t, Records(log)), d, face, Recorded(EventsAt(log, d, face)))
    decreases |log|
  {
    if log != [] {
      RecordsHead(t, log);
      RecordsAt(HeadDone(t, log), log[1..], d, face);
      EffectHead(t, ModifyInherited(t, Records(log)), log, d, face);
    }
  }

  lemma {:induction false} RecordOutside(t: Table, log: seq<Event>, d: Name, face: nat)
    requires d !in t && Recorded(EventsAt(log, d, face)) != []
    ensures !AllApplicable(t, Records(log))
    decreases |log|
  {
    RecordedHead(log, d, face);
    RecordsHead(t, log);
    if HeadFits(t, log) {
      RecordOutside(HeadDone(t, log), log[1..], d, face);
    }
  }

  // ----- one name and face across a step -----

  /** The FIB change reaches the new effective next hop, and the records pass the assertions. */
  ghost predicate PointFib(t: Table, t1: Table, log: seq<Event>, d: Name, face: nat) {
    var evs := EventsAt(log, d, face);
    && After(Effective(RoutesOf(t), d, face), evs) == Effective(RoutesOf(t1), d, face)
    && Pattern(t1, d, face, Recorded(evs))
  }

  /** The records stay a superset of the inherited faces and off the direct ones. */
  ghost predicate PointRecords(t1: Table, d: Name, face: nat, q: seq<Event>) {
    d in t1 ==>
      && (t1[d].HasInherited(face) || Adds(q) ==> !HasFace(t1[d].routes, face))
      && (q == [] && Inherits(RoutesOf(t1), d, face) ==> t1[d].HasInherited(face))
      && (q != [] && !q[|q| - 1].add ==> !Inherits(RoutesOf(t1), d, face))
  }

  /** What a step must do at one name and face. */
  ghost predicate PointGood(t: Table, t1: Table, log: seq<Event>, d: Name, face: nat) {
    PointFib(t, t1, log, d, face) && PointRecords(t1, d, face, Recorded(EventsAt(log, d, face)))
  }

  lemma ShapeFrame(t: Table, t': Table)
    requires Shape(t) && t'.Keys == t.Keys
    requires forall n :: n in t ==> t'[n].parent == t[n].parent && t'[n].children == t[n].children
    ensures Shape(t')
  {
    forall n | n in t'
      ensures LinksOk(t', n)
    {
      assert LinksOk(t, n);
    }
  }

  ghost predicate PointsGood(t: Table, t1: Table, log: seq<Event>) {
    forall d, f {:trigger EventsAt(log, d, f)} :: PointGood(t, t1, log, d, f)
  }

  /** Right changes of the FIB everywhere make a right FIB, and the records pass. */
  lemma PointsMakeFib(s: State, u: RibUpdate, log: seq<Event>, t1: Table)
    requires FibMatches(s) && AllPatterns(t1, log)
    requires forall d, f {:trigger EventsAt(log, d, f)} :: f !in s.dead ==>
               After(Effective(RoutesOf(s.table), d, f), EventsAt(log, d, f)) == Effective(RoutesOf(t1), d, f)
    ensures AllApplicable(t1, Records(log)) && FibMatches(Next(s, log, u, t1))
  {
    RecordsApply(t1, log);
    var s' := Next(s, log, u, t1);
    SameRoutes(t1, Records(log));
    forall n, f {:trigger FibAt(s'.fib, n, f)} | f !in s'.dead
      ensures FibAt(s'.fib, n, f) == Effective(RoutesOf(s'.table), n, f)
    {
      FibAfterLog(s.fib, log, u, n, f);
      assert FibAt(s.fib, n, f) == Effective(RoutesOf(s.table), n, f);
    }
  }

  /** The records leave routes, links and counts alone. */
  lemma SameRoutes(t1: Table, recs: seq<RibUpdate>)
    requires AllApplicable(t1, recs)
    ensures RoutesOf(ModifyInherited(t1, recs)) == RoutesOf(t1)
    ensures Shape(t1) ==> Shape(ModifyInherited(t1, recs))
    ensures CountsExact(ModifyInherited(t1, recs)) <==> CountsExact(t1)
  {
    ModifyKeeps(t1, recs);
    if Shape(t1) {
      ShapeFrame(t1, ModifyInherited(t1, recs));
    }
  }

  lemma PointsMakeRecords(t1: Table, log: seq<Event>)
    requires AllApplicable(t1, Records(log))
    requires forall d, f {:trigger EventsAt(log, d, f)} :: PointRecords(t1, d, f, Recorded(EventsAt(log, d, f)))
    ensures RecordsOk(ModifyInherited(t1, Records(log)))
  {
    var t2 := ModifyInherited(t1, Records(log));
    SameRoutes(t1, Records(log));
    ModifyKeeps(t1, Records(log));
    forall d, f {:trigger t2[d].HasInherited(f)} {:trigger Inherits(RoutesOf(t2), d, f)} | d in t2
      ensures Inherits(RoutesOf(t2), d, f) ==> t2[d].HasInherited(f)
      ensures t2[d].HasInherited(f) ==> !HasFace(t2[d].routes, f)
    {
      assert PointRecords(t1, d, f, Recorded(EventsAt(log, d, f)));
      RecordsAt(t1, log, d, f);
    }
  }

  /** Good points everywhere make a good step. */
  lemma PointsMakeStep(s: State, u: RibUpdate, log: seq<Event>, t1: Table)
    requires FibMatches(s)
    requires Shape(t1) && Single(t1)
    requires PointsGood(s.table, t1, log)
    ensures AllApplicable(t1, Records(log)) && Right(Next(s, log, u, t1))
    ensures CountsExact(Next(s, log, u, t1).table) <==> CountsExact(t1)
  {
    PointsMakeFib(s, u, log, t1);
    PointsMakeRecords(t1, log);
    SameRoutes(t1, Records(log));
    ModifyKeeps(t1, Records(log));
  }
}
