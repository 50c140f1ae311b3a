/** One batch end to end: its lists, the exchange with the FIB, and the table afterwards. */
module FibExchange {
  import opened Names
  import opened Options
  import opened RibModel
  import opened EffectiveNextHops
  import opened FibDelta
  import opened FibCompute
  import opened FibRefinement
  import opened FibTheorem
  import opened Sending = FibSending

  lemma ListsOk(log: seq<FibDelta.Event>, u: RibUpdate)
    ensures Lists(u.route.faceId, BatchList(log, u), RestList(log, u))
  {
    PendingUnique(log, u.route.faceId, true);
    PendingUnique(log, u.route.faceId, false);
  }

  ghost function StartOf(s: State, log: seq<FibDelta.Event>, u: RibUpdate): Sender {
    Begin(u.route.faceId, BatchList(log, u), RestList(log, u), s.fib)
  }

  /** The state when the success callback has run: the table is changed as computed, the FIB is
      as the replies left it, and refused faces are gone. */
  ghost function Accepted(s: State, log: seq<FibDelta.Event>, u: RibUpdate, t1: Table, x: Sender): State
    requires AllApplicable(t1, Records(log))
  {
    var next := Next(s, log, u, t1);
    State(next.table, x.fib, next.dead + FacesOf(x.refused))
  }

  /** The replies to one batch, in any order and with any losses, against the invariant that the
      FIB holds the effective next hops of the RIB. A batch that succeeds keeps it exactly when
      none of its removes for a live face timed out; a batch that fails keeps it, with the
      batch's own face in doubt. */
  lemma ExchangeKeepsInv(s: State, order: seq<Name>, u: RibUpdate, t1: Table, evs: seq<Sending.Event>)
    requires Inv(s) && OrderOf(s.table, order) && SingleRouteCommand(s, u) && Mutated(s.table, u, t1)
    requires Keeps(s.table, u)
    requires Defined(s.table, u) && Playable(StartOf(s, ComputeLog(s.table, order, u), u), evs)
    ensures var log := ComputeLog(s.table, order, u);
            var x := Play(StartOf(s, log, u), evs);
            && AllApplicable(t1, Records(log))
            && (OnSuccess in x.calls ==>
                  var dead := Accepted(s, log, u, t1, x).dead;
                  (Inv(Accepted(s, log, u, t1, x))
                   <==> forall v :: (v in BatchList(log, u) || v in RestList(log, u)) && v.faceId !in dead ==>
                       !TurnedIntoAdd(x, v)))
            && (OnFailure in x.calls ==> Inv(State(s.table, x.fib, s.dead + {u.route.faceId})))
  {
    var log := ComputeLog(s.table, order, u);
    var x := Play(StartOf(s, log, u), evs);
    StepExact(s, order, u, t1);
    ListsOk(log, u);
    if OnSuccess in x.calls {
      AcceptedInv(s, log, u, t1, evs);
    }
    if OnFailure in x.calls {
      FailureKeepsInv(s, order, u, evs);
    }
  }

  lemma FailureKeepsInv(s: State, order: seq<Name>, u: RibUpdate, evs: seq<Sending.Event>)
    requires Inv(s) && OrderOf(s.table, order) && Defined(s.table, u)
    requires Playable(StartOf(s, ComputeLog(s.table, order, u), u), evs)
    requires OnFailure in Play(StartOf(s, ComputeLog(s.table, order, u), u), evs).calls
    ensures Inv(State(s.table, Play(StartOf(s, ComputeLog(s.table, order, u), u), evs).fib, s.dead + {u.route.faceId}))
  {
    var log := ComputeLog(s.table, order, u);
    var failed := State(s.table, Play(StartOf(s, log, u), evs).fib, s.dead + {u.route.faceId});
    ListsOk(log, u);
    forall n, f {:trigger FibAt(failed.fib, n, f)} | f !in failed.dead
      ensures FibAt(failed.fib, n, f) == Effective(RoutesOf(s.table), n, f)
    {
      RefusedFib(u.route.faceId, BatchList(log, u), RestList(log, u), s.fib, evs, n, f);
      assert FibAt(s.fib, n, f) == Effective(RoutesOf(s.table), n, f);
    }
  }

  lemma AcceptedInv(s: State, log: seq<FibDelta.Event>, u: RibUpdate, t1: Table, evs: seq<Sending.Event>)
    requires AllApplicable(t1, Records(log)) && Inv(Next(s, log, u, t1))
    requires Lists(u.route.faceId, BatchList(log, u), RestList(log, u)) && Playable(StartOf(s, log, u), evs)
    requires OnSuccess in Play(StartOf(s, log, u), evs).calls
    ensures var x := Play(StartOf(s, log, u), evs);
            var dead := Accepted(s, log, u, t1, x).dead;
            Inv(Accepted(s, log, u, t1, x))
            <==> forall v :: (v in BatchList(log, u) || v in RestList(log, u)) && v.faceId !in dead ==>
                !TurnedIntoAdd(x, v)
  {
    var x := Play(StartOf(s, log, u), evs);
    var next := Next(s, log, u, t1);
    var after := Accepted(s, log, u, t1, x);
    var target := Intended(s.fib, BatchList(log, u), RestList(log, u));
    assert next.fib == target;
    SentFibExact(u.route.faceId, BatchList(log, u), RestList(log, u), s.fib, evs, after.dead);
    forall n, f | f !in after.dead
      ensures FibAt(target, n, f) == Effective(RoutesOf(after.table), n, f)
    {
      assert FibAt(next.fib, n, f) == Effective(RoutesOf(next.table), n, f);
    }
    assert FibMatches(after) <==> (forall n, f {:trigger FibAt(x.fib, n, f)} :: f !in after.dead ==>
                                     FibAt(x.fib, n, f) == FibAt(target, n, f));
  }
}
