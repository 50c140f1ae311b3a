/** The batches that have come to their end, as a history: what each started from, the replies it
    got and what it left behind; and what a history of well-behaved batches says of the FIB. */
module BatchHistory {
  import opened Names
  import opened Options
  import opened Sequences
  import opened RibModel
  import opened EffectiveNextHops
  import opened FibDelta
  import opened FibCompute
  import opened FibRefinement
  import opened FibSteps
  import opened FibCommands
  import opened FibTheorem
  import opened Sending = FibSending
  import opened FibExchange

  /** A batch: the table order it was computed in, the replies to its commands, the table insert or
      erase leaves when it succeeds, and the states before and after it. */
  datatype Done = Done(update: RibUpdate, order: seq<Name>, replies: seq<Sending.Event>, mutated: Table,
                       succeeded: bool, before: State, after: State)

  /** The batch was computed from the table before it, and these replies can come. */
  ghost predicate Exchanged(d: Done) {
    && Shape(d.before.table) && OrderOf(d.before.table, d.order) && Defined(d.before.table, d.update)
    && Playable(StartOf(d.before, ComputeLog(d.before.table, d.order, d.update), d.update), d.replies)
  }

  ghost function LogOf(d: Done): seq<FibDelta.Event>
    requires Exchanged(d)
  {
    ComputeLog(d.before.table, d.order, d.update)
  }

  /** The exchange as the replies left it. */
  ghost function ExchangeOf(d: Done): Sender
    requires Exchanged(d)
  {
    Play(StartOf(d.before, LogOf(d), d.update), d.replies)
  }

  /** The failed batch leaves the table; its own face is in doubt. */
  ghost function Refused(s: State, u: RibUpdate, x: Sender): State {
    State(s.table, x.fib, s.dead + {u.route.faceId})
  }

  /** A batch succeeds or fails when its exchange makes that callback. A success applies its update
      and the records computed for it; a failure leaves the table. The FIB is as the replies
      left it. */
  ghost predicate Outcome(d: Done) {
    && Exchanged(d)
    && if d.succeeded then
         && OnSuccess in ExchangeOf(d).calls && Mutated(d.before.table, d.update, d.mutated)
         && AllApplicable(d.mutated, Records(LogOf(d)))
         && d.after == Accepted(d.before, LogOf(d), d.update, d.mutated, ExchangeOf(d))
       else
         OnFailure in ExchangeOf(d).calls && d.after == Refused(d.before, d.update, ExchangeOf(d))
  }

  ghost function StateAfter(history: seq<Done>): State {
    if history == [] then State(map[], map[], {}) else history[|history| - 1].after
  }

  ghost predicate FoldsAt(history: seq<Done>, i: nat)
    requires i < |history|
  {
    Outcome(history[i]) && history[i].before == StateAfter(history[..i])
  }

  /** Each batch starts from what the ones before it left, the first from the empty table. */
  ghost predicate Folds(history: seq<Done>) {
    forall i: nat :: i < |history| ==> FoldsAt(history, i)
  }

  ghost function UpdatesDone(history: seq<Done>): (us: seq<RibUpdate>)
    ensures |us| == |history|
  {
    seq(|history|, i requires 0 <= i < |history| => history[i].update)
  }

  lemma FoldsNext(history: seq<Done>, d: Done)
    requires Folds(history) && Outcome(d) && d.before == StateAfter(history)
    ensures Folds(history + [d])
  {
    var h := history + [d];
    assert h[..|history|] == history;
    forall i: nat | i < |h|
      ensures FoldsAt(h, i)
    {
      FoldsAtPrefix(h, history, i);
      assert i < |history| ==> FoldsAt(history, i);
    }
  }

  lemma OneMore(history: seq<Done>, d: Done)
    ensures StateAfter(history + [d]) == d.after
    ensures UpdatesDone(history + [d]) == UpdatesDone(history) + [d.update]
  {
  }

  lemma FoldsAtPrefix(h: seq<Done>, front: seq<Done>, i: nat)
    requires front <= h
    ensures i < |front| ==> (FoldsAt(front, i) <==> FoldsAt(h, i))
  {
    assert i < |front| ==> h[..i] == front[..i];
  }

  lemma FoldsFront(history: seq<Done>)
    requires Folds(history) && history != []
    ensures Folds(history[..|history| - 1])
    ensures Outcome(history[|history| - 1]) && history[|history| - 1].before == StateAfter(history[..|history| - 1])
  {
    var front := history[..|history| - 1];
    forall i: nat | i < |front|
      ensures FoldsAt(front, i)
    {
      FoldsAtPrefix(history, front, i);
      assert FoldsAt(history, i);
    }
    assert FoldsAt(history, |front|);
  }

  /** First in, first out, one at a time, each batch starting from what the ones before it left. */
  ghost predicate Ordered(enqueued: seq<RibUpdate>, history: seq<Done>, inProgress: seq<RibUpdate>,
                          waiting: seq<RibUpdate>, base: State) {
    enqueued == UpdatesDone(history) + inProgress + waiting && Folds(history) && base == StateAfter(history)
  }

  lemma OrderedNext(enqueued: seq<RibUpdate>, history: seq<Done>, waiting: seq<RibUpdate>, d: Done)
    requires Ordered(enqueued, history, [d.update], waiting, d.before) && Outcome(d)
    ensures Ordered(enqueued, history + [d], [], waiting, d.after)
  {
    FoldsNext(history, d);
    OneMore(history, d);
    assert UpdatesDone(history + [d]) + [] == UpdatesDone(history + [d]);
  }

  lemma OrderedPop(enqueued: seq<RibUpdate>, history: seq<Done>, waiting: seq<RibUpdate>, base: State)
    requires Ordered(enqueued, history, [], waiting, base) && waiting != []
    ensures Ordered(enqueued, history, [waiting[0]], waiting[1..], base)
  {
    assert UpdatesDone(history) + [] + waiting == UpdatesDone(history) + [waiting[0]] + waiting[1..];
  }

  lemma OrderedPush(enqueued: seq<RibUpdate>, history: seq<Done>, inProgress: seq<RibUpdate>, waiting: seq<RibUpdate>,
                    base: State, u: RibUpdate)
    requires Ordered(enqueued, history, inProgress, waiting, base)
    ensures Ordered(enqueued + [u], history, inProgress, waiting + [u], base)
  {
    Associative(UpdatesDone(history) + inProgress, waiting, [u]);
  }

  // ----- what a history says of the FIB -----

  /** A command that keeps the FIB exact. */
  ghost predicate InDomain(s: State, u: RibUpdate) {
    SingleRouteCommand(s, u) && Keeps(s.table, u)
  }

  /** No removal of the batch for a face that is still alive was turned into an addition. */
  ghost predicate RemovesKept(d: Done)
    requires Exchanged(d)
  {
    forall v | v in BatchList(LogOf(d), d.update) || v in RestList(LogOf(d), d.update)
      :: v.faceId !in d.after.dead ==> !TurnedIntoAdd(ExchangeOf(d), v)
  }

  /** A batch that failed, or was of the domain and had no removal for a live face timed out. */
  ghost predicate Good(d: Done)
    requires Exchanged(d)
  {
    d.succeeded ==> InDomain(d.before, d.update) && RemovesKept(d)
  }

  ghost predicate AllGood(history: seq<Done>)
    requires Folds(history)
  {
    forall i: nat :: i < |history| ==> FoldsAt(history, i) && Good(history[i])
  }

  /** A batch of the domain keeps the invariant if it fails, and if it succeeds exactly when none
      of its removals for a live face timed out. */
  lemma DoneKeepsInv(d: Done)
    requires Outcome(d) && Inv(d.before) && (d.succeeded ==> InDomain(d.before, d.update))
    ensures Inv(d.after) <==> Good(d)
  {
    if d.succeeded {
      ExchangeKeepsInv(d.before, d.order, d.update, d.mutated, d.replies);
    } else {
      FailureKeepsInv(d.before, d.order, d.update, d.replies);
    }
  }

  /** After a history of good batches the FIB holds the effective next hops of the RIB. */
  lemma {:induction false} HistoryKeepsInv(history: seq<Done>)
    requires Folds(history) && AllGood(history)
    ensures Inv(StateAfter(history))
  {
    if history == [] {
      EmptyInv();
    } else {
      var front, d := history[..|history| - 1], history[|history| - 1];
      FoldsFront(history);
      forall i: nat | i < |front|
        ensures FoldsAt(front, i) && Good(front[i])
      {
        assert FoldsAt(history, i) && Good(history[i]);
      }
      HistoryKeepsInv(front);
      assert FoldsAt(history, |history| - 1) && Good(d);
      DoneKeepsInv(d);
    }
  }

  /** The faces a batch puts in doubt: one that it reports destroyed, those whose commands were
      refused along a success, and its own when it failed. */
  ghost function GoneBy(d: Done): set<nat>
    requires Exchanged(d)
  {
    if !d.succeeded then {d.update.route.faceId}
    else (if d.update.action == REMOVE_FACE then {d.update.route.faceId} else {}) + FacesOf(ExchangeOf(d).refused)
  }

  ghost function Gone(history: seq<Done>): set<nat>
    requires Folds(history)
  {
    if history == [] then {}
    else
      FoldsFront(history);
      Gone(history[..|history| - 1]) + GoneBy(history[|history| - 1])
  }

  lemma DeadStep(d: Done)
    requires Outcome(d)
    ensures d.after.dead == d.before.dead + GoneBy(d)
  {
  }

  /** The FIB is not compared exactly on the faces some batch of the history has put in doubt. */
  lemma {:induction false} DeadAreGone(history: seq<Done>)
    requires Folds(history)
    ensures StateAfter(history).dead == Gone(history)
  {
    if history != [] {
      FoldsFront(history);
      DeadAreGone(history[..|history| - 1]);
      DeadStep(history[|history| - 1]);
    }
  }

  /** A command of the domain meets no null route. */
  lemma DomainDefined(s: State, u: RibUpdate)
    requires Inv(s) && SingleRouteCommand(s, u)
    ensures Defined(s.table, u)
  {
    if u.action == REGISTER && u.name in s.table {
      UpdatedEntry(s.table, u.name, u.route);
      OneRoute([u.route], u.route.faceId);
    }
  }

  // ----- the assertions on the records -----

  /** Some record of the batch does not find its entry or its element when the update is applied. */
  ghost predicate RecordsFail(t: Table, u: RibUpdate, recs: seq<RibUpdate>) {
    exists mutated :: Mutated(t, u, mutated) && !AllApplicable(mutated, recs)
  }

  /** Two tables with the same names and recorded faces. */
  ghost predicate SameRecorded(a: Table, b: Table) {
    a.Keys == b.Keys && forall n :: n in a ==> a[n].inherited == b[n].inherited
  }

  lemma {:induction false} AppliesAlike(a: Table, b: Table, recs: seq<RibUpdate>)
    requires SameRecorded(a, b)
    ensures AllApplicable(a, recs) <==> AllApplicable(b, recs)
    decreases |recs|
  {
    if recs != [] && Applicable(a, recs[0]) {
      var n := recs[0].name;
      AppliesAlike(a[n := ChangeInherited(a[n], recs[0])], b[n := ChangeInherited(b[n], recs[0])], recs[1..]);
    }
  }

  lemma MutatedAlike(t: Table, u: RibUpdate, a: Table, b: Table)
    requires Mutated(t, u, a) && Mutated(t, u, b)
    ensures SameRecorded(a, b)
  {
  }

  /** Whether the records fail does not depend on the order in which the tree is relinked. */
  lemma FailsExactly(t: Table, u: RibUpdate, recs: seq<RibUpdate>, mutated: Table)
    requires Mutated(t, u, mutated)
    ensures RecordsFail(t, u, recs) <==> !AllApplicable(mutated, recs)
  {
    if RecordsFail(t, u, recs) {
      var other :| Mutated(t, u, other) && !AllApplicable(other, recs);
      MutatedAlike(t, u, mutated, other);
      AppliesAlike(mutated, other, recs);
    }
  }

  /** The records of a command of the domain do not fail. */
  lemma DomainApplies(s: State, order: seq<Name>, u: RibUpdate)
    requires Inv(s) && OrderOf(s.table, order) && InDomain(s, u)
    ensures Defined(s.table, u) && !RecordsFail(s.table, u, Records(ComputeLog(s.table, order, u)))
  {
    DomainDefined(s, u);
    forall mutated | Mutated(s.table, u, mutated)
      ensures AllApplicable(mutated, Records(ComputeLog(s.table, order, u)))
    {
      StepExact(s, order, u, mutated);
    }
  }

  // ----- one reply more -----

  lemma {:induction false} PlayOneMore(s: Sender, evs: seq<Sending.Event>, ev: Sending.Event)
    requires Playable(s, evs) && Thrown !in Play(s, evs).calls && ev.update in Play(s, evs).flights
    ensures Playable(s, evs + [ev]) && Play(s, evs + [ev]) == Step(Play(s, evs), ev)
    decreases |evs|
  {
    if evs == [] {
      assert [ev][1..] == [];
      assert evs + [ev] == [ev];
    } else {
      PlayOneMore(Step(s, evs[0]), evs[1..], ev);
      assert (evs + [ev])[1..] == evs[1..] + [ev];
    }
  }
}
