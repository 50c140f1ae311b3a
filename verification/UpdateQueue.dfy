/** The RIB's queue of update batches, the exchange with the FIB for the batch in progress, and
    what both do to the RIB: whatever replies come in, in whatever order. */
module UpdateQueues {
  import opened Names
  import opened Options
  import opened Sequences
  import opened RibModel
  import opened EffectiveNextHops
  import opened FibDelta
  import opened FibCompute
  import opened FibRefinement
  import opened FibTheorem
  import opened RibShape
  import opened RibEntries
  import opened RibTable
  import opened Sending = FibSending
  import opened FibExchange
  import opened BatchHistory
  import opened FibUpdaters

  /** The history has gained the batch `u`, ended by these replies. */
  ghost predicate Ended(before: seq<Done>, after: seq<Done>, u: RibUpdate, replies: seq<Sending.Event>,
                        succeeded: bool) {
    && before <= after && |before| < |after|
    && after[|before|].update == u && after[|before|].replies == replies && after[|before|].succeeded == succeeded
  }

  lemma EndedNow(before: seq<Done>, d: Done)
    ensures Ended(before, before + [d], d.update, d.replies, d.succeeded)
  {
  }

  lemma EndedLater(before: seq<Done>, mid: seq<Done>, after: seq<Done>, u: RibUpdate, replies: seq<Sending.Event>,
                   succeeded: bool)
    requires Ended(before, mid, u, replies, succeeded) && mid <= after
    ensures Ended(before, after, u, replies, succeeded)
  {
  }

  /** What the callbacks of an exchange do: a success ends the batch exactly when the assertions on
      its records hold, a failure ends it, an exception ends everything. */
  ghost predicate Concluded(x: Sender, before: seq<Done>, after: seq<Done>, u: RibUpdate, replies: seq<Sending.Event>,
                            fails: bool, crashed: bool) {
    && (x.calls == [] ==> after == before && !crashed)
    && (x.calls == [OnSuccess] ==> if fails then after == before && crashed else Ended(before, after, u, replies, true))
    && (x.calls == [OnFailure] ==> Ended(before, after, u, replies, false))
    && (Thrown in x.calls ==> after == before && crashed)
  }

  class UpdateQueue {
    const rib: Rib
    const updater: FibUpdater
    var updateBatches: seq<RibUpdate>
    var isUpdateInProgress: bool
    /** The batch in progress and its commands on their way. */
    var current: RibUpdate
    var flights: map<FibUpdate, Flight>
    /** An assertion failed, a null route was dereferenced or an exception left the updater. */
    var crashed: bool

    /** The batches queued and the batches ended so far, in order. */
    ghost var enqueued: seq<RibUpdate>
    ghost var history: seq<Done>
    /** What the ended batches left: the RIB as a value, the FIB, the faces in doubt. */
    ghost var base: State
    /** For the batch in progress: the table order it was computed in, the changes logged, the
        replies so far and the exchange, with the forwarder's FIB. */
    ghost var order: seq<Name>
    ghost var log: seq<FibDelta.Event>
    ghost var replies: seq<Sending.Event>
    ghost var exchange: Sender

    /** The batches ended, in progress and waiting are those queued, in order. */
    ghost predicate InOrder()
      reads this`enqueued, this`history, this`isUpdateInProgress, this`current, this`updateBatches, this`base
    {
      Ordered(enqueued, history, if isUpdateInProgress then [current] else [], updateBatches, base)
    }

    /** The batch in progress was computed from the table as it is. */
    ghost predicate Computed(u: RibUpdate)
      reads this`base, this`order, this`log
    {
      && Shape(base.table) && OrderOf(base.table, order) && Defined(base.table, u)
      && log == ComputeLog(base.table, order, u)
    }

    /** Its exchange is where the replies so far have brought it. */
    ghost predicate Exchanging()
      reads this`base, this`log, this`current, this`replies, this`exchange, this`flights, updater
    {
      && Playable(StartOf(base, log, current), replies) && exchange == Play(StartOf(base, log, current), replies)
      && exchange.flights == flights
      && updater.Holds(exchange) && updater.inheritedRoutes == Records(log)
    }

    ghost predicate Running()
      reads this`isUpdateInProgress, this`base, this`order, this`log, this`current, this`replies
      reads this`exchange, this`flights
      reads updater
    {
      isUpdateInProgress && Computed(current) && Exchanging()
    }

    /** An assertion fails on the records of the batch in progress. */
    ghost predicate Fails()
      reads this`base, this`current, this`log
    {
      RecordsFail(base.table, current, Records(log))
    }

    /** It stopped in the batch in progress, for one of three causes: the updater dereferenced a null
        route, an exception left it, or the batch succeeded and an assertion on its records failed. */
    ghost predicate Halted()
      reads this`isUpdateInProgress, this`base, this`order, this`log, this`current, this`replies
      reads this`exchange, this`flights, updater
    {
      && isUpdateInProgress
      && (Defined(base.table, current) ==>
            Running() && (Thrown in exchange.calls || (OnSuccess in exchange.calls && Fails())))
    }

    ghost predicate RibIs()
      reads this`base, rib, rib.entries.Values
    {
      rib.Valid() && rib.View() == base.table && updater.rib == rib
    }

    ghost predicate Steady()
      reads this, updater
    {
      InOrder() && if crashed then Halted() else isUpdateInProgress ==> Running()
    }

    /** Between calls no callback is outstanding, and no batch waits while none is in progress.
        Unless it crashed, the RIB is what the ended batches left. */
    ghost predicate Valid()
      reads this, updater, rib, rib.entries.Values
    {
      && Steady() && (!crashed ==> RibIs())
      && (!crashed ==> if isUpdateInProgress then exchange.calls == [] else updateBatches == [])
    }

    /** The forwarder's FIB. */
    ghost function Forwarding(): Fib
      reads this`isUpdateInProgress, this`exchange, this`base
    {
      if isUpdateInProgress then exchange.fib else base.fib
    }

    constructor (rib: Rib, updater: FibUpdater)
      requires rib.Valid() && rib.View() == map[] && updater.rib == rib
      ensures Valid() && enqueued == [] && history == [] && !crashed && !isUpdateInProgress
      ensures this.rib == rib && this.updater == updater
    {
      this.rib, this.updater := rib, updater;
      updateBatches, isUpdateInProgress, flights, crashed := [], false, map[], false;
      current := RibUpdate(REGISTER, [], Route(0, 0, 0, 0));
      base, enqueued, history := State(map[], map[], {}), [], [];
    }

    // ----- what the queue keeps right -----

    /** While every ended batch is good, the FIB between two batches holds the effective next hops of
        the RIB on every face not in doubt, and the faces in doubt are those of the history; and
        a batch of the domain crashes only on an exception. */
    lemma FibIsRight()
      requires Valid() && AllGood(history)
      ensures Inv(base) && base.dead == Gone(history)
      ensures !crashed && !isUpdateInProgress ==> Inv(State(rib.View(), Forwarding(), Gone(history)))
      ensures crashed && InDomain(base, current) ==> Thrown in exchange.calls
    {
      HistoryKeepsInv(history);
      DeadAreGone(history);
      if crashed && InDomain(base, current) {
        DomainDefined(base, current);
        DomainApplies(base, order, current);
      }
    }

    // ----- starting a batch -----

    /** The front batch leaves the queue. */
    method Pop()
      requires InOrder() && !isUpdateInProgress && updateBatches != []
      modifies this`isUpdateInProgress, this`current, this`updateBatches
      ensures isUpdateInProgress && InOrder()
      ensures current == old(updateBatches)[0] && updateBatches == old(updateBatches)[1..]
    {
      OrderedPop(enqueued, history, updateBatches, base);
      isUpdateInProgress, current, updateBatches := true, updateBatches[0], updateBatches[1..];
    }

    /** computeUpdates; a null dereference ends it. */
    method Compute(u: RibUpdate) returns (ok: bool)
      requires RibIs()
      modifies updater, this`order, this`log
      ensures OrderOf(base.table, order) && ok == Defined(base.table, u)
      ensures ok ==> Computed(u) && updater.Prepared(u, log)
    {
      order := rib.order;
      RibOrder();
      ok := updater.ComputeUpdates(u, base.table);
      log := updater.log;
    }

    twostate lemma RibUntouched()
      requires old(rib.Valid()) && unchanged(rib) && unchanged(old(rib.entries.Values))
      ensures rib.Valid() && rib.View() == old(rib.View())
    {
    }

    lemma RibOrder()
      requires RibIs()
      ensures OrderOf(base.table, rib.order) && updater.Reads(base.table) && rib.OrderOk()
    {
      SortedDistinct(rib.order);
      assert base.table.Keys == rib.entries.Keys;
    }

    /** The lists go out; with nothing to send, the batch has succeeded already. */
    method BeginExchange() returns (calls: seq<Callback>)
      requires updater.Prepared(current, log)
      modifies this`flights, this`exchange, this`replies
      ensures Exchanging() && replies == [] && calls == exchange.calls && (calls == [] || calls == [OnSuccess])
    {
      ghost var s := Sender(current.route.faceId, BatchList(log, current), RestList(log, current), map[], base.fib,
                            [], [], {}, {}, {});
      var commands;
      commands, calls := updater.SendUpdatesForBatchFaceId(s);
      flights := Put(map[], commands);
      exchange := StartOf(base, log, current);
      replies := [];
    }

    // ----- ending a batch -----

    /** The success callback's changes to the RIB. */
    method ApplyToRib(u: RibUpdate) returns (ok: bool, ghost mutated: Table)
      requires RibIs()
      modifies rib, rib.entries.Values
      ensures rib.Valid() && Mutated(base.table, u, mutated)
      ensures ok == !RecordsFail(base.table, u, updater.inheritedRoutes)
      ensures ok ==> AllApplicable(mutated, updater.inheritedRoutes)
      ensures ok ==> rib.View() == ModifyInherited(mutated, updater.inheritedRoutes)
      ensures forall n :: n in rib.entries ==> rib.entries[n] in old(rib.entries.Values) || fresh(rib.entries[n])
    {
      ok, mutated := rib.OnFibUpdateSuccess(u, updater.inheritedRoutes);
      FailsExactly(base.table, u, updater.inheritedRoutes, mutated);
    }

    ghost function Succeeded(mutated: Table): Done
      requires AllApplicable(mutated, Records(log))
      reads this`current, this`order, this`replies, this`base, this`log, this`exchange
    {
      Done(current, order, replies, mutated, true, base, Accepted(base, log, current, mutated, exchange))
    }

    ghost function Failed(): Done
      reads this`current, this`order, this`replies, this`base, this`exchange
    {
      Done(current, order, replies, base.table, false, base, Refused(base, current, exchange))
    }

    lemma SucceededOutcome(mutated: Table)
      requires Running() && OnSuccess in exchange.calls
      requires Mutated(base.table, current, mutated) && AllApplicable(mutated, Records(log))
      ensures Outcome(Succeeded(mutated))
    {
    }

    lemma FailedOutcome()
      requires Running() && OnFailure in exchange.calls
      ensures Outcome(Failed())
    {
    }

    /** The batch is over: nothing is in progress, and the history has one batch more. */
    method Rest(ghost d: Done)
      requires InOrder() && isUpdateInProgress && Outcome(d) && d.before == base && d.update == current
      modifies this`isUpdateInProgress, this`flights, this`base, this`history
      ensures InOrder() && !isUpdateInProgress && base == d.after && history == old(history) + [d]
    {
      OrderedNext(enqueued, history, updateBatches, d);
      isUpdateInProgress, flights := false, map[];
      base, history := d.after, history + [d];
    }

    // ----- the queue -----

    /** Starts the front batch unless one is in progress. A batch with nothing to send succeeds
        at once and starts the next, so the recursion is as deep as the queue is long. */
    method SendBatchFromQueue()
      requires Steady() && !crashed && RibIs() && (isUpdateInProgress ==> exchange.calls == [])
      modifies this, updater, rib, rib.entries.Values
      ensures Valid() && enqueued == old(enqueued) && old(history) <= history
      ensures forall n :: n in rib.entries ==> rib.entries[n] in old(rib.entries.Values) || fresh(rib.entries[n])
      decreases |updateBatches|, 0
    {
      if updateBatches == [] || isUpdateInProgress {
        return;
      }
      var calls := Start();
      RibUntouched();
      if !crashed && calls != [] {
        OnFibUpdateSuccess();
      }
    }

    method Start() returns (calls: seq<Callback>)
      requires InOrder() && !crashed && !isUpdateInProgress && updateBatches != [] && RibIs()
      modifies updater, this`isUpdateInProgress, this`current, this`updateBatches
      modifies this`order, this`log, this`flights, this`exchange, this`replies, this`crashed
      ensures Steady() && isUpdateInProgress && updateBatches == old(updateBatches)[1..]
      ensures !crashed ==> calls == exchange.calls && (calls == [] || calls == [OnSuccess])
    {
      var ok := Compute(updateBatches[0]);
      calls := LeaveQueue(ok);
    }

    /** The front batch leaves the queue and its updates go out. */
    method LeaveQueue(ok: bool) returns (calls: seq<Callback>)
      requires InOrder() && !crashed && !isUpdateInProgress && updateBatches != []
      requires ok == Defined(base.table, updateBatches[0])
      requires ok ==> Computed(updateBatches[0]) && updater.Prepared(updateBatches[0], log)
      modifies this`isUpdateInProgress, this`current, this`updateBatches
      modifies this`flights, this`exchange, this`replies, this`crashed
      ensures Steady() && isUpdateInProgress && updateBatches == old(updateBatches)[1..]
      ensures !crashed ==> calls == exchange.calls && (calls == [] || calls == [OnSuccess])
    {
      Pop();
      calls := SendOut(ok);
    }

    /** The computed updates go out. */
    method SendOut(ok: bool) returns (calls: seq<Callback>)
      requires InOrder() && !crashed && isUpdateInProgress
      requires ok == Defined(base.table, current) && (ok ==> Computed(current) && updater.Prepared(current, log))
      modifies this`flights, this`exchange, this`replies, this`crashed
      ensures crashed == !ok && Steady()
      ensures !crashed ==> calls == exchange.calls && (calls == [] || calls == [OnSuccess])
    {
      if ok {
        calls := BeginExchange();
      } else {
        calls, crashed := [], true;
      }
    }

    /** onFibUpdateSuccess. */
    method OnFibUpdateSuccess()
      requires InOrder() && Running() && !crashed && RibIs() && OnSuccess in exchange.calls
      modifies this, updater, rib, rib.entries.Values
      ensures Valid() && enqueued == old(enqueued)
      ensures if old(Fails()) then history == old(history) && crashed
              else Ended(old(history), history, old(current), old(replies), true)
      ensures forall n :: n in rib.entries ==> rib.entries[n] in old(rib.entries.Values) || fresh(rib.entries[n])
      decreases |updateBatches|, 1
    {
      TakeBatch();
      if !crashed {
        ghost var taken := history;
        SendBatchFromQueue();
        EndedLater(old(history), taken, history, old(current), old(replies), true);
      }
    }

    /** The batch in progress is taken into the RIB and leaves the queue. */
    method TakeBatch()
      requires InOrder() && Running() && !crashed && RibIs() && OnSuccess in exchange.calls
      modifies this`isUpdateInProgress, this`flights, this`base, this`history, this`crashed
      modifies rib, rib.entries.Values
      ensures Steady() && crashed == old(Fails())
      ensures if crashed then history == old(history)
              else !isUpdateInProgress && RibIs() && Ended(old(history), history, old(current), old(replies), true)
      ensures forall n :: n in rib.entries ==> rib.entries[n] in old(rib.entries.Values) || fresh(rib.entries[n])
    {
      var ok, mutated := ApplyToRib(current);
      Settle(ok, mutated);
    }

    /** The RIB is as the batch leaves it; the queue follows. */
    method Settle(ok: bool, ghost mutated: Table)
      requires InOrder() && Running() && !crashed && OnSuccess in exchange.calls && rib.Valid() && updater.rib == rib
      requires Mutated(base.table, current, mutated) && ok == !Fails()
      requires ok ==> AllApplicable(mutated, Records(log)) && rib.View() == ModifyInherited(mutated, Records(log))
      modifies this`isUpdateInProgress, this`flights, this`base, this`history, this`crashed
      ensures Steady() && crashed == !ok
      ensures if crashed then history == old(history)
              else !isUpdateInProgress && RibIs() && Ended(old(history), history, old(current), old(replies), true)
    {
      Accept(ok, mutated);
      RibUntouched();
    }

    /** What the success callback leaves behind, beside the RIB. A record that does not find its entry
        or its element fails an assertion. */
    method Accept(ok: bool, ghost mutated: Table)
      requires InOrder() && Running() && OnSuccess in exchange.calls && !crashed
      requires Mutated(base.table, current, mutated) && ok == !Fails()
      modifies this`isUpdateInProgress, this`flights, this`base, this`history, this`crashed
      ensures Steady() && crashed == !ok
      ensures ok ==> !isUpdateInProgress && Ended(old(history), history, old(current), old(replies), true)
      ensures ok ==> AllApplicable(mutated, Records(log)) && base.table == ModifyInherited(mutated, Records(log))
      ensures !ok ==> history == old(history)
    {
      FailsExactly(base.table, current, Records(log), mutated);
      if ok {
        SucceededOutcome(mutated);
        EndedNow(history, Succeeded(mutated));
        Rest(Succeeded(mutated));
      } else {
        crashed := true;
      }
    }

    /** onFibUpdateFailure. */
    method OnFibUpdateFailure()
      requires InOrder() && Running() && !crashed && RibIs() && OnFailure in exchange.calls
      modifies this, updater, rib, rib.entries.Values
      ensures Valid() && enqueued == old(enqueued)
      ensures Ended(old(history), history, old(current), old(replies), false)
      ensures forall n :: n in rib.entries ==> rib.entries[n] in old(rib.entries.Values) || fresh(rib.entries[n])
      decreases |updateBatches|, 1
    {
      FailedOutcome();
      EndedNow(history, Failed());
      Rest(Failed());
      RibUntouched();
      ghost var taken := history;
      SendBatchFromQueue();
      EndedLater(old(history), taken, history, old(current), old(replies), false);
    }

    // ----- the calls from outside -----

    method AddUpdateToQueue(u: RibUpdate)
      requires InOrder()
      modifies this`updateBatches, this`enqueued
      ensures InOrder() && updateBatches == old(updateBatches) + [u] && enqueued == old(enqueued) + [u]
    {
      OrderedPush(enqueued, history, if isUpdateInProgress then [current] else [], updateBatches, base, u);
      updateBatches := updateBatches + [u];
      enqueued := enqueued + [u];
    }

    /** beginApplyUpdate. */
    method BeginApplyUpdate(u: RibUpdate)
      requires Valid() && !crashed
      modifies this, updater, rib, rib.entries.Values
      ensures Valid() && enqueued == old(enqueued) + [u] && old(history) <= history
    {
      AddUpdateToQueue(u);
      StillSteady();
      RibUntouched();
      SendBatchFromQueue();
    }

    /** Queueing a batch touches nothing else. */
    twostate lemma StillSteady()
      requires old(Steady()) && !old(crashed) && InOrder()
      requires unchanged(updater)
      requires unchanged(this`isUpdateInProgress, this`current, this`flights, this`crashed, this`base)
      requires unchanged(this`order, this`log, this`replies, this`exchange)
      ensures Steady() && !crashed
    {
    }

    /** beginRemoveFace: a batch for each route on the face. */
    method BeginRemoveFace(face: nat) returns (ghost removals: seq<RibUpdate>)
      requires Valid() && !crashed
      modifies this, updater, rib, rib.entries.Values
      ensures Valid() && enqueued == old(enqueued) + removals && old(history) <= history
      ensures removals == RemovalsOf(old(rib.FoundOn(face)))
      ensures forall u :: u in removals <==>
                && u.action == REMOVE_FACE && u.name in old(base).table && u.route in old(base).table[u.name].routes
                && u.route.faceId == face
    {
      RemovalsFound(face);
      removals := QueueFace(face);
      StillSteady();
      RibUntouched();
      SendBatchFromQueue();
    }

    method QueueFace(face: nat) returns (ghost removals: seq<RibUpdate>)
      requires InOrder() && rib.Valid()
      modifies this`updateBatches, this`enqueued
      ensures InOrder() && enqueued == old(enqueued) + removals && removals == RemovalsOf(old(rib.FoundOn(face)))
    {
      var found := rib.FindRoutesWithFaceId(face);
      removals := QueueRemovals(found);
    }

    method QueueRemovals(found: seq<(Name, Route)>) returns (ghost removals: seq<RibUpdate>)
      requires InOrder()
      modifies this`updateBatches, this`enqueued
      ensures InOrder() && enqueued == old(enqueued) + removals && removals == RemovalsOf(found)
    {
      removals := [];
      for i := 0 to |found|
        invariant InOrder() && enqueued == old(enqueued) + removals && removals == RemovalsOf(found)[..i]
      {
        var u := RibUpdate(REMOVE_FACE, found[i].0, found[i].1);
        AddUpdateToQueue(u);
        Associative(old(enqueued), removals, [u]);
        removals := removals + [u];
      }
    }

    lemma RemovalsFound(face: nat)
      requires RibIs()
      ensures forall u: RibUpdate :: u in RemovalsOf(rib.FoundOn(face)) <==>
                && u.action == REMOVE_FACE && u.name in base.table && u.route in base.table[u.name].routes
                && u.route.faceId == face
    {
      rib.FoundExactly(face);
      assert base.table.Keys == rib.entries.Keys;
      assert forall n :: n in base.table ==> base.table[n] == rib.entries[n].View();
    }

    /** A reply to one of the batch's commands. The command's callback was bound to the update's
        own timeouts so far. */
    method Reply(u: FibUpdate, reply: Sending.Reply)
      requires Valid() && !crashed && isUpdateInProgress && u in flights
      modifies this, updater, rib, rib.entries.Values
      ensures Valid() && enqueued == old(enqueued)
      ensures u in old(exchange).flights
      ensures Concluded(Step(old(exchange), Sending.Event(u, reply)), old(history), history, old(current),
                        old(replies) + [Sending.Event(u, reply)], old(Fails()), crashed)
    {
      var calls := HandleRunning(u, reply);
      RibUntouched();
      Callbacks(calls);
    }

    // ----- a callback that comes too late -----

    lemma StillWaiting()
      requires Running() && exchange.calls == []
      ensures flights != map[]
    {
      ListsOk(log, current);
      OpenRest(current.route.faceId, BatchList(log, current), RestList(log, current), base.fib, replies);
    }

    /** The RIB takes the failure callback of a batch that has failed before for the end of the batch
        in progress: the next one may start while that batch's commands are still on their way. */
    method LateFailure()
      requires Valid() && !crashed && isUpdateInProgress
      modifies this`isUpdateInProgress
      ensures !isUpdateInProgress && flights != map[]
    {
      StillWaiting();
      isUpdateInProgress := false;
    }

    /** So does the success callback of such a batch. It leaves the RIB with the update of the failed
        batch and the records computed for the batch in progress. */
    method LateSuccess(failed: RibUpdate) returns (ghost mutated: Table)
      requires Valid() && !crashed && isUpdateInProgress
      modifies this`isUpdateInProgress, this`crashed, rib, rib.entries.Values
      ensures flights != map[] && isUpdateInProgress == crashed == RecordsFail(base.table, failed, Records(log))
      ensures !crashed ==>
                && Mutated(base.table, failed, mutated) && AllApplicable(mutated, Records(log))
                && rib.View() == ModifyInherited(mutated, Records(log))
    {
      StillWaiting();
      mutated := TakeSuccess(failed);
    }

    method TakeSuccess(failed: RibUpdate) returns (ghost mutated: Table)
      requires RibIs() && !crashed && updater.inheritedRoutes == Records(log)
      modifies this`isUpdateInProgress, this`crashed, rib, rib.entries.Values
      ensures isUpdateInProgress == crashed == RecordsFail(base.table, failed, Records(log))
      ensures !crashed ==>
                && Mutated(base.table, failed, mutated) && AllApplicable(mutated, Records(log))
                && rib.View() == ModifyInherited(mutated, Records(log))
    {
      var ok;
      ok, mutated := ApplyToRib(failed);
      label applied:
      isUpdateInProgress, crashed := !ok, !ok;
      RibUntouched@applied();
    }

    method HandleRunning(u: FibUpdate, reply: Sending.Reply) returns (calls: seq<Callback>)
      requires InOrder() && Running() && u in flights && exchange.calls == []
      modifies updater, this`flights, this`exchange, this`replies
      ensures InOrder() && Running() && calls == exchange.calls && |calls| <= 1
      ensures replies == old(replies) + [Sending.Event(u, reply)]
      ensures u in old(exchange).flights && exchange == old(Step(exchange, Sending.Event(u, reply)))
    {
      calls := Handle(u, reply);
      StillRunning();
    }

    twostate lemma StillRunning()
      requires old(Running()) && Exchanging()
      requires unchanged(this`isUpdateInProgress, this`current, this`base, this`order, this`log)
      ensures Running()
    {
    }

    /** The callbacks a handler makes, at most one. */
    method Callbacks(calls: seq<Callback>)
      requires InOrder() && Running() && !crashed && RibIs() && calls == exchange.calls && |calls| <= 1
      modifies this, updater, rib, rib.entries.Values
      ensures Valid() && enqueued == old(enqueued)
      ensures Concluded(old(exchange), old(history), history, old(current), old(replies), old(Fails()), crashed)
    {
      if calls == [OnSuccess] {
        OnFibUpdateSuccess();
      } else if calls == [OnFailure] {
        OnFibUpdateFailure();
      } else if calls != [] {
        OnlyThrown(calls);
        crashed := true;
      }
    }

    method Handle(u: FibUpdate, reply: Sending.Reply) returns (calls: seq<Callback>)
      requires Exchanging() && u in flights && exchange.calls == []
      modifies updater, this`flights, this`exchange, this`replies
      ensures Exchanging() && calls == exchange.calls && |calls| <= 1
      ensures replies == old(replies) + [Sending.Event(u, reply)]
      ensures u in old(exchange).flights && exchange == old(Step(exchange, Sending.Event(u, reply)))
    {
      var commands;
      NextPlay(Sending.Event(u, reply));
      commands, calls := Dispatch(u, reply, flights[u].timeouts);
      Advance(Sending.Event(u, reply), Put(flights - {u}, commands));
    }

    lemma NextPlay(ev: Sending.Event)
      requires Exchanging() && ev.update in flights && exchange.calls == []
      ensures Continues(ev)
    {
      PlayOneMore(StartOf(base, log, current), replies, ev);
    }

    /** One more reply takes the exchange one step further. */
    ghost predicate Continues(ev: Sending.Event)
      reads this`base, this`log, this`current, this`replies, this`exchange
    {
      && ev.update in exchange.flights
      && Playable(StartOf(base, log, current), replies + [ev])
      && Play(StartOf(base, log, current), replies + [ev]) == Step(exchange, ev)
    }

    method Advance(ghost ev: Sending.Event, open: map<FibUpdate, Flight>)
      requires Continues(ev) && updater.inheritedRoutes == Records(log)
      requires open == Step(exchange, ev).flights && updater.Holds(Step(exchange, ev))
      modifies this`flights, this`exchange, this`replies
      ensures Exchanging() && exchange == old(Step(exchange, ev)) && replies == old(replies) + [ev]
    {
      flights, exchange, replies := open, Step(exchange, ev), replies + [ev];
    }

    method Dispatch(u: FibUpdate, reply: Sending.Reply, timeouts: nat)
      returns (commands: seq<Command>, calls: seq<Callback>)
      requires u in exchange.flights && timeouts == exchange.flights[u].timeouts && updater.Holds(exchange)
      modifies updater`updatesForBatchFaceId, updater`updatesForNonBatchFaceId
      ensures var s := Step(exchange, Sending.Event(u, reply));
              && updater.Holds(s)
              && s.flights == Put(exchange.flights - {u}, commands)
              && s.calls == exchange.calls + calls && |calls| <= 1
    {
      ghost var s := Noted(exchange, Sending.Event(u, reply));
      if reply.Success? {
        commands, calls := updater.OnUpdateSuccess(u, s);
      } else {
        commands, calls := updater.OnUpdateError(u, reply.Timeout?, reply.FaceNotFound?, timeouts, s);
      }
    }
  }

  /** The removal of each route found, in order. */
  function RemovalsOf(found: seq<(Name, Route)>): (us: seq<RibUpdate>)
    ensures |us| == |found|
    ensures forall u: RibUpdate :: u in us <==> u.action == REMOVE_FACE && (u.name, u.route) in found
  {
    var us := seq(|found|, i requires 0 <= i < |found| => RibUpdate(REMOVE_FACE, found[i].0, found[i].1));
    assert forall u: RibUpdate :: u.action == REMOVE_FACE && (u.name, u.route) in found ==> u in us by {
      forall u: RibUpdate | u.action == REMOVE_FACE && (u.name, u.route) in found
        ensures u in us
      {
        var i :| 0 <= i < |found| && found[i] == (u.name, u.route);
        assert us[i] == u;
      }
    }
    us
  }

  lemma OnlyThrown(calls: seq<Callback>)
    requires |calls| == 1 && calls != [OnSuccess] && calls != [OnFailure]
    ensures calls == [Thrown]
  {
    assert calls == [calls[0]];
    match calls[0] {
      case OnSuccess =>
      case OnFailure =>
      case Thrown =>
    }
  }
}
