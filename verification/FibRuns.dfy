/** Whole runs of RIB batches: the FIB is right before and after every one. */
module FibRuns {
  import opened Names
  import opened Options
  import opened RibModel
  import opened EffectiveNextHops
  import opened FibDelta
  import opened FibCompute
  import opened FibRefinement
  import opened FibSteps
  import opened FibCommands
  import opened FibTheorem

  /** One batch: its update, the table order it is computed in, the table insert or erase leaves,
      and whether its commands succeed or the batch's own face is refused. */
  datatype Batch = Batch(order: seq<Name>, update: RibUpdate, mutated: Table, succeeds: bool)

  ghost predicate SameOnLiveFaces(a: Fib, b: Fib, dead: set<nat>) {
    forall n, f {:trigger FibAt(a, n, f)} {:trigger FibAt(b, n, f)} :: f !in dead ==> FibAt(a, n, f) == FibAt(b, n, f)
  }

  ghost predicate Ready(s: State, b: Batch) {
    Shape(s.table) && OrderOf(s.table, b.order) && Defined(s.table, b.update)
  }

  /** The RIB's assertions on the batch's inherited-route records. */
  ghost predicate AssertionsHold(s: State, b: Batch)
    requires Ready(s, b)
  {
    AllApplicable(b.mutated, Records(ComputeLog(s.table, b.order, b.update)))
  }

  /** A batch takes the RIB and the FIB from `s` to `s'`. When it succeeds, the commands for
      faces that vanish meanwhile are refused and say nothing about the FIB; when the batch's
      own face is refused, the RIB stays and only that face is in doubt. */
  ghost predicate Proceeds(s: State, b: Batch, s': State) {
    && (Ready(s, b) && !b.succeeds ==>
          && s'.table == s.table && s'.dead == s.dead + {b.update.route.faceId}
          && SameOnLiveFaces(s.fib, s'.fib, s'.dead))
    && (Ready(s, b) && b.succeeds && AssertionsHold(s, b) ==>
          var next := Next(s, ComputeLog(s.table, b.order, b.update), b.update, b.mutated);
          && s'.table == next.table && next.dead <= s'.dead
          && SameOnLiveFaces(next.fib, s'.fib, s'.dead))
  }

  ghost predicate Run(states: seq<State>, batches: seq<Batch>) {
    && |states| == |batches| + 1
    && states[0] == State(map[], map[], {})
    && forall i :: 0 <= i < |batches| ==>
         && OrderOf(states[i].table, batches[i].order)
         && Mutated(states[i].table, batches[i].update, batches[i].mutated)
         && SingleRouteCommand(states[i], batches[i].update)
         && Keeps(states[i].table, batches[i].update)
         && Proceeds(states[i], batches[i], states[i + 1])
  }

  lemma StepKeepsInv(s: State, b: Batch, s': State)
    requires Inv(s) && OrderOf(s.table, b.order) && Mutated(s.table, b.update, b.mutated)
    requires SingleRouteCommand(s, b.update) && Keeps(s.table, b.update) && Proceeds(s, b, s')
    ensures Ready(s, b) && AssertionsHold(s, b) && Inv(s')
  {
    StepExact(s, b.order, b.update, b.mutated);
    var next := if b.succeeds then Next(s, ComputeLog(s.table, b.order, b.update), b.update, b.mutated) else s;
    forall n, f {:trigger FibAt(s'.fib, n, f)} | f !in s'.dead
      ensures FibAt(s'.fib, n, f) == Effective(RoutesOf(s'.table), n, f)
    {
      assert FibAt(next.fib, n, f) == Effective(RoutesOf(next.table), n, f);
    }
  }

  /** Whole-run refinement: in every run of the domain, before and after every batch the FIB is
      the effective next-hop function of the RIB, and no assertion on the records ever fails. */
  lemma {:induction false} RunRefines(states: seq<State>, batches: seq<Batch>, k: nat)
    requires Run(states, batches) && k < |states|
    ensures Inv(states[k])
    ensures k < |batches| ==> Ready(states[k], batches[k]) && AssertionsHold(states[k], batches[k])
  {
    if k == 0 {
      EmptyInv();
    } else {
      RunRefines(states, batches, k - 1);
      StepKeepsInv(states[k - 1], batches[k - 1], states[k]);
    }
    if k < |batches| {
      StepKeepsInv(states[k], batches[k], states[k + 1]);
    }
  }
}
