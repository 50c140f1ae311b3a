/** The two-phase exchange with the FIB: the commands for the batch's face go first, the others
    only when all of those succeeded. The machine below has every interleaving of replies. */
module FibSending {
  import opened Names
  import opened Options
  import opened RibModel
  import opened FibCompute

  const MAX_NUM_TIMEOUTS: nat := 10

  /** What the forwarder answers. A command that timed out may or may not have been applied. */
  datatype Reply = Success | Timeout(applied: bool) | FaceNotFound | OtherError

  /** A command on its way: the verb it was last sent with and its timeouts so far. */
  datatype Flight = Flight(add: bool, timeouts: nat)

  datatype Callback = OnSuccess | OnFailure | Thrown

  /** `acked`, `refused` and `retried` record the replies; `sent` and `calls` record, in order,
      the updates transmitted and the callbacks made. */
  datatype Sender = Sender(face: nat, batch: seq<FibUpdate>, rest: seq<FibUpdate>, flights: map<FibUpdate, Flight>,
                           fib: Fib, sent: seq<FibUpdate>, calls: seq<Callback>,
                           acked: set<FibUpdate>, refused: set<FibUpdate>, retried: set<FibUpdate>)

  datatype Event = Event(update: FibUpdate, reply: Reply)

  function Remove(list: seq<FibUpdate>, u: FibUpdate): seq<FibUpdate> {
    if list == [] then [] else (if list[0] == u then [] else [list[0]]) + Remove(list[1..], u)
  }

  /** sendUpdates: every update of the list leaves with its own verb. */
  function Launch(s: Sender, list: seq<FibUpdate>): Sender {
    s.(flights := s.flights + map u | u in list :: Flight(u.add, 0), sent := s.sent + list)
  }

  /** sendUpdatesForNonBatchFaceId. */
  function BeginRest(s: Sender): Sender {
    if s.rest != [] then Launch(s, s.rest) else s.(calls := s.calls + [OnSuccess])
  }

  /** sendUpdatesForBatchFaceId. */
  function Begin(face: nat, batch: seq<FibUpdate>, rest: seq<FibUpdate>, fib: Fib): Sender {
    var s := Sender(face, batch, rest, map[], fib, [], [], {}, {}, {});
    if batch != [] then Launch(s, batch) else BeginRest(s)
  }

  /** A command as handed to the controller. */
  datatype Command = Command(update: FibUpdate, add: bool, timeouts: nat)

  function CommandsOf(list: seq<FibUpdate>): (cs: seq<Command>)
    ensures |cs| == |list|
  {
    seq(|list|, i requires 0 <= i < |list| => Command(list[i], list[i].add, 0))
  }

  function UpdatesOf(cs: seq<Command>): (list: seq<FibUpdate>)
    ensures |list| == |cs|
  {
    seq(|cs|, i requires 0 <= i < |cs| => cs[i].update)
  }

  function Put(flights: map<FibUpdate, Flight>, cs: seq<Command>): map<FibUpdate, Flight> {
    if cs == [] then flights
    else Put(flights, cs[..|cs| - 1])[cs[|cs| - 1].update := Flight(cs[|cs| - 1].add, cs[|cs| - 1].timeouts)]
  }

  lemma {:induction false} PutList(flights: map<FibUpdate, Flight>, list: seq<FibUpdate>)
    ensures Put(flights, CommandsOf(list)) == flights + map u | u in list :: Flight(u.add, 0)
  {
    if list != [] {
      var front, last := list[..|list| - 1], list[|list| - 1];
      assert CommandsOf(list)[..|list| - 1] == CommandsOf(front);
      PutList(flights, front);
      LaunchLast(flights, list);
    }
  }

  lemma LaunchLast(flights: map<FibUpdate, Flight>, list: seq<FibUpdate>)
    requires list != []
    ensures var front, last := list[..|list| - 1], list[|list| - 1];
            (flights + map u | u in list :: Flight(u.add, 0))
            == (flights + map u | u in front :: Flight(u.add, 0))[last := Flight(last.add, 0)]
  {
    assert forall u :: u in list <==> u in list[..|list| - 1] || u == list[|list| - 1];
  }

  lemma UpdatesOfCommands(list: seq<FibUpdate>)
    ensures UpdatesOf(CommandsOf(list)) == list
  {
  }

  function ApplyCommand(fib: Fib, u: FibUpdate, add: bool): Fib {
    if add then fib[(u.name, u.faceId) := u.cost] else fib - {(u.name, u.faceId)}
  }

  /** The update leaves the list of other faces; an empty list ends the batch. */
  function DropFromRest(s: Sender, u: FibUpdate): Sender {
    var s' := s.(rest := Remove(s.rest, u));
    if s'.rest == [] then s'.(calls := s'.calls + [OnSuccess]) else s'
  }

  /** onUpdateSuccess. */
  function Succeed(s: Sender, u: FibUpdate): Sender {
    if u.faceId == s.face then
      var s' := s.(batch := Remove(s.batch, u));
      if s'.batch == [] then BeginRest(s') else s'
    else DropFromRest(s, u)
  }

  /** onUpdateError: every retry goes out as an add, whatever the update's own verb. */
  function Fail(s: Sender, u: FibUpdate, timedOut: bool, notFound: bool, timeouts: nat): Sender {
    if timedOut && timeouts < MAX_NUM_TIMEOUTS then
      s.(flights := s.flights[u := Flight(true, timeouts + 1)], sent := s.sent + [u])
    else if notFound then
      if u.faceId == s.face then s.(calls := s.calls + [OnFailure]) else DropFromRest(s, u)
    else s.(calls := s.calls + [Thrown])
  }

  /** One reply arrives: the forwarder has acted, the command is no longer on its way, and the
      callback bound to it runs. */
  function Step(s: Sender, ev: Event): Sender
    requires ev.update in s.flights
  {
    var u := ev.update;
    var f := s.flights[u];
    var s0 := s.(flights := s.flights - {u});
    match ev.reply
    case Success => Succeed(s0.(fib := ApplyCommand(s.fib, u, f.add), acked := s.acked + {u}), u)
    case Timeout(applied) =>
      Fail(s0.(fib := if applied then ApplyCommand(s.fib, u, f.add) else s.fib, retried := s.retried + {u}),
           u, true, false, f.timeouts)
    case FaceNotFound => Fail(s0.(refused := s.refused + {u}), u, false, true, f.timeouts)
    case OtherError => Fail(s0, u, false, false, f.timeouts)
  }

  // ----- runs -----

  /** A run until an exception ends it: each reply answers a command on its way. */
  predicate Playable(s: Sender, evs: seq<Event>)
    decreases |evs|
  {
    evs == [] || (evs[0].update in s.flights && Thrown !in s.calls && Playable(Step(s, evs[0]), evs[1..]))
  }

  function Play(s: Sender, evs: seq<Event>): Sender
    requires Playable(s, evs)
    decreases |evs|
  {
    if evs == [] then s else Play(Step(s, evs[0]), evs[1..])
  }

  // ----- lists less the updates already settled -----

  function Remaining(list: seq<FibUpdate>, gone: set<FibUpdate>): (l: seq<FibUpdate>)
    ensures forall u :: u in l <==> u in list && u !in gone
  {
    if list == [] then []
    else
      assert forall u :: u in list <==> u == list[0] || u in list[1..];
      (if list[0] in gone then [] else [list[0]]) + Remaining(list[1..], gone)
  }

  lemma {:induction false} RemainingNone(list: seq<FibUpdate>)
    ensures Remaining(list, {}) == list
  {
    if list != [] {
      RemainingNone(list[1..]);
    }
  }

  lemma {:induction false} RemoveFromRemaining(list: seq<FibUpdate>, gone: set<FibUpdate>, u: FibUpdate)
    ensures Remove(Remaining(list, gone), u) == Remaining(list, gone + {u})
  {
    if list != [] {
      RemoveFromRemaining(list[1..], gone, u);
      var rest := Remaining(list[1..], gone);
      if list[0] !in gone {
        assert ([list[0]] + rest)[1..] == rest;
      } else {
        assert [] + rest == rest;
      }
    }
  }

  lemma {:induction false} RemainingIrrelevant(list: seq<FibUpdate>, gone: set<FibUpdate>, u: FibUpdate)
    requires u !in list
    ensures Remaining(list, gone + {u}) == Remaining(list, gone)
  {
    if list != [] {
      RemainingIrrelevant(list[1..], gone, u);
    }
  }

  function Count(sent: seq<FibUpdate>, u: FibUpdate): (n: nat)
    ensures n > 0 <==> u in sent
  {
    if sent == [] then 0
    else
      assert u in sent <==> u == sent[0] || u in sent[1..];
      (if sent[0] == u then 1 else 0) + Count(sent[1..], u)
  }

  lemma {:induction false} CountConcat(a: seq<FibUpdate>, b: seq<FibUpdate>, u: FibUpdate)
    ensures Count(a + b, u) == Count(a, u) + Count(b, u)
  {
    if a == [] {
      assert a + b == b;
    } else {
      assert (a + b)[1..] == a[1..] + b;
      CountConcat(a[1..], b, u);
    }
  }

  lemma {:induction false} CountUnique(list: seq<FibUpdate>, u: FibUpdate)
    requires UniqueKeys(list)
    ensures Count(list, u) == if u in list then 1 else 0
  {
    if list != [] {
      CountUnique(list[1..], u);
      assert forall v :: v in list[1..] ==> !SameKey(list[0], v);
    }
  }

  // ----- what holds throughout -----

  /** The lists the batch started with: one update per name and face, sorted by face. */
  ghost predicate Lists(face: nat, b: seq<FibUpdate>, r: seq<FibUpdate>) {
    && UniqueKeys(b) && UniqueKeys(r)
    && (forall u :: u in b ==> u.faceId == face)
    && (forall u :: u in r ==> u.faceId != face)
  }

  /** The update's list has been sent: at once for the batch's face, for the other faces only
      when nothing of the batch's face is left. */
  ghost predicate Due(s: Sender, u: FibUpdate, b: seq<FibUpdate>, r: seq<FibUpdate>) {
    u in b || (s.batch == [] && u in r)
  }

  predicate Settled(s: Sender, u: FibUpdate) {
    u in s.acked || u in s.refused
  }

  /** What holds of one update: the due and unsettled ones are on their way, each has left once
      more often than it timed out, never more than eleven times, and the first time with its
      own verb. */
  ghost predicate UpdateOk(s: Sender, u: FibUpdate, b: seq<FibUpdate>, r: seq<FibUpdate>) {
    && (Settled(s, u) || u in s.retried || u in s.sent ==> Due(s, u, b, r))
    && !(u in s.acked && u in s.refused)
    && (u in s.flights ==> Due(s, u, b, r) && !Settled(s, u))
    && (Thrown !in s.calls && Due(s, u, b, r) && !Settled(s, u) ==> u in s.flights)
    && Count(s.sent, u) <= MAX_NUM_TIMEOUTS + 1
    && (u in s.flights ==>
          && Count(s.sent, u) == s.flights[u].timeouts + 1
          && (s.flights[u].timeouts > 0 <==> u in s.retried)
          && s.flights[u].add == (u.add || u in s.retried))
  }

  ghost predicate AllUpdatesOk(s: Sender, b: seq<FibUpdate>, r: seq<FibUpdate>) {
    forall u :: UpdateOk(s, u, b, r)
  }

  /** The lists are those updates not yet settled. */
  ghost predicate ListsTrack(s: Sender, b: seq<FibUpdate>, r: seq<FibUpdate>) {
    s.batch == Remaining(b, s.acked) && s.rest == Remaining(r, s.acked + s.refused)
  }

  /** One success callback, exactly when both lists are empty; a failure callback once an update
      of the batch's face is refused, and then no success. */
  ghost predicate CallsTrack(s: Sender, b: seq<FibUpdate>) {
    && (OnSuccess in s.calls <==> s.batch == [] && s.rest == [])
    && (OnSuccess in s.calls ==> s.calls == [OnSuccess])
    && (OnFailure in s.calls <==> exists u :: u in b && u in s.refused)
  }

  ghost predicate SendInv(s: Sender, b: seq<FibUpdate>, r: seq<FibUpdate>) {
    Lists(s.face, b, r) && ListsTrack(s, b, r) && AllUpdatesOk(s, b, r) && CallsTrack(s, b)
  }

  /** Before a list leaves, nothing of it has a history. */
  ghost predicate Fresh(s: Sender, list: seq<FibUpdate>) {
    forall u :: u in list ==> !Settled(s, u) && u !in s.retried && u !in s.sent
  }

  lemma LaunchKeeps(s: Sender, list: seq<FibUpdate>, b: seq<FibUpdate>, r: seq<FibUpdate>, u: FibUpdate)
    requires Lists(s.face, b, r) && s.flights == map[] && Fresh(s, list)
    requires list == if s.batch != [] then b else r
    requires Settled(s, u) || u in s.retried || u in s.sent ==> u in b
    requires u in b && u !in list ==> Settled(s, u)
    requires !(u in s.acked && u in s.refused) && Count(s.sent, u) <= MAX_NUM_TIMEOUTS + 1
    ensures UpdateOk(Launch(s, list), u, b, r)
  {
    CountConcat(s.sent, list, u);
    CountUnique(list, u);
  }

  lemma BeginKeeps(face: nat, b: seq<FibUpdate>, r: seq<FibUpdate>, fib: Fib)
    requires Lists(face, b, r)
    ensures SendInv(Begin(face, b, r, fib), b, r)
  {
    RemainingNone(b);
    RemainingNone(r);
    var s := Sender(face, b, r, map[], fib, [], [], {}, {}, {});
    assert s.acked + s.refused == {};
    forall u
      ensures UpdateOk(Begin(face, b, r, fib), u, b, r)
    {
      if b != [] {
        LaunchKeeps(s, b, b, r, u);
      } else if r != [] {
        LaunchKeeps(s, r, b, r, u);
      }
    }
  }

  /** `u` stops being on its way and its reply is noted. */
  function Noted(s: Sender, ev: Event): Sender
    requires ev.update in s.flights
  {
    var u := ev.update;
    var s0 := s.(flights := s.flights - {u});
    match ev.reply
    case Success => s0.(fib := ApplyCommand(s.fib, u, s.flights[u].add), acked := s.acked + {u})
    case Timeout(applied) =>
      s0.(fib := if applied then ApplyCommand(s.fib, u, s.flights[u].add) else s.fib, retried := s.retried + {u})
    case FaceNotFound => s0.(refused := s.refused + {u})
    case OtherError => s0
  }

  lemma LaunchRestKeeps(s: Sender, b: seq<FibUpdate>, r: seq<FibUpdate>)
    requires Lists(s.face, b, r) && s.batch == [] && s.rest == r && s.flights == map[] && s.calls == []
    requires ListsTrack(s, b, r)
    requires forall u :: (Settled(s, u) || u in s.retried || u in s.sent ==> u in b) && (u in b ==> u in s.acked)
    requires forall u :: u !in s.refused
    requires forall u {:trigger Count(s.sent, u)} :: Count(s.sent, u) <= MAX_NUM_TIMEOUTS + 1
    ensures SendInv(BeginRest(s), b, r)
  {
    var s' := BeginRest(s);
    forall u
      ensures UpdateOk(s', u, b, r)
    {
      if r != [] {
        LaunchKeeps(s, r, b, r, u);
      }
    }
  }

  /** When only `u` of the batch's face is left, the rest of the list has succeeded. */
  lemma OnlyOneLeft(s: Sender, u: FibUpdate, b: seq<FibUpdate>, r: seq<FibUpdate>, v: FibUpdate)
    requires SendInv(s, b, r) && s.batch != [] && Remaining(b, s.acked + {u}) == []
    ensures v in b ==> v in s.acked + {u}
    ensures v != u ==> v !in s.flights
    ensures v in s.refused ==> v == u
    ensures Settled(s, v) || v in s.retried || v in s.sent ==> v in b
    ensures Count(s.sent, v) <= MAX_NUM_TIMEOUTS + 1
  {
    assert UpdateOk(s, v, b, r);
    assert v in Remaining(b, s.acked + {u}) <==> v in b && v !in s.acked + {u};
  }

  lemma NoCallback(s: Sender)
    requires OnSuccess !in s.calls && OnFailure !in s.calls && Thrown !in s.calls
    ensures s.calls == []
  {
    if s.calls != [] {
      SomeCallback(s.calls);
    }
  }

  lemma SomeCallback(calls: seq<Callback>)
    requires calls != []
    ensures OnSuccess in calls || OnFailure in calls || Thrown in calls
  {
    var c := calls[0];
    assert c in calls;
    match c
    case OnSuccess =>
    case OnFailure =>
    case Thrown =>
  }

  /** The last update of the batch's face succeeds: the others start. */
  lemma LastOfBatchKeeps(s: Sender, ev: Event, b: seq<FibUpdate>, r: seq<FibUpdate>)
    requires SendInv(s, b, r) && ev.update in s.flights && Thrown !in s.calls
    requires ev.reply == Success && ev.update.faceId == s.face && Remove(s.batch, ev.update) == []
    ensures SendInv(Step(s, ev), b, r)
  {
    var u := ev.update;
    assert UpdateOk(s, u, b, r);
    RemoveFromRemaining(b, s.acked, u);
    NothingOfRest(s, b, r);
    LastRest(s, ev, b, r);
    forall v
      ensures v in b ==> v in s.acked + {u}
      ensures v != u ==> v !in s.flights
      ensures v in s.refused ==> v == u
      ensures Settled(s, v) || v in s.retried || v in s.sent ==> v in b
      ensures Count(s.sent, v) <= MAX_NUM_TIMEOUTS + 1
    {
      OnlyOneLeft(s, u, b, r, v);
    }
    NoCallback(s);
    LaunchRestKeeps(Noted(s, ev).(batch := []), b, r);
  }

  lemma LastRest(s: Sender, ev: Event, b: seq<FibUpdate>, r: seq<FibUpdate>)
    requires SendInv(s, b, r) && ev.update in s.flights && s.rest == r
    requires ev.reply == Success && ev.update.faceId == s.face && Remaining(b, s.acked + {ev.update}) == []
    ensures ListsTrack(Noted(s, ev).(batch := []), b, r)
  {
    var u := ev.update;
    RemainingIrrelevant(r, s.acked + s.refused, u);
    assert s.acked + {u} + s.refused == s.acked + s.refused + {u};
  }

  /** While the batch's face is not done, nothing of the other list is settled. */
  lemma NothingOfRest(s: Sender, b: seq<FibUpdate>, r: seq<FibUpdate>)
    requires SendInv(s, b, r) && s.batch != []
    ensures s.rest == r && OnSuccess !in s.calls
  {
    forall u | u in r
      ensures u !in s.acked + s.refused
    {
      assert UpdateOk(s, u, b, r);
    }
    RemainingAll(r, s.acked + s.refused);
  }

  lemma {:induction false} RemainingAll(list: seq<FibUpdate>, gone: set<FibUpdate>)
    requires forall u :: u in list ==> u !in gone
    ensures Remaining(list, gone) == list
  {
    if list != [] {
      RemainingAll(list[1..], gone);
    }
  }

  /** The other lemmas' common part: `u` is settled by the reply, the phase stays. */
  lemma SettledKeeps(s: Sender, s': Sender, u: FibUpdate, b: seq<FibUpdate>, r: seq<FibUpdate>, v: FibUpdate)
    requires UpdateOk(s, v, b, r) && UpdateOk(s, u, b, r) && u in s.flights && Thrown !in s.calls
    requires s'.flights == s.flights - {u} && s'.sent == s.sent && s'.retried == s.retried
    requires || (s'.acked == s.acked + {u} && s'.refused == s.refused)
             || (s'.acked == s.acked && s'.refused == s.refused + {u})
    requires s'.batch == [] <==> s.batch == []
    ensures UpdateOk(s', v, b, r)
  {
  }

  /** Some, not all, of the batch's face is done. */
  lemma MoreOfBatchKeeps(s: Sender, ev: Event, b: seq<FibUpdate>, r: seq<FibUpdate>)
    requires SendInv(s, b, r) && ev.update in s.flights && Thrown !in s.calls
    requires ev.reply == Success && ev.update.faceId == s.face && Remove(s.batch, ev.update) != []
    ensures SendInv(Step(s, ev), b, r)
  {
    var u := ev.update;
    var s' := Step(s, ev);
    assert UpdateOk(s, u, b, r);
    RemoveFromRemaining(b, s.acked, u);
    RemainingIrrelevant(r, s.acked + s.refused, u);
    assert s'.acked + s'.refused == s.acked + s.refused + {u};
    forall v
      ensures UpdateOk(s', v, b, r)
    {
      assert UpdateOk(s, v, b, r);
      SettledKeeps(s, s', u, b, r, v);
    }
  }

  /** An update of another face is done with, by success or by refusal. */
  lemma RestKeeps(s: Sender, ev: Event, b: seq<FibUpdate>, r: seq<FibUpdate>)
    requires SendInv(s, b, r) && ev.update in s.flights && Thrown !in s.calls
    requires (ev.reply == Success || ev.reply == FaceNotFound) && ev.update.faceId != s.face
    ensures SendInv(Step(s, ev), b, r)
  {
    RestCalls(s, ev.update, b, r);
    RestLists(s, ev, b, r);
    RestUpdates(s, ev, b, r);
    RestCallsTrack(s, ev, b, r);
  }

  lemma RestUpdates(s: Sender, ev: Event, b: seq<FibUpdate>, r: seq<FibUpdate>)
    requires AllUpdatesOk(s, b, r) && ev.update in s.flights && Thrown !in s.calls
    requires (ev.reply == Success || ev.reply == FaceNotFound) && ev.update.faceId != s.face
    ensures AllUpdatesOk(Step(s, ev), b, r)
  {
    assert UpdateOk(s, ev.update, b, r);
    forall v
      ensures UpdateOk(Step(s, ev), v, b, r)
    {
      assert UpdateOk(s, v, b, r);
      SettledKeeps(s, Step(s, ev), ev.update, b, r, v);
    }
  }

  lemma RestCallsTrack(s: Sender, ev: Event, b: seq<FibUpdate>, r: seq<FibUpdate>)
    requires s.batch == [] && s.calls == [] && ev.update in s.flights
    requires forall v :: v in b ==> v !in s.refused && v.faceId == s.face
    requires (ev.reply == Success || ev.reply == FaceNotFound) && ev.update.faceId != s.face
    ensures CallsTrack(Step(s, ev), b)
  {
  }

  lemma RestLists(s: Sender, ev: Event, b: seq<FibUpdate>, r: seq<FibUpdate>)
    requires ListsTrack(s, b, r) && ev.update in s.flights && ev.update !in b
    requires (ev.reply == Success || ev.reply == FaceNotFound) && ev.update.faceId != s.face
    ensures ListsTrack(Step(s, ev), b, r)
  {
    var u := ev.update;
    var s' := Step(s, ev);
    RemoveFromRemaining(r, s.acked + s.refused, u);
    RemainingIrrelevant(b, s.acked, u);
    assert s'.acked + s'.refused == s.acked + s.refused + {u};
  }

  /** The batch's face is done when an update of another face is on its way, so no callback was made. */
  lemma RestCalls(s: Sender, u: FibUpdate, b: seq<FibUpdate>, r: seq<FibUpdate>)
    requires SendInv(s, b, r) && u in s.flights && u.faceId != s.face && Thrown !in s.calls
    ensures s.batch == [] && s.rest != [] && s.calls == []
    ensures forall v :: v in b ==> v in s.acked && v !in s.refused
  {
    assert UpdateOk(s, u, b, r);
    assert u in Remaining(r, s.acked + s.refused);
    forall v | v in b
      ensures v in s.acked && v !in s.refused
    {
      assert UpdateOk(s, v, b, r);
      assert v in Remaining(b, s.acked) <==> v !in s.acked;
    }
    NoCallback(s);
  }

  lemma RetryKeeps(s: Sender, ev: Event, b: seq<FibUpdate>, r: seq<FibUpdate>)
    requires SendInv(s, b, r) && ev.update in s.flights && Thrown !in s.calls
    requires ev.reply.Timeout? && s.flights[ev.update].timeouts < MAX_NUM_TIMEOUTS
    ensures SendInv(Step(s, ev), b, r)
  {
    var u := ev.update;
    var s' := Step(s, ev);
    forall v
      ensures UpdateOk(s', v, b, r)
    {
      assert UpdateOk(s, v, b, r) && UpdateOk(s, u, b, r);
      CountConcat(s.sent, [u], v);
      assert [u][1..] == [];
    }
  }

  lemma RefusedBatchKeeps(s: Sender, ev: Event, b: seq<FibUpdate>, r: seq<FibUpdate>)
    requires SendInv(s, b, r) && ev.update in s.flights && Thrown !in s.calls
    requires ev.reply == FaceNotFound && ev.update.faceId == s.face
    ensures SendInv(Step(s, ev), b, r)
  {
    var u := ev.update;
    var s' := Step(s, ev);
    assert UpdateOk(s, u, b, r);
    RemainingIrrelevant(r, s.acked + s.refused, u);
    assert s'.acked + s'.refused == s.acked + s.refused + {u};
    assert u in Remaining(b, s.acked);
    forall v
      ensures UpdateOk(s', v, b, r)
    {
      assert UpdateOk(s, v, b, r);
      SettledKeeps(s, s', u, b, r, v);
    }
  }

  lemma ThrownKeeps(s: Sender, ev: Event, b: seq<FibUpdate>, r: seq<FibUpdate>)
    requires SendInv(s, b, r) && ev.update in s.flights && Thrown !in s.calls
    requires ev.reply == OtherError || (ev.reply.Timeout? && s.flights[ev.update].timeouts >= MAX_NUM_TIMEOUTS)
    ensures SendInv(Step(s, ev), b, r)
  {
    var u := ev.update;
    var s' := Step(s, ev);
    StillOpen(s, u, b, r);
    forall v
      ensures UpdateOk(s', v, b, r)
    {
      assert UpdateOk(s, v, b, r) && UpdateOk(s, u, b, r);
    }
  }

  /** No success callback while a command is on its way. */
  lemma StillOpen(s: Sender, u: FibUpdate, b: seq<FibUpdate>, r: seq<FibUpdate>)
    requires SendInv(s, b, r) && u in s.flights
    ensures OnSuccess !in s.calls
  {
    assert UpdateOk(s, u, b, r);
    assert u in b ==> u in Remaining(b, s.acked);
    assert u in r ==> u in Remaining(r, s.acked + s.refused);
  }

  /** Every reply keeps the invariant. */
  lemma StepKeeps(s: Sender, ev: Event, b: seq<FibUpdate>, r: seq<FibUpdate>)
    requires SendInv(s, b, r) && ev.update in s.flights && Thrown !in s.calls
    ensures SendInv(Step(s, ev), b, r)
  {
    var u := ev.update;
    if ev.reply.Timeout? && s.flights[u].timeouts < MAX_NUM_TIMEOUTS {
      RetryKeeps(s, ev, b, r);
    } else if ev.reply.Timeout? || ev.reply == OtherError {
      ThrownKeeps(s, ev, b, r);
    } else if u.faceId != s.face {
      RestKeeps(s, ev, b, r);
    } else if ev.reply == FaceNotFound {
      RefusedBatchKeeps(s, ev, b, r);
    } else if Remove(s.batch, u) == [] {
      LastOfBatchKeeps(s, ev, b, r);
    } else {
      MoreOfBatchKeeps(s, ev, b, r);
    }
  }

  lemma {:induction false} RunKeeps(s: Sender, evs: seq<Event>, b: seq<FibUpdate>, r: seq<FibUpdate>)
    requires SendInv(s, b, r) && Playable(s, evs)
    ensures SendInv(Play(s, evs), b, r)
    decreases |evs|
  {
    if evs != [] {
      StepKeeps(s, evs[0], b, r);
      RunKeeps(Step(s, evs[0]), evs[1..], b, r);
    }
  }

  // ----- what the replies were -----

  lemma {:induction false} RepliesNoted(s: Sender, evs: seq<Event>, u: FibUpdate)
    requires Playable(s, evs)
    ensures var s' := Play(s, evs);
            && (u in s'.acked <==> u in s.acked || Event(u, Success) in evs)
            && (u in s'.refused <==> u in s.refused || Event(u, FaceNotFound) in evs)
            && (u in s'.retried
                <==> u in s.retried || Event(u, Timeout(true)) in evs || Event(u, Timeout(false)) in evs)
            && s'.face == s.face
    decreases |evs|
  {
    if evs != [] {
      RepliesNoted(Step(s, evs[0]), evs[1..], u);
      ReplyNoted(s, evs[0], u);
      assert forall e :: e in evs <==> e == evs[0] || e in evs[1..];
    }
  }

  lemma ReplyNoted(s: Sender, ev: Event, u: FibUpdate)
    requires ev.update in s.flights
    ensures var s' := Step(s, ev);
            && (u in s'.acked <==> u in s.acked || ev == Event(u, Success))
            && (u in s'.refused <==> u in s.refused || ev == Event(u, FaceNotFound))
            && (u in s'.retried <==> u in s.retried || ev == Event(u, Timeout(true)) || ev == Event(u, Timeout(false)))
            && s'.face == s.face
  {
  }

  /** Every reply uses up one transmission. */
  lemma {:induction false} RepliesCounted(s: Sender, evs: seq<Event>, b: seq<FibUpdate>, r: seq<FibUpdate>)
    requires SendInv(s, b, r) && Playable(s, evs)
    ensures |evs| + |Play(s, evs).flights| - |s.flights| == |Play(s, evs).sent| - |s.sent|
    decreases |evs|
  {
    if evs != [] {
      var s' := Step(s, evs[0]);
      StepKeeps(s, evs[0], b, r);
      StepCounted(s, evs[0], b, r);
      RepliesCounted(s', evs[1..], b, r);
    }
  }

  lemma StepCounted(s: Sender, ev: Event, b: seq<FibUpdate>, r: seq<FibUpdate>)
    requires SendInv(s, b, r) && ev.update in s.flights && Thrown !in s.calls
    ensures |Step(s, ev).flights| - |s.flights| + 1 == |Step(s, ev).sent| - |s.sent|
  {
    var u := ev.update;
    KeysLess(s.flights, u, Flight(true, s.flights[u].timeouts + 1));
    if ev.reply == Success && u.faceId == s.face && Remove(s.batch, u) == [] && s.rest != [] {
      LastCounted(s, ev, b, r);
    }
  }

  lemma LastCounted(s: Sender, ev: Event, b: seq<FibUpdate>, r: seq<FibUpdate>)
    requires SendInv(s, b, r) && ev.update in s.flights && Thrown !in s.calls
    requires ev.reply == Success && ev.update.faceId == s.face && Remove(s.batch, ev.update) == [] && s.rest != []
    ensures |Step(s, ev).flights| - |s.flights| + 1 == |Step(s, ev).sent| - |s.sent|
  {
    var u := ev.update;
    assert UpdateOk(s, u, b, r);
    RemoveFromRemaining(b, s.acked, u);
    NothingOfRest(s, b, r);
    forall v
      ensures v != u ==> v !in s.flights
    {
      OnlyOneLeft(s, u, b, r, v);
    }
    OnlyFlight(s.flights, u);
    RestCounted(Noted(s, ev).(batch := []), r);
  }

  lemma OnlyFlight(m: map<FibUpdate, Flight>, u: FibUpdate)
    requires u in m && forall v :: v in m ==> v == u
    ensures |m| == 1 && m - {u} == map[]
  {
    assert m.Keys == {u};
    assert |m| == |m.Keys|;
  }

  lemma RestCounted(s: Sender, r: seq<FibUpdate>)
    requires UniqueKeys(r) && s.rest == r && s.flights == map[]
    ensures |BeginRest(s).flights| == |BeginRest(s).sent| - |s.sent|
  {
    LaunchSize(r);
    assert s.flights + (map u | u in r :: Flight(u.add, 0)) == map u | u in r :: Flight(u.add, 0);
  }

  lemma KeysLess(m: map<FibUpdate, Flight>, u: FibUpdate, f: Flight)
    requires u in m
    ensures |m - {u}| == |m| - 1
    ensures |(m - {u})[u := f]| == |m|
  {
    assert (m - {u}).Keys == m.Keys - {u};
    assert |(m - {u}).Keys| == |m.Keys| - 1;
    assert (m - {u})[u := f].Keys == m.Keys;
    assert |(m - {u})[u := f].Keys| == |m.Keys|;
  }

  lemma {:induction false} LaunchSize(list: seq<FibUpdate>)
    requires UniqueKeys(list)
    ensures |map u | u in list :: Flight(u.add, 0)| == |list|
  {
    if list != [] {
      var m, m' := map u | u in list :: Flight(u.add, 0), map u | u in list[1..] :: Flight(u.add, 0);
      assert forall v :: v in list[1..] ==> !SameKey(list[0], v);
      assert m == m'[list[0] := Flight(list[0].add, 0)];
      LaunchSize(list[1..]);
    }
  }

  lemma {:induction false} BoundedCounts(sent: seq<FibUpdate>, kinds: set<FibUpdate>, most: nat)
    requires forall u :: u in sent ==> u in kinds
    requires forall u {:trigger Count(sent, u)} :: Count(sent, u) <= most
    ensures |sent| <= most * |kinds|
    decreases |kinds|
  {
    if sent != [] {
      var x := sent[0];
      var others := Remove(sent, x);
      forall u
        ensures Count(others, u) == if u == x then 0 else Count(sent, u)
        ensures u in others ==> u in kinds - {x}
      {
        CountRemoved(sent, x, u);
      }
      LengthRemoved(sent, x);
      BoundedCounts(others, kinds - {x}, most);
      Distribute(most, |kinds - {x}|, |kinds|);
    }
  }

  lemma Distribute(most: nat, fewer: nat, all: nat)
    requires fewer + 1 == all
    ensures most * fewer + most == most * all
  {
  }

  lemma {:induction false} CountRemoved(sent: seq<FibUpdate>, x: FibUpdate, u: FibUpdate)
    ensures Count(Remove(sent, x), u) == if u == x then 0 else Count(sent, u)
  {
    if sent != [] {
      CountRemoved(sent[1..], x, u);
      var rest := Remove(sent[1..], x);
      if sent[0] != x {
        assert ([sent[0]] + rest)[1..] == rest;
      } else {
        assert [] + rest == rest;
      }
    }
  }

  lemma {:induction false} LengthRemoved(sent: seq<FibUpdate>, x: FibUpdate)
    ensures |Remove(sent, x)| + Count(sent, x) == |sent|
  {
    if sent != [] {
      LengthRemoved(sent[1..], x);
    }
  }

  // ----- the theorem on the exchange -----

  /** Over every interleaving of replies to one batch's commands: nothing for another face
      leaves before every update of the batch's face succeeded; the success callback is made
      exactly when every update of the batch's face succeeded and every other succeeded or was
      refused, once, and no other callback is made with it; the failure callback is made exactly
      when an update of the batch's face was refused; each update leaves at most eleven times;
      and until a callback is made some reply is still to come, of which there are at most
      eleven for each update. */
  lemma TwoPhaseSend(face: nat, b: seq<FibUpdate>, r: seq<FibUpdate>, fib: Fib, evs: seq<Event>)
    requires Lists(face, b, r) && Playable(Begin(face, b, r, fib), evs)
    ensures var s := Play(Begin(face, b, r, fib), evs);
            && (forall u, v :: u in r && u in s.sent && v in b ==> Event(v, Success) in evs)
            && (OnSuccess in s.calls <==>
                  && (forall u :: u in b ==> Event(u, Success) in evs)
                  && (forall u :: u in r ==> Event(u, Success) in evs || Event(u, FaceNotFound) in evs))
            && (OnSuccess in s.calls ==> s.calls == [OnSuccess])
            && (OnFailure in s.calls <==> exists u :: u in b && Event(u, FaceNotFound) in evs)
            && (forall u {:trigger Count(s.sent, u)} :: Count(s.sent, u) <= 11)
            && (s.calls == [] ==> s.flights != map[])
            && |evs| <= 11 * (|b| + |r|)
  {
    var s0 := Begin(face, b, r, fib);
    var s := Play(s0, evs);
    BeginKeeps(face, b, r, fib);
    RunKeeps(s0, evs, b, r);
    forall u
      ensures u in s.acked <==> Event(u, Success) in evs
      ensures u in s.refused <==> Event(u, FaceNotFound) in evs
    {
      RepliesNoted(s0, evs, u);
    }
    CallsMean(s, b, r);
    Unsettled(s, b, r);
    ReplyBound(face, b, r, fib, evs);
  }

  lemma CallsMean(s: Sender, b: seq<FibUpdate>, r: seq<FibUpdate>)
    requires SendInv(s, b, r)
    ensures forall u, v :: u in r && u in s.sent && v in b ==> v in s.acked
    ensures OnSuccess in s.calls <==>
              (forall u :: u in b ==> u in s.acked) && (forall u :: u in r ==> u in s.acked || u in s.refused)
    ensures forall u {:trigger Count(s.sent, u)} :: Count(s.sent, u) <= 11
  {
    forall u
      ensures Count(s.sent, u) <= 11
      ensures u in r && u in s.sent ==> s.batch == []
    {
      assert UpdateOk(s, u, b, r);
    }
    EmptyLists(s, b, r);
  }

  lemma EmptyLists(s: Sender, b: seq<FibUpdate>, r: seq<FibUpdate>)
    requires SendInv(s, b, r)
    ensures s.batch == [] <==> forall u :: u in b ==> u in s.acked
    ensures s.rest == [] <==> forall u :: u in r ==> u in s.acked || u in s.refused
  {
    EmptyRemaining(b, s.acked);
    EmptyRemaining(r, s.acked + s.refused);
  }

  lemma EmptyRemaining(list: seq<FibUpdate>, gone: set<FibUpdate>)
    ensures Remaining(list, gone) == [] <==> forall u :: u in list ==> u in gone
  {
    if Remaining(list, gone) != [] {
      assert Remaining(list, gone)[0] in Remaining(list, gone);
    } else {
      assert forall u :: u in list && u !in gone ==> u in Remaining(list, gone);
    }
  }

  lemma Unsettled(s: Sender, b: seq<FibUpdate>, r: seq<FibUpdate>)
    requires SendInv(s, b, r)
    ensures s.calls == [] ==> s.flights != map[]
  {
    if s.calls == [] && s.batch != [] {
      var u := s.batch[0];
      assert u in s.batch && UpdateOk(s, u, b, r);
    } else if s.calls == [] {
      var u := s.rest[0];
      assert u in s.rest && UpdateOk(s, u, b, r);
    }
  }

  lemma ReplyBound(face: nat, b: seq<FibUpdate>, r: seq<FibUpdate>, fib: Fib, evs: seq<Event>)
    requires Lists(face, b, r) && Playable(Begin(face, b, r, fib), evs)
    ensures |evs| <= 11 * (|b| + |r|)
  {
    var s0 := Begin(face, b, r, fib);
    var s := Play(s0, evs);
    BeginKeeps(face, b, r, fib);
    RunKeeps(s0, evs, b, r);
    BeginCounted(face, b, r, fib);
    RepliesCounted(s0, evs, b, r);
    var kinds := (set u | u in b) + (set u | u in r);
    forall u
      ensures Count(s.sent, u) <= 11
      ensures u in s.sent ==> u in kinds
    {
      assert UpdateOk(s, u, b, r);
    }
    BoundedCounts(s.sent, kinds, 11);
    AtMostLength(b);
    AtMostLength(r);
  }

  lemma BeginCounted(face: nat, b: seq<FibUpdate>, r: seq<FibUpdate>, fib: Fib)
    requires Lists(face, b, r)
    ensures |Begin(face, b, r, fib).flights| == |Begin(face, b, r, fib).sent|
  {
    var s := Sender(face, b, r, map[], fib, [], [], {}, {}, {});
    if b == [] {
      RestCounted(s, r);
    } else {
      RestCounted(s.(rest := b), b);
    }
  }

  lemma {:induction false} AtMostLength(list: seq<FibUpdate>)
    ensures |set u | u in list| <= |list|
  {
    if list != [] {
      AtMostLength(list[1..]);
      assert (set u | u in list) == (set u | u in list[1..]) + {list[0]};
    }
  }

  // ----- what the FIB holds afterwards -----

  /** What the exchange has made of the former FIB at the update's name and face: nothing before
      a reply; after a success the cost, unless the update is a remove that never timed out. */
  ghost predicate FibOk(s: Sender, fib: Fib, u: FibUpdate) {
    && (u in s.acked ==>
          FibAt(s.fib, u.name, u.faceId) == if u.add || u in s.retried then Some(u.cost) else None)
    && (u !in s.acked && u !in s.retried ==> FibAt(s.fib, u.name, u.faceId) == FibAt(fib, u.name, u.faceId))
  }

  ghost predicate Concerned(b: seq<FibUpdate>, r: seq<FibUpdate>, n: Name, f: nat) {
    exists u :: (u in b || u in r) && u.name == n && u.faceId == f
  }

  ghost predicate FibTracks(s: Sender, fib: Fib, b: seq<FibUpdate>, r: seq<FibUpdate>) {
    && (forall u :: u in b || u in r ==> FibOk(s, fib, u))
    && (forall n, f {:trigger FibAt(s.fib, n, f)} :: !Concerned(b, r, n, f) ==> FibAt(s.fib, n, f) == FibAt(fib, n, f))
  }

  lemma KeysApart(face: nat, b: seq<FibUpdate>, r: seq<FibUpdate>, u: FibUpdate, v: FibUpdate)
    requires Lists(face, b, r) && (u in b || u in r) && (v in b || v in r) && u != v
    ensures !SameKey(u, v)
  {
    if u in b && v in b {
      var i, j :| 0 <= i < |b| && 0 <= j < |b| && b[i] == u && b[j] == v;
      assert !SameKey(b[if i < j then i else j], b[if i < j then j else i]);
    } else if u in r && v in r {
      var i, j :| 0 <= i < |r| && 0 <= j < |r| && r[i] == u && r[j] == v;
      assert !SameKey(r[if i < j then i else j], r[if i < j then j else i]);
    }
  }

  lemma StepFib(s: Sender, ev: Event)
    requires ev.update in s.flights
    ensures Step(s, ev).fib == Noted(s, ev).fib && Step(s, ev).acked == Noted(s, ev).acked
    ensures Step(s, ev).retried == Noted(s, ev).retried
  {
  }

  lemma StepKeepsFib(s: Sender, ev: Event, fib: Fib, b: seq<FibUpdate>, r: seq<FibUpdate>)
    requires SendInv(s, b, r) && ev.update in s.flights && Thrown !in s.calls && FibTracks(s, fib, b, r)
    ensures FibTracks(Step(s, ev), fib, b, r)
  {
    var s' := Step(s, ev);
    assert UpdateOk(s, ev.update, b, r);
    StepFib(s, ev);
    forall v | v in b || v in r
      ensures FibOk(s', fib, v)
    {
      NotedFib(s, ev, fib, b, r, v);
    }
    forall n, f | !Concerned(b, r, n, f)
      ensures FibAt(s'.fib, n, f) == FibAt(fib, n, f)
    {
      assert !(ev.update.name == n && ev.update.faceId == f);
      assert FibAt(s.fib, n, f) == FibAt(fib, n, f);
    }
  }

  lemma NotedFib(s: Sender, ev: Event, fib: Fib, b: seq<FibUpdate>, r: seq<FibUpdate>, v: FibUpdate)
    requires Lists(s.face, b, r) && ev.update in s.flights && FibOk(s, fib, v) && (v in b || v in r)
    requires UpdateOk(s, ev.update, b, r)
    ensures FibOk(Noted(s, ev), fib, v)
  {
    if v != ev.update {
      KeysApart(s.face, b, r, ev.update, v);
    }
  }

  lemma {:induction false} RunKeepsFib(s: Sender, evs: seq<Event>, fib: Fib, b: seq<FibUpdate>, r: seq<FibUpdate>)
    requires SendInv(s, b, r) && Playable(s, evs) && FibTracks(s, fib, b, r)
    ensures FibTracks(Play(s, evs), fib, b, r)
    decreases |evs|
  {
    if evs != [] {
      StepKeeps(s, evs[0], b, r);
      StepKeepsFib(s, evs[0], fib, b, r);
      RunKeepsFib(Step(s, evs[0]), evs[1..], fib, b, r);
    }
  }

  /** What the two lists are meant to make of the FIB. */
  function Intended(fib: Fib, b: seq<FibUpdate>, r: seq<FibUpdate>): Fib {
    ApplyUpdates(ApplyUpdates(fib, b), r)
  }

  lemma IntendedAt(face: nat, b: seq<FibUpdate>, r: seq<FibUpdate>, fib: Fib, u: FibUpdate)
    requires Lists(face, b, r) && (u in b || u in r)
    ensures FibAt(Intended(fib, b, r), u.name, u.faceId) == if u.add then Some(u.cost) else None
  {
    ApplyAt(fib, b, u.name, u.faceId);
    ApplyAt(ApplyUpdates(fib, b), r, u.name, u.faceId);
    var p, q := PendingAt(b, u.name, u.faceId), PendingAt(r, u.name, u.faceId);
    if p.Some? && p.value != u {
      KeysApart(face, b, r, u, p.value);
    }
    if q.Some? && q.value != u {
      KeysApart(face, b, r, u, q.value);
    }
  }

  lemma IntendedElsewhere(b: seq<FibUpdate>, r: seq<FibUpdate>, fib: Fib, n: Name, f: nat)
    requires UniqueKeys(b) && UniqueKeys(r) && !Concerned(b, r, n, f)
    ensures FibAt(Intended(fib, b, r), n, f) == FibAt(fib, n, f)
  {
    ApplyAt(fib, b, n, f);
    ApplyAt(ApplyUpdates(fib, b), r, n, f);
  }

  function FacesOf(updates: set<FibUpdate>): set<nat> {
    set u | u in updates :: u.faceId
  }

  /** A remove that timed out and was then sent again as an add. */
  ghost predicate TurnedIntoAdd(s: Sender, u: FibUpdate) {
    !u.add && u in s.retried && u in s.acked
  }

  lemma PlayedFib(face: nat, b: seq<FibUpdate>, r: seq<FibUpdate>, fib: Fib, evs: seq<Event>)
    requires Lists(face, b, r) && Playable(Begin(face, b, r, fib), evs)
    ensures var s := Play(Begin(face, b, r, fib), evs); SendInv(s, b, r) && FibTracks(s, fib, b, r) && s.face == face
  {
    var s0 := Begin(face, b, r, fib);
    BeginKeeps(face, b, r, fib);
    assert s0.fib == fib && s0.acked == {} && s0.retried == {} && s0.face == face;
    assert FibTracks(s0, fib, b, r);
    RunKeeps(s0, evs, b, r);
    RunKeepsFib(s0, evs, fib, b, r);
    RepliesNoted(s0, evs, FibUpdate([], 0, 0, true));
  }

  lemma SentAt(face: nat, b: seq<FibUpdate>, r: seq<FibUpdate>, fib: Fib, s: Sender, u: FibUpdate)
    requires SendInv(s, b, r) && FibTracks(s, fib, b, r) && s.face == face && OnSuccess in s.calls
    requires (u in b || u in r) && u.faceId !in FacesOf(s.refused)
    ensures FibAt(s.fib, u.name, u.faceId) == FibAt(Intended(fib, b, r), u.name, u.faceId) <==> !TurnedIntoAdd(s, u)
  {
    CallsMean(s, b, r);
    assert u !in s.refused && FibOk(s, fib, u);
    IntendedAt(face, b, r, fib, u);
  }

  /** After the success callback the FIB is as the two lists mean it to be, on every live face
      not refused, if and only if no remove for such a face timed out on its way: a retry goes
      out as an add with cost zero. */
  lemma SentFibExact(face: nat, b: seq<FibUpdate>, r: seq<FibUpdate>, fib: Fib, evs: seq<Event>, dead: set<nat>)
    requires Lists(face, b, r) && Playable(Begin(face, b, r, fib), evs)
    requires OnSuccess in Play(Begin(face, b, r, fib), evs).calls
    requires FacesOf(Play(Begin(face, b, r, fib), evs).refused) <= dead
    ensures var s := Play(Begin(face, b, r, fib), evs);
            (forall n, f {:trigger FibAt(s.fib, n, f)} :: f !in dead ==>
               FibAt(s.fib, n, f) == FibAt(Intended(fib, b, r), n, f))
            <==> (forall u :: (u in b || u in r) && u.faceId !in dead ==> !TurnedIntoAdd(s, u))
  {
    var s := Play(Begin(face, b, r, fib), evs);
    var target := Intended(fib, b, r);
    PlayedFib(face, b, r, fib, evs);
    forall u | (u in b || u in r) && u.faceId !in dead
      ensures FibAt(s.fib, u.name, u.faceId) == FibAt(target, u.name, u.faceId) <==> !TurnedIntoAdd(s, u)
    {
      SentAt(face, b, r, fib, s, u);
    }
    forall n, f | !Concerned(b, r, n, f)
      ensures FibAt(s.fib, n, f) == FibAt(target, n, f)
    {
      IntendedElsewhere(b, r, fib, n, f);
    }
  }

  /** When an update of the batch's face is refused, no other face's FIB entries have changed. */
  lemma RefusedFib(face: nat, b: seq<FibUpdate>, r: seq<FibUpdate>, fib: Fib, evs: seq<Event>, n: Name, f: nat)
    requires Lists(face, b, r) && Playable(Begin(face, b, r, fib), evs)
    requires OnFailure in Play(Begin(face, b, r, fib), evs).calls && f != face
    ensures FibAt(Play(Begin(face, b, r, fib), evs).fib, n, f) == FibAt(fib, n, f)
  {
    var s := Play(Begin(face, b, r, fib), evs);
    PlayedFib(face, b, r, fib, evs);
    var w :| w in b && w in s.refused;
    assert UpdateOk(s, w, b, r);
    assert w in Remaining(b, s.acked);
    if Concerned(b, r, n, f) {
      var u :| (u in b || u in r) && u.name == n && u.faceId == f;
      assert UpdateOk(s, u, b, r) && FibOk(s, fib, u);
    }
  }

  // ----- replies that come too late -----

  /** What the handler of a late reply makes of the updater, which holds the lists and the face of
      the batch that follows: `u` and `timeouts` are bound to the handler, and so are the callbacks
      of the batch that failed. The calls and commands it adds to `x` are of that failed batch. */
  function Late(x: Sender, u: FibUpdate, timeouts: nat, reply: Reply): Sender {
    match reply
    case Success => Succeed(x, u)
    case Timeout(_) =>
      if timeouts < MAX_NUM_TIMEOUTS then x.(sent := x.sent + [u]) else x.(calls := x.calls + [Thrown])
    case FaceNotFound => Fail(x, u, false, true, timeouts)
    case OtherError => x.(calls := x.calls + [Thrown])
  }

  /** All updates of the following batch's own face have succeeded, but for `u`. */
  ghost predicate OwnDone(b: seq<FibUpdate>, evs: seq<Event>, u: FibUpdate) {
    forall v :: v in b ==> v == u || Event(v, Success) in evs
  }

  /** All its updates for other faces have been answered, but for `u`. */
  ghost predicate RestDone(r: seq<FibUpdate>, evs: seq<Event>, u: FibUpdate) {
    forall v :: v in r ==> v == u || Event(v, Success) in evs || Event(v, FaceNotFound) in evs
  }

  /** The callbacks of the failed batch that a late reply makes: `same` says whether the batch that
      follows has the same face, `ownDone` and `restDone` what is answered of it but for `u`, and
      `restless` that it has nothing for other faces. */
  function LateCalls(same: bool, ownDone: bool, restDone: bool, restless: bool, timeouts: nat,
                     reply: Reply): seq<Callback> {
    match reply
    case Success => if (if same then ownDone && restless else restDone) then [OnSuccess] else []
    case Timeout(_) => if timeouts < MAX_NUM_TIMEOUTS then [] else [Thrown]
    case FaceNotFound => if same then [OnFailure] else if restDone then [OnSuccess] else []
    case OtherError => [Thrown]
  }

  lemma LateHandled(x: Sender, u: FibUpdate, timeouts: nat, reply: Reply)
    requires x.calls == []
    ensures Late(x, u, timeouts, reply).calls
            == LateCalls(u.faceId == x.face, Remove(x.batch, u) == [], Remove(x.rest, u) == [], x.rest == [],
                         timeouts, reply)
    ensures forall v :: v in x.flights ==> v in Late(x, u, timeouts, reply).flights
  {
  }

  /** A batch with a refused update still waits for replies to updates of its own face only. */
  lemma FailedWaits(face: nat, b: seq<FibUpdate>, r: seq<FibUpdate>, fib: Fib, evs: seq<Event>, u: FibUpdate)
    requires Lists(face, b, r) && Playable(Begin(face, b, r, fib), evs)
    requires var s := Play(Begin(face, b, r, fib), evs); OnFailure in s.calls && u in s.flights
    ensures OnSuccess !in Play(Begin(face, b, r, fib), evs).calls
    ensures u in b && u.faceId == face
  {
    var s := Play(Begin(face, b, r, fib), evs);
    PlayedFib(face, b, r, fib, evs);
    assert UpdateOk(s, u, b, r);
    var w :| w in b && w in s.refused;
    assert UpdateOk(s, w, b, r);
    assert w in Remaining(b, s.acked);
  }

  /** What is left of the lists once `u` is taken off, in terms of the replies. */
  lemma LeftBut(face: nat, b: seq<FibUpdate>, r: seq<FibUpdate>, fib: Fib, evs: seq<Event>, u: FibUpdate)
    requires Lists(face, b, r) && Playable(Begin(face, b, r, fib), evs)
    ensures var x := Play(Begin(face, b, r, fib), evs);
            && x.face == face
            && (Remove(x.batch, u) == [] <==> OwnDone(b, evs, u))
            && (Remove(x.rest, u) == [] <==> RestDone(r, evs, u))
  {
    var s0 := Begin(face, b, r, fib);
    var x := Play(s0, evs);
    PlayedFib(face, b, r, fib, evs);
    forall v
      ensures v in x.acked <==> Event(v, Success) in evs
      ensures v in x.refused <==> Event(v, FaceNotFound) in evs
    {
      RepliesNoted(s0, evs, v);
    }
    RemoveFromRemaining(b, x.acked, u);
    RemoveFromRemaining(r, x.acked + x.refused, u);
    EmptyRemaining(b, x.acked + {u});
    EmptyRemaining(r, x.acked + x.refused + {u});
  }

  /** While a batch is in progress, its other list is empty exactly when it began empty and its
      own face still waits. */
  lemma OpenRest(face: nat, b: seq<FibUpdate>, r: seq<FibUpdate>, fib: Fib, evs: seq<Event>)
    requires Lists(face, b, r) && Playable(Begin(face, b, r, fib), evs) && Play(Begin(face, b, r, fib), evs).calls == []
    ensures Play(Begin(face, b, r, fib), evs).rest == [] <==> r == []
    ensures Play(Begin(face, b, r, fib), evs).flights != map[]
  {
    var x := Play(Begin(face, b, r, fib), evs);
    PlayedFib(face, b, r, fib, evs);
    Unsettled(x, b, r);
    if x.batch != [] {
      NothingOfRest(x, b, r);
    }
    assert r == [] ==> x.rest == [];
  }

  /** A batch whose face was refused is over for the RIB, which starts the next one. A reply to one
      of the refused batch's other commands still comes in, of any kind and at any moment of the
      following exchange, and its handler works on the following batch's lists and face. The
      callbacks of the failed batch are then made exactly as `LateCalls` says: its failure callback
      a second time, its success callback although it failed, an exception, or none. At that
      moment the following batch is in progress, and its commands on their way stay on their way. */
  lemma LateReply(face: nat, b: seq<FibUpdate>, r: seq<FibUpdate>, fib: Fib, evs: seq<Event>, u: FibUpdate,
                  reply: Reply,
                  face': nat, b': seq<FibUpdate>, r': seq<FibUpdate>, fib': Fib, evs': seq<Event>)
    requires Lists(face, b, r) && Playable(Begin(face, b, r, fib), evs)
    requires var s := Play(Begin(face, b, r, fib), evs); OnFailure in s.calls && u in s.flights
    requires Lists(face', b', r') && Playable(Begin(face', b', r', fib'), evs')
    requires Play(Begin(face', b', r', fib'), evs').calls == []
    ensures OnSuccess !in Play(Begin(face, b, r, fib), evs).calls
    ensures var timeouts := Play(Begin(face, b, r, fib), evs).flights[u].timeouts;
            var x := Play(Begin(face', b', r', fib'), evs');
            var late := Late(x, u, timeouts, reply);
            && late.calls
               == LateCalls(face == face', OwnDone(b', evs', u), RestDone(r', evs', u), r' == [], timeouts, reply)
            && x.flights != map[] && (forall v :: v in x.flights ==> v in late.flights)
  {
    var x := Play(Begin(face', b', r', fib'), evs');
    FailedWaits(face, b, r, fib, evs, u);
    LeftBut(face', b', r', fib', evs', u);
    OpenRest(face', b', r', fib', evs');
    LateHandled(x, u, Play(Begin(face, b, r, fib), evs).flights[u].timeouts, reply);
  }

  /** A late success for the following batch's own face, when that face's other updates have all
      succeeded, also sends its updates for other faces, with the failed batch's callbacks. */
  lemma LateLaunch(face: nat, b: seq<FibUpdate>, r: seq<FibUpdate>, fib: Fib, evs: seq<Event>, u: FibUpdate,
                   timeouts: nat)
    requires Lists(face, b, r) && Playable(Begin(face, b, r, fib), evs) && u.faceId == face
    requires Play(Begin(face, b, r, fib), evs).calls == []
    ensures var x := Play(Begin(face, b, r, fib), evs);
            Late(x, u, timeouts, Success).sent == x.sent + if OwnDone(b, evs, u) then x.rest else []
  {
    LeftBut(face, b, r, fib, evs, u);
  }
}
