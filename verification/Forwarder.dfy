/** The Interest and Data pipelines of the forwarder and of the bridge forwarder over the PIT:
    in-records, out-records and the two timers of an entry, and what leaves on each face. */
module Forwarders {
  import opened Options

  /** An in-record or an out-record: one per face. */
  datatype FaceRecord = FaceRecord(face: nat, nonce: nat, renewed: nat, expiry: nat, lifetime: nat)

  datatype Straggler = Straggler(at: nat, isSatisfied: bool, freshness: int)

  /** A PIT entry; the timers hold when they fire. */
  datatype Entry = Entry(mustBeFresh: bool, inRecords: seq<FaceRecord>, outRecords: seq<FaceRecord>,
                         unsatisfy: Option<nat>, straggler: Option<Straggler>)

  /** An entry belongs to a name and to the selectors asked for with it. */
  datatype Key = Key(name: nat, selectors: nat)

  type Pit = map<Key, Entry>

  const DEFAULT_INTEREST_LIFETIME: nat := 4000
  const STRAGGLER_TIME: nat := 100

  // ----- record lists -----

  predicate HasRecord(rs: seq<FaceRecord>, face: nat) {
    exists i :: 0 <= i < |rs| && rs[i].face == face
  }

  ghost predicate OnePerFace(rs: seq<FaceRecord>) {
    forall i, j :: 0 <= i < j < |rs| ==> rs[i].face != rs[j].face
  }

  /** insertOrUpdate: in place, or at the front. */
  function Updated(rs: seq<FaceRecord>, r: FaceRecord): (s: seq<FaceRecord>)
    ensures |rs| <= |s| && s != []
  {
    if HasRecord(rs, r.face) then Replaced(rs, r) else [r] + rs
  }

  function Replaced(rs: seq<FaceRecord>, r: FaceRecord): (s: seq<FaceRecord>)
    requires HasRecord(rs, r.face)
    ensures |s| == |rs|
  {
    if rs[0].face == r.face then [r] + rs[1..]
    else
      assert HasRecord(rs[1..], r.face) by {
        var i :| 0 <= i < |rs| && rs[i].face == r.face;
        assert rs[1..][i - 1].face == r.face;
      }
      [rs[0]] + Replaced(rs[1..], r)
  }

  function Deleted(rs: seq<FaceRecord>, face: nat): seq<FaceRecord> {
    if rs == [] then [] else if rs[0].face == face then rs[1..] else [rs[0]] + Deleted(rs[1..], face)
  }

  /** A list that differs only in the record of one face. */
  ghost predicate Swapped(rs: seq<FaceRecord>, s: seq<FaceRecord>, r: FaceRecord) {
    |s| == |rs| && forall i :: 0 <= i < |rs| ==> s[i] == if rs[i].face == r.face then r else rs[i]
  }

  lemma {:induction false} ReplacedIs(rs: seq<FaceRecord>, r: FaceRecord)
    requires OnePerFace(rs) && HasRecord(rs, r.face)
    ensures Swapped(rs, Replaced(rs, r), r)
  {
    if rs[0].face != r.face {
      assert HasRecord(rs[1..], r.face) by {
        var i :| 0 <= i < |rs| && rs[i].face == r.face;
        assert rs[1..][i - 1].face == r.face;
      }
      ReplacedIs(rs[1..], r);
    }
  }

  lemma SwappedMembers(rs: seq<FaceRecord>, s: seq<FaceRecord>, r: FaceRecord, q: FaceRecord)
    requires HasRecord(rs, r.face) && Swapped(rs, s, r)
    ensures q in s <==> q == r || (q in rs && q.face != r.face)
  {
    var at :| 0 <= at < |rs| && rs[at].face == r.face;
    assert s[at] == r;
    if q in s {
      var i :| 0 <= i < |s| && s[i] == q;
      assert rs[i] in rs;
    }
    if q in rs && q.face != r.face {
      var i :| 0 <= i < |rs| && rs[i] == q;
      assert s[i] in s;
    }
  }

  lemma SwappedFaces(rs: seq<FaceRecord>, s: seq<FaceRecord>, r: FaceRecord)
    requires HasRecord(rs, r.face) && Swapped(rs, s, r)
    ensures OnePerFace(rs) ==> OnePerFace(s)
    ensures forall f :: HasRecord(s, f) <==> HasRecord(rs, f)
  {
    assert forall i :: 0 <= i < |rs| ==> s[i].face == rs[i].face;
  }

  lemma AddedIs(rs: seq<FaceRecord>, r: FaceRecord)
    requires OnePerFace(rs) && !HasRecord(rs, r.face)
    ensures OnePerFace([r] + rs)
    ensures forall q :: q in [r] + rs <==> q == r || (q in rs && q.face != r.face)
    ensures forall f :: HasRecord([r] + rs, f) <==> HasRecord(rs, f) || f == r.face
  {
    var s := [r] + rs;
    assert s[0] == r && forall i :: 0 <= i < |rs| ==> s[i + 1] == rs[i];
  }

  /** After an update the face has exactly the new record, and the other faces theirs. */
  lemma UpdatedIs(rs: seq<FaceRecord>, r: FaceRecord)
    requires OnePerFace(rs)
    ensures OnePerFace(Updated(rs, r))
    ensures forall q :: q in Updated(rs, r) <==> q == r || (q in rs && q.face != r.face)
    ensures forall f :: HasRecord(Updated(rs, r), f) <==> HasRecord(rs, f) || f == r.face
  {
    if HasRecord(rs, r.face) {
      ReplacedIs(rs, r);
      SwappedFaces(rs, Replaced(rs, r), r);
      forall q
        ensures q in Replaced(rs, r) <==> q == r || (q in rs && q.face != r.face)
      {
        SwappedMembers(rs, Replaced(rs, r), r, q);
      }
    } else {
      AddedIs(rs, r);
    }
  }

  lemma {:induction false} DeletedOne(rs: seq<FaceRecord>, face: nat)
    requires OnePerFace(rs)
    ensures OnePerFace(Deleted(rs, face))
    ensures forall q :: q in Deleted(rs, face) <==> q in rs && q.face != face
  {
    if rs != [] {
      assert forall q :: q in rs <==> q == rs[0] || q in rs[1..];
      if rs[0].face != face {
        DeletedOne(rs[1..], face);
        var d := Deleted(rs[1..], face);
        assert forall j :: 0 <= j < |d| ==> d[j] in d;
      }
    }
  }

  // ----- which Interest goes out -----

  /** compare_pickInterest: a record from the outgoing face ranks below one from another face,
      and otherwise the one renewed later ranks lower. */
  predicate Below(a: FaceRecord, b: FaceRecord, outFace: nat) {
    if a.face != outFace && b.face == outFace then false
    else if a.face == outFace && b.face != outFace then true
    else a.renewed > b.renewed
  }

  /** From another face if there is one, and among those the one renewed first. */
  ghost predicate Picked(p: FaceRecord, rs: seq<FaceRecord>, outFace: nat) {
    && (p.face == outFace ==> forall r :: r in rs ==> r.face == outFace)
    && (forall r :: r in rs && (r.face == outFace <==> p.face == outFace) ==> p.renewed <= r.renewed)
  }

  /** The first record that none ranks above. */
  function Pick(rs: seq<FaceRecord>, outFace: nat): (p: FaceRecord)
    requires rs != []
    ensures p in rs && forall r :: r in rs ==> !Below(p, r, outFace)
  {
    var front, last := rs[..|rs| - 1], rs[|rs| - 1];
    assert rs == front + [last];
    if front == [] then last
    else
      var p := Pick(front, outFace);
      if Below(p, last, outFace) then last else p
  }

  /** std::max_element over the in-records. */
  method PickInterest(rs: seq<FaceRecord>, outFace: nat) returns (picked: FaceRecord)
    requires rs != []
    ensures picked == Pick(rs, outFace) && picked in rs && Picked(picked, rs, outFace)
  {
    picked := rs[0];
    for i := 1 to |rs|
      invariant picked == Pick(rs[..i], outFace)
    {
      if Below(picked, rs[i], outFace) {
        picked := rs[i];
      }
      assert rs[..i + 1][..i] == rs[..i];
    }
    assert rs[..|rs|] == rs;
  }

  /** The latest expiry. */
  function Latest(rs: seq<FaceRecord>): (at: nat)
    requires rs != []
    ensures (exists r :: r in rs && r.expiry == at) && forall r :: r in rs ==> r.expiry <= at
  {
    var front, last := rs[..|rs| - 1], rs[|rs| - 1];
    assert rs == front + [last];
    if front == [] then last.expiry else if Latest(front) < last.expiry then last.expiry else Latest(front)
  }

  // ----- how many entries wait for a face -----

  ghost function Holders(pit: Pit, face: nat): set<Key> {
    set k | k in pit && HasRecord(pit[k].inRecords, face)
  }

  ghost function Holding(pit: Pit, face: nat): nat {
    |Holders(pit, face)|
  }

  function One(b: bool): nat { if b then 1 else 0 }

  lemma HoldingPut(pit: Pit, k: Key, e: Entry, face: nat)
    ensures Holding(pit[k := e], face) + One(k in pit && HasRecord(pit[k].inRecords, face))
            == Holding(pit, face) + One(HasRecord(e.inRecords, face))
  {
    HoldersPut(pit, k, e, face);
    WithoutOne(Holders(pit[k := e], face), k);
    WithoutOne(Holders(pit, face), k);
  }

  lemma HoldersPut(pit: Pit, k: Key, e: Entry, face: nat)
    ensures Holders(pit[k := e], face) - {k} == Holders(pit, face) - {k}
  {
  }

  lemma WithoutOne(s: set<Key>, k: Key)
    ensures |s| == |s - {k}| + One(k in s)
  {
    if k in s {
      assert s == (s - {k}) + {k};
    } else {
      assert s == s - {k};
    }
  }

  lemma HoldingErase(pit: Pit, k: Key, face: nat)
    ensures Holding(pit - {k}, face) <= Holding(pit, face)
  {
    SubsetSize(Holders(pit - {k}, face), Holders(pit, face));
  }

  lemma {:induction false} SubsetSize(a: set<Key>, b: set<Key>)
    requires a <= b
    ensures |a| <= |b|
  {
    assert b == a + (b - a);
  }

  function Of(m: map<nat, nat>, face: nat): nat {
    if face in m then m[face] else 0
  }

  /** One packet more on the face, unless it is refused. */
  function Plus(m: map<nat, nat>, face: nat, refused: bool): map<nat, nat> {
    if refused then m else m[face := Of(m, face) + 1]
  }

  /** The nonce went out, to the given face if one is given. */
  predicate WentOut(rs: seq<FaceRecord>, upstream: Option<nat>, nonce: nat) {
    exists i :: 0 <= i < |rs| && (upstream.None? || rs[i].face == upstream.value) && rs[i].nonce == nonce
  }

  // ----- one entry's timers -----

  /** An armed unsatisfy timer means the entry has in-records, its straggler timer is not armed,
      and the timer fires when the last in-record expires, no sooner. An entry without a timer
      has no in-records. */
  ghost predicate EntryOk(e: Entry, now: nat) {
    && OnePerFace(e.inRecords) && OnePerFace(e.outRecords)
    && (e.unsatisfy.Some? ==>
          && e.inRecords != [] && e.straggler.None? && now <= e.unsatisfy.value
          && (forall r :: r in e.inRecords ==> r.expiry <= e.unsatisfy.value)
          && (exists r :: r in e.inRecords && r.expiry == e.unsatisfy.value))
    && (e.straggler.Some? ==> now <= e.straggler.value.at <= now + STRAGGLER_TIME)
    && (e.unsatisfy.None? && e.straggler.None? ==> e.inRecords == [])
  }

  /** No timer will remove the entry. */
  predicate Idle(e: Entry) {
    e.unsatisfy.None? && e.straggler.None?
  }

  /** An idle entry stays as it is exactly where it is not disturbed. */
  ghost predicate IdleKept(before: Pit, after: Pit, disturbed: set<Key>) {
    forall k :: k in before && Idle(before[k]) ==> ((k in after && after[k] == before[k]) <==> k !in disturbed)
  }

  /** An idle entry stays over a run until it is disturbed first, however long that takes. */
  lemma {:induction false} IdleRun(pits: seq<Pit>, disturbed: seq<set<Key>>, k: Key)
    requires |pits| == |disturbed| + 1 && k in pits[0] && Idle(pits[0][k])
    requires forall i :: 0 <= i < |disturbed| ==> IdleKept(pits[i], pits[i + 1], disturbed[i])
    ensures (forall i :: 0 <= i < |pits| ==> k in pits[i] && pits[i][k] == pits[0][k])
            <==> forall i :: 0 <= i < |disturbed| ==> k !in disturbed[i]
  {
    var n := |disturbed|;
    if n > 0 {
      IdleRun(pits[..n], disturbed[..n - 1], k);
      assert IdleKept(pits[n - 1], pits[n], disturbed[n - 1]);
      assert forall i :: 0 <= i < n ==> pits[..n][i] == pits[i];
    }
  }

  datatype Action = Send(outFace: nat, refused: bool, newNonce: Option<nat>) | Reject

  class Forwarder {
    /** The bridge forwarder's content-store hit sets no straggler timer. */
    const isBridge: bool
    /** Data with a freshness period below this puts nonces on the dead nonce list. */
    const deadNonceLifetime: nat
    var now: nat
    var pit: Pit
    /** Nonces that must not come back, by name. */
    var deadNonces: set<(nat, nat)>
    /** Interests received and Data sent, by face. */
    var interestsIn: map<nat, nat>
    var datasOut: map<nat, nat>

    ghost predicate EntriesOk()
      reads this`pit, this`now
    {
      forall k :: k in pit ==> EntryOk(pit[k], now)
    }

    /** Flow balance: what was sent on a face and what may still be sent for an entry waiting for
        it is covered by the Interests received on it. */
    ghost predicate Balanced()
      reads this`pit, this`interestsIn, this`datasOut
    {
      forall f: nat {:trigger Holding(pit, f)} :: Of(datasOut, f) + Holding(pit, f) <= Of(interestsIn, f)
    }

    ghost predicate Valid()
      reads this
    {
      EntriesOk() && Balanced()
    }

    constructor (isBridge: bool, deadNonceLifetime: nat)
      ensures Valid() && pit == map[] && this.isBridge == isBridge
    {
      this.isBridge, this.deadNonceLifetime := isBridge, deadNonceLifetime;
      now, pit, deadNonces, interestsIn, datasOut := 0, map[], {}, map[], map[];
      assert forall f :: Holders(map[], f) == {};
    }

    // ----- Interests -----

    method OnOutgoingData(face: nat, refused: bool)
      modifies this`datasOut
      ensures datasOut == Plus(old(datasOut), face, refused)
    {
      if !refused {
        datasOut := datasOut[face := Of(datasOut, face) + 1];
      }
    }

    predicate HasNonce(e: Entry, nonce: nat) {
      (exists i :: 0 <= i < |e.inRecords| && e.inRecords[i].nonce == nonce)
      || (exists i :: 0 <= i < |e.outRecords| && e.outRecords[i].nonce == nonce)
    }

    /** The entry an Interest finds or makes. */
    function Found(t: Pit, key: Key, mustBeFresh: bool): Entry {
      if key in t then t[key] else Entry(mustBeFresh, [], [], None, None)
    }

    /** The Interest has been here before. */
    predicate Loops(t: Pit, key: Key, nonce: nat)
      reads this`deadNonces
    {
      (key in t && HasNonce(t[key], nonce)) || (key.name, nonce) in deadNonces
    }

    /** The content store answers an Interest only where none is pending. */
    predicate Hits(t: Pit, key: Key, csHit: bool) {
      csHit && (key in t ==> t[key].inRecords == [])
    }

    /** The entry after an answer from the content store. */
    function Answered(e: Entry, freshness: int): Entry
      reads this`now
    {
      e.(unsatisfy := None, straggler := if isBridge then None
          else Some(Straggler(now + STRAGGLER_TIME, true, freshness)))
    }

    function LifetimeOf(lifetime: int): nat {
      if lifetime < 0 then DEFAULT_INTEREST_LIFETIME else lifetime
    }

    /** The in-record an Interest leaves. */
    function Incoming(face: nat, nonce: nat, lifetime: int): FaceRecord
      reads this`now
    {
      FaceRecord(face, nonce, now, now + LifetimeOf(lifetime), LifetimeOf(lifetime))
    }

    /** The entry with the in-record, until its last in-record expires. */
    function Pending(e: Entry, r: FaceRecord): (p: Entry)
      ensures p.inRecords != []
    {
      e.(inRecords := Updated(e.inRecords, r), unsatisfy := Some(Latest(Updated(e.inRecords, r))), straggler := None)
    }

    /** The out-record of the picked Interest, under its own nonce or a new one. */
    function Outgoing(picked: FaceRecord, outFace: nat, newNonce: Option<nat>): FaceRecord
      reads this`now
    {
      FaceRecord(outFace, if newNonce.Some? then newNonce.value else picked.nonce,
                 now, now + picked.lifetime, picked.lifetime)
    }

    predicate HasUnexpired(rs: seq<FaceRecord>)
      reads this`now
    {
      exists i :: 0 <= i < |rs| && rs[i].expiry >= now
    }

    /** The entry given up. */
    function GivenUp(e: Entry): Entry
      reads this`now
    {
      e.(unsatisfy := None, straggler := Some(Straggler(now + STRAGGLER_TIME, false, -1)))
    }

    function AfterAction(e: Entry, action: Action): (e': Entry)
      requires e.inRecords != []
      reads this`now
      ensures e'.inRecords == e.inRecords
    {
      match action
      case Send(outFace, refused, newNonce) =>
        if refused then e
        else e.(outRecords := Updated(e.outRecords, Outgoing(Pick(e.inRecords, outFace), outFace, newNonce)))
      case Reject => if HasUnexpired(e.outRecords) then e else GivenUp(e)
    }

    /** The entry after all the strategy does with it. */
    function AfterActions(e: Entry, actions: seq<Action>): (e': Entry)
      requires e.inRecords != []
      reads this`now
      ensures e'.inRecords == e.inRecords
    {
      if actions == [] then e
      else AfterAction(AfterActions(e, actions[..|actions| - 1]), actions[|actions| - 1])
    }

    /** The Interest goes out on the face. */
    predicate SentTo(actions: seq<Action>, face: nat) {
      exists i :: 0 <= i < |actions| && actions[i].Send? && actions[i].outFace == face && !actions[i].refused
    }

    /** The strategy rejects before it sends, and nothing is out. */
    predicate RejectedBy(e: Entry, actions: seq<Action>)
      reads this`now
    {
      !HasUnexpired(e.outRecords)
      && exists i :: 0 <= i < |actions| && actions[i].Reject? && forall j :: 0 <= j < i ==> !GoesOut(actions[j])
    }

    predicate GoesOut(action: Action) {
      action.Send? && !action.refused
    }

    /** What the strategy's actions leave: an out-record on exactly the faces that had one or that
        the Interest went to, and the entry given up exactly if it is rejected before anything is
        out. */
    lemma {:induction false} ActionsLeave(e: Entry, actions: seq<Action>)
      requires e.inRecords != [] && OnePerFace(e.outRecords)
      ensures var e' := AfterActions(e, actions);
              && OnePerFace(e'.outRecords)
              && (forall f :: HasRecord(e'.outRecords, f) <==> HasRecord(e.outRecords, f) || SentTo(actions, f))
              && (HasUnexpired(e'.outRecords)
                  <==> HasUnexpired(e.outRecords) || exists i :: 0 <= i < |actions| && GoesOut(actions[i]))
              && e' == (if RejectedBy(e, actions) then GivenUp(e) else e).(outRecords := e'.outRecords)
    {
      if actions != [] {
        var front, last := actions[..|actions| - 1], actions[|actions| - 1];
        assert actions == front + [last];
        ActionsLeave(e, front);
        var before := AfterActions(e, front);
        if GoesOut(last) {
          var r := Outgoing(Pick(before.inRecords, last.outFace), last.outFace, last.newNonce);
          UpdatedIs(before.outRecords, r);
          StaysUnexpired(before.outRecords, r);
        }
      }
    }

    lemma StaysUnexpired(rs: seq<FaceRecord>, r: FaceRecord)
      requires OnePerFace(rs) && r.expiry >= now
      ensures HasUnexpired(Updated(rs, r))
    {
      UpdatedIs(rs, r);
      var s := Updated(rs, r);
      var i :| 0 <= i < |s| && s[i] == r;
    }

    /** The Interest is recorded: the face has its in-record, a timer is armed, and no other entry
        changes. */
    ghost predicate Recorded(before: Pit, key: Key, e: Entry, r: FaceRecord)
      reads this`pit
    {
      && key in pit && pit == before[key := pit[key]]
      && pit[key].inRecords == Updated(e.inRecords, r)
      && (pit[key].unsatisfy.Some? || pit[key].straggler.Some?)
    }

    /** onIncomingInterest. The caller supplies what the tables outside the PIT answer: whether
        the name violates /localhost, whether the content store has a match and its freshness
        period, whether the Data may leave on the face, and what the strategy does. */
    method OnIncomingInterest(face: nat, key: Key, mustBeFresh: bool, nonce: nat, lifetime: int,
                              violatesLocalhost: bool, csHit: bool, csFreshness: int, refused: bool,
                              actions: seq<Action>)
      requires Valid()
      modifies this`pit, this`interestsIn, this`datasOut
      ensures Valid()
      ensures interestsIn == old(interestsIn)[face := Of(old(interestsIn), face) + 1]
      ensures violatesLocalhost ==> pit == old(pit) && datasOut == old(datasOut)
      ensures !violatesLocalhost && Loops(old(pit), key, nonce) ==>
                pit == old(pit)[key := Found(old(pit), key, mustBeFresh)] && datasOut == old(datasOut)
      ensures !violatesLocalhost && !Loops(old(pit), key, nonce) && Hits(old(pit), key, csHit) ==>
                && pit == old(pit)[key := Answered(Found(old(pit), key, mustBeFresh), csFreshness)]
                && datasOut == Plus(old(datasOut), face, refused)
      ensures !violatesLocalhost && !Loops(old(pit), key, nonce) && !Hits(old(pit), key, csHit) ==>
                && Recorded(old(pit), key, Found(old(pit), key, mustBeFresh), Incoming(face, nonce, lifetime))
                && pit[key] == AfterActions(Pending(Found(old(pit), key, mustBeFresh), Incoming(face, nonce, lifetime)),
                                            actions)
                && datasOut == old(datasOut)
      ensures !violatesLocalhost ==>
                && key in pit
                && (Idle(pit[key]) <==> if Loops(old(pit), key, nonce) then Idle(Found(old(pit), key, mustBeFresh))
                                        else Hits(old(pit), key, csHit) && isBridge)
      ensures IdleKept(old(pit), pit, if violatesLocalhost || Loops(old(pit), key, nonce)
                                         || (Hits(old(pit), key, csHit) && isBridge) then {} else {key})
    {
      interestsIn := interestsIn[face := Of(interestsIn, face) + 1];
      if violatesLocalhost {
        return;
      }
      Receive(face, key, mustBeFresh, nonce, lifetime, csHit, csFreshness, refused, actions);
    }

    /** While an Interest is in the pipeline, its face has one Interest to spare. */
    ghost predicate BalancedBut(face: nat)
      reads this`pit, this`interestsIn, this`datasOut
    {
      forall f: nat {:trigger Holding(pit, f)} :: Of(datasOut, f) + Holding(pit, f) + One(f == face)
          <= Of(interestsIn, f)
    }

    method Receive(face: nat, key: Key, mustBeFresh: bool, nonce: nat, lifetime: int, csHit: bool, csFreshness: int,
                   refused: bool, actions: seq<Action>)
      requires EntriesOk() && BalancedBut(face)
      modifies this`pit, this`datasOut
      ensures Valid()
      ensures Loops(old(pit), key, nonce) ==>
                pit == old(pit)[key := Found(old(pit), key, mustBeFresh)] && datasOut == old(datasOut)
      ensures !Loops(old(pit), key, nonce) && Hits(old(pit), key, csHit) ==>
                && pit == old(pit)[key := Answered(Found(old(pit), key, mustBeFresh), csFreshness)]
                && datasOut == Plus(old(datasOut), face, refused)
      ensures !Loops(old(pit), key, nonce) && !Hits(old(pit), key, csHit) ==>
                && Recorded(old(pit), key, Found(old(pit), key, mustBeFresh), Incoming(face, nonce, lifetime))
                && pit[key] == AfterActions(Pending(Found(old(pit), key, mustBeFresh), Incoming(face, nonce, lifetime)),
                                            actions)
                && datasOut == old(datasOut)
    {
      ghost var before := pit;
      if key !in pit {
        NewEntry(key, mustBeFresh, face);
      }
      assert pit == before[key := Found(before, key, mustBeFresh)];
      if HasNonce(pit[key], nonce) || (key.name, nonce) in deadNonces {
        return;
      }
      if pit[key].inRecords == [] && csHit {
        OnContentStoreHit(face, key, csFreshness, refused);
      } else {
        OnContentStoreMiss(face, key, nonce, lifetime, actions);
      }
    }

    method NewEntry(key: Key, mustBeFresh: bool, ghost face: nat)
      requires EntriesOk() && BalancedBut(face) && key !in pit
      modifies this`pit
      ensures EntriesOk() && BalancedBut(face) && pit == old(pit)[key := Entry(mustBeFresh, [], [], None, None)]
    {
      var e := Entry(mustBeFresh, [], [], None, None);
      forall f: nat
        ensures Of(datasOut, f) + Holding(pit[key := e], f) + One(f == face) <= Of(interestsIn, f)
      {
        HoldingPut(pit, key, e, f);
      }
      pit := pit[key := e];
    }

    /** The entry keeps no timer in the bridge. */
    method OnContentStoreHit(face: nat, key: Key, freshness: int, refused: bool)
      requires EntriesOk() && BalancedBut(face) && key in pit && pit[key].inRecords == []
      modifies this`pit, this`datasOut
      ensures Valid()
      ensures pit == old(pit)[key := Answered(old(pit)[key], freshness)]
      ensures datasOut == Plus(old(datasOut), face, refused)
    {
      var e := pit[key].(unsatisfy := None, straggler := None);
      if !isBridge {
        e := e.(straggler := Some(Straggler(now + STRAGGLER_TIME, true, freshness)));
      }
      forall f: nat
        ensures Of(datasOut, f) + Holding(pit[key := e], f) + One(f == face) <= Of(interestsIn, f)
      {
        HoldingPut(pit, key, e, f);
      }
      pit := pit[key := e];
      OnOutgoingData(face, refused);
    }

    /** setUnsatisfyTimer: the latest expiry among the in-records. */
    method LastExpiry(rs: seq<FaceRecord>) returns (last: nat)
      requires rs != []
      ensures last == Latest(rs)
      ensures (exists r :: r in rs && r.expiry == last) && forall r :: r in rs ==> r.expiry <= last
    {
      var lastExpiring := rs[0];
      for i := 1 to |rs|
        invariant lastExpiring.expiry == Latest(rs[..i])
      {
        if lastExpiring.expiry < rs[i].expiry {
          lastExpiring := rs[i];
        }
        assert rs[..i + 1][..i] == rs[..i];
      }
      assert rs[..|rs|] == rs;
      last := lastExpiring.expiry;
    }

    method OnContentStoreMiss(face: nat, key: Key, nonce: nat, lifetime: int, actions: seq<Action>)
      requires EntriesOk() && BalancedBut(face) && key in pit
      modifies this`pit
      ensures Valid() && Recorded(old(pit), key, old(pit)[key], Incoming(face, nonce, lifetime))
      ensures pit == old(pit)[key := AfterActions(Pending(old(pit)[key], Incoming(face, nonce, lifetime)), actions)]
    {
      AddInRecord(key, Incoming(face, nonce, lifetime));
      ghost var e := pit[key];
      for i := 0 to |actions|
        invariant Valid() && key in pit && pit == old(pit)[key := AfterActions(e, actions[..i])]
      {
        Act(key, actions[i]);
        assert actions[..i + 1][..i] == actions[..i];
      }
      assert actions[..|actions|] == actions;
      assert EntryOk(pit[key], now);
    }

    /** One thing the strategy does with the entry. */
    method Act(key: Key, action: Action)
      requires Valid() && key in pit && pit[key].inRecords != []
      modifies this`pit
      ensures Valid() && pit == old(pit)[key := AfterAction(old(pit)[key], action)]
    {
      match action
      case Send(outFace, blocked, newNonce) => OnOutgoingInterest(key, outFace, blocked, newNonce);
      case Reject => OnInterestReject(key);
    }

    method AddInRecord(key: Key, r: FaceRecord)
      requires EntriesOk() && BalancedBut(r.face) && key in pit && r.expiry >= now
      modifies this`pit
      ensures Valid() && pit == old(pit)[key := Pending(old(pit)[key], r)]
    {
      var e := pit[key];
      UpdatedIs(e.inRecords, r);
      var rs := Updated(e.inRecords, r);
      var last := LastExpiry(rs);
      e := e.(inRecords := rs, unsatisfy := Some(last), straggler := None);
      forall f: nat
        ensures Of(datasOut, f) + Holding(pit[key := e], f) <= Of(interestsIn, f)
      {
        HoldingPut(pit, key, e, f);
      }
      pit := pit[key := e];
    }

    /** The entry's records other than the in-records, or its timers, change. */
    method Change(key: Key, e: Entry)
      requires Valid() && key in pit && EntryOk(e, now) && e.inRecords == pit[key].inRecords
      modifies this`pit
      ensures Valid() && pit == old(pit)[key := e]
    {
      forall f: nat
        ensures Of(datasOut, f) + Holding(pit[key := e], f) <= Of(interestsIn, f)
      {
        HoldingPut(pit, key, e, f);
      }
      pit := pit[key := e];
    }

    /** onOutgoingInterest; the assertion that there is an in-record to pick from holds. */
    method OnOutgoingInterest(key: Key, outFace: nat, refused: bool, newNonce: Option<nat>)
      requires Valid() && key in pit && pit[key].inRecords != []
      modifies this`pit
      ensures Valid() && key in pit && pit == old(pit)[key := old(pit)[key].(outRecords := pit[key].outRecords)]
      ensures pit[key] == AfterAction(old(pit)[key], Send(outFace, refused, newNonce))
      ensures !refused ==> exists p :: p in pit[key].inRecords && Picked(p, pit[key].inRecords, outFace)
                             && pit[key].outRecords == Updated(old(pit)[key].outRecords, Outgoing(p, outFace, newNonce))
    {
      if refused {
        return;
      }
      var picked := PickInterest(pit[key].inRecords, outFace);
      var r := Outgoing(picked, outFace, newNonce);
      UpdatedIs(pit[key].outRecords, r);
      Change(key, pit[key].(outRecords := Updated(pit[key].outRecords, r)));
    }

    /** onInterestReject: an Interest that is still out is not rejected. */
    method OnInterestReject(key: Key)
      requires Valid() && key in pit
      modifies this`pit
      ensures Valid()
      ensures pit == if HasUnexpired(old(pit)[key].outRecords) then old(pit)
                     else old(pit)[key := GivenUp(old(pit)[key])]
    {
      if !HasUnexpired(pit[key].outRecords) {
        Change(key, pit[key].(unsatisfy := None, straggler := Some(Straggler(now + STRAGGLER_TIME, false, -1))));
      }
    }

    // ----- Data -----

    /** The faces of the in-records that have not expired. */
    function Unexpired(rs: seq<FaceRecord>): set<nat>
      reads this`now
    {
      set i | 0 <= i < |rs| && rs[i].expiry > now :: rs[i].face
    }

    /** The nonce goes on the dead nonce list under the name with what became of the entry. */
    predicate Dies(key: Key, e: Entry, isSatisfied: bool, freshness: int, upstream: Option<nat>, name: nat,
                   nonce: nat) {
      && name == key.name && (!isSatisfied || (e.mustBeFresh && 0 <= freshness < deadNonceLifetime))
      && WentOut(e.outRecords, upstream, nonce)
    }

    /** insertDeadNonceList: for a satisfied entry only if a quickly stale Data was asked for. */
    method InsertDeadNonces(key: Key, e: Entry, isSatisfied: bool, freshness: int, upstream: Option<nat>)
      modifies this`deadNonces
      ensures forall m: nat, n: nat :: (m, n) in deadNonces
                <==> (m, n) in old(deadNonces) || Dies(key, e, isSatisfied, freshness, upstream, m, n)
    {
      if isSatisfied && !(e.mustBeFresh && 0 <= freshness < deadNonceLifetime) {
        return;
      }
      for i := 0 to |e.outRecords|
        invariant forall m: nat, n: nat :: (m, n) in deadNonces
                    <==> (m, n) in old(deadNonces) || (m == key.name && WentOut(e.outRecords[..i], upstream, n))
      {
        var r := e.outRecords[i];
        if upstream.None? || r.face == upstream.value {
          deadNonces := deadNonces + {(key.name, r.nonce)};
        }
        assert e.outRecords[..i + 1] == e.outRecords[..i] + [r];
      }
      assert e.outRecords[..|e.outRecords|] == e.outRecords;
    }

    /** The face waits in one of the entries. */
    ghost predicate WaitedFor(t: Pit, keys: seq<Key>, face: nat)
      reads this`now
    {
      exists k :: k in keys && k in t && face in Unexpired(t[k].inRecords)
    }

    /** The nonce dies in one of the entries the Data satisfies. */
    ghost predicate DiesIn(t: Pit, keys: seq<Key>, inFace: nat, freshness: int, name: nat, nonce: nat) {
      exists k :: k in keys && k in t && Dies(k, t[k], true, freshness, Some(inFace), name, nonce)
    }

    /** The entry after Data from `inFace`. */
    function Satisfied(e: Entry, inFace: nat, freshness: int): Entry
      reads this`now
    {
      e.(inRecords := [], outRecords := Deleted(e.outRecords, inFace), unsatisfy := None,
         straggler := Some(Straggler(now + STRAGGLER_TIME, true, freshness)))
    }

    /** What the Data owes downstream is covered by the in-records it consumed. */
    ghost predicate BalancedWith(pending: set<nat>)
      reads this`pit, this`interestsIn, this`datasOut
    {
      forall f: nat {:trigger Holding(pit, f)} :: Of(datasOut, f) + Holding(pit, f) + One(f in pending)
          <= Of(interestsIn, f)
    }

    /** One matching entry: its downstreams are remembered and its in-records consumed. */
    method Satisfy(key: Key, inFace: nat, freshness: int, pending: set<nat>) returns (pending': set<nat>)
      requires EntriesOk() && BalancedWith(pending) && key in pit
      modifies this`pit, this`deadNonces
      ensures EntriesOk() && BalancedWith(pending') && pending' == pending + Unexpired(old(pit)[key].inRecords)
      ensures pit == old(pit)[key := Satisfied(old(pit)[key], inFace, freshness)]
      ensures forall m: nat, n: nat :: (m, n) in deadNonces
                <==> (m, n) in old(deadNonces) || Dies(key, old(pit)[key], true, freshness, Some(inFace), m, n)
    {
      pending' := pending + Unexpired(pit[key].inRecords);
      InsertDeadNonces(key, pit[key], true, freshness, Some(inFace));
      var e := Satisfied(pit[key], inFace, freshness);
      DeletedOne(pit[key].outRecords, inFace);
      forall f: nat
        ensures Of(datasOut, f) + Holding(pit[key := e], f) + One(f in pending') <= Of(interestsIn, f)
      {
        HoldingPut(pit, key, e, f);
      }
      pit := pit[key := e];
    }

    /** onIncomingData for the entries the Data matches: afterwards none of them has in-records,
        each waits for stragglers, and every face that was waiting in at least one of them, other
        than the Data's own, has been sent the Data once. */
    method OnIncomingData(inFace: nat, matches: seq<Key>, freshness: int, violatesLocalhost: bool, refused: set<nat>)
      requires Valid() && (forall i, j :: 0 <= i < j < |matches| ==> matches[i] != matches[j])
      requires forall k :: k in matches ==> k in pit
      modifies this`pit, this`datasOut, this`deadNonces
      ensures Valid()
      ensures violatesLocalhost ==> pit == old(pit) && datasOut == old(datasOut) && deadNonces == old(deadNonces)
      ensures IdleKept(old(pit), pit, if violatesLocalhost then {} else set k | k in matches)
      ensures !violatesLocalhost ==>
                forall m: nat, n: nat :: (m, n) in deadNonces
                  <==> (m, n) in old(deadNonces) || DiesIn(old(pit), matches, inFace, freshness, m, n)
      ensures !violatesLocalhost ==>
                && pit.Keys == old(pit).Keys
                && (forall k :: k in pit ==>
                      pit[k] == if k in matches then Satisfied(old(pit)[k], inFace, freshness) else old(pit)[k])
                && (forall f: nat {:trigger Of(datasOut, f)} ::
                      Of(datasOut, f) == Of(old(datasOut), f)
                        + if f != inFace && f !in refused && WaitedFor(old(pit), matches, f) then 1 else 0)
    {
      if violatesLocalhost {
        return;
      }
      var pending := SatisfyAll(inFace, matches, freshness);
      SendDownstream(pending, inFace, refused);
    }

    method SatisfyAll(inFace: nat, matches: seq<Key>, freshness: int) returns (pending: set<nat>)
      requires Valid() && (forall i, j :: 0 <= i < j < |matches| ==> matches[i] != matches[j])
      requires forall k :: k in matches ==> k in pit
      modifies this`pit, this`deadNonces
      ensures EntriesOk() && BalancedWith(pending) && pit.Keys == old(pit).Keys
      ensures forall k :: k in pit ==>
                pit[k] == if k in matches then Satisfied(old(pit)[k], inFace, freshness) else old(pit)[k]
      ensures forall f: nat :: f in pending <==> WaitedFor(old(pit), matches, f)
      ensures forall m: nat, n: nat :: (m, n) in deadNonces
                <==> (m, n) in old(deadNonces) || DiesIn(old(pit), matches, inFace, freshness, m, n)
    {
      pending := {};
      for i := 0 to |matches|
        invariant EntriesOk() && BalancedWith(pending) && pit.Keys == old(pit).Keys
        invariant forall k :: k in pit ==>
                    pit[k] == if k in matches[..i] then Satisfied(old(pit)[k], inFace, freshness) else old(pit)[k]
        invariant forall f: nat :: f in pending <==> WaitedFor(old(pit), matches[..i], f)
        invariant forall m: nat, n: nat :: (m, n) in deadNonces
                    <==> (m, n) in old(deadNonces) || DiesIn(old(pit), matches[..i], inFace, freshness, m, n)
      {
        assert matches[i] !in matches[..i] && matches[i] in matches;
        assert matches[..i + 1] == matches[..i] + [matches[i]];
        pending := Satisfy(matches[i], inFace, freshness, pending);
      }
      assert matches[..|matches|] == matches;
    }

    method SendDownstream(pending: set<nat>, inFace: nat, refused: set<nat>)
      requires BalancedWith(pending)
      modifies this`datasOut
      ensures Balanced()
      ensures forall f: nat {:trigger Of(datasOut, f)} ::
                Of(datasOut, f) == Of(old(datasOut), f) + if f in pending && f != inFace && f !in refused then 1 else 0
    {
      var left := pending;
      while left != {}
        invariant left <= pending && BalancedWith(left)
        invariant forall f: nat {:trigger Of(datasOut, f)} ::
                    Of(datasOut, f) == Of(old(datasOut), f)
                        + if f in pending && f !in left && f != inFace && f !in refused then 1 else 0
        decreases |left|
      {
        var f :| f in left;
        ghost var before := datasOut;
        left := left - {f};
        if f != inFace {
          OnOutgoingData(f, f in refused);
        }
        assert forall g: nat {:trigger Of(datasOut, g)} ::
            Of(datasOut, g) == Of(before, g) + if g == f && f != inFace && f !in refused then 1 else 0;
      }
    }

    // ----- timers and time -----

    /** onInterestFinalize. */
    method OnInterestFinalize(key: Key, isSatisfied: bool, freshness: int)
      requires Valid() && key in pit
      modifies this`pit, this`deadNonces
      ensures Valid() && pit == old(pit) - {key}
      ensures forall m: nat, n: nat :: (m, n) in deadNonces
                <==> (m, n) in old(deadNonces) || Dies(key, old(pit)[key], isSatisfied, freshness, None, m, n)
    {
      InsertDeadNonces(key, pit[key], isSatisfied, freshness, None);
      forall f: nat
        ensures Of(datasOut, f) + Holding(pit - {key}, f) <= Of(interestsIn, f)
      {
        HoldingErase(pit, key, f);
      }
      pit := pit - {key};
    }

    /** The unsatisfy timer fires: the entry still has in-records, which no Data consumed, and
        every one of them has expired. */
    method FireUnsatisfy(key: Key)
      requires Valid() && key in pit && pit[key].unsatisfy == Some(now)
      modifies this`pit, this`deadNonces
      ensures Valid() && pit == old(pit) - {key}
      ensures old(pit)[key].inRecords != [] && Unexpired(old(pit)[key].inRecords) == {}
      ensures IdleKept(old(pit), pit, {})
      ensures forall m: nat, n: nat :: (m, n) in deadNonces
                <==> (m, n) in old(deadNonces) || (m == key.name && WentOut(old(pit)[key].outRecords, None, n))
    {
      forall i | 0 <= i < |pit[key].inRecords|
        ensures pit[key].inRecords[i].expiry <= now
      {
        assert pit[key].inRecords[i] in pit[key].inRecords;
      }
      OnInterestFinalize(key, false, -1);
    }

    /** The straggler timer fires. */
    method FireStraggler(key: Key)
      requires Valid() && key in pit && pit[key].straggler.Some? && pit[key].straggler.value.at == now
      modifies this`pit, this`deadNonces
      ensures Valid() && pit == old(pit) - {key} && old(pit)[key].unsatisfy.None? && IdleKept(old(pit), pit, {})
      ensures var s := old(pit)[key].straggler.value;
              forall m: nat, n: nat :: (m, n) in deadNonces
                <==> (m, n) in old(deadNonces) || Dies(key, old(pit)[key], s.isSatisfied, s.freshness, None, m, n)
    {
      OnInterestFinalize(key, pit[key].straggler.value.isSatisfied, pit[key].straggler.value.freshness);
    }

    /** Time moves on, no further than the next timer. */
    method Advance(to: nat)
      requires Valid() && now <= to
      requires forall k :: k in pit ==>
                 && (pit[k].unsatisfy.Some? ==> to <= pit[k].unsatisfy.value)
                 && (pit[k].straggler.Some? ==> to <= pit[k].straggler.value.at)
      modifies this`now
      ensures Valid() && now == to && pit == old(pit)
    {
      now := to;
    }
  }
}
