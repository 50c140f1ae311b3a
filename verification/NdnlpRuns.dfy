/** What a receiver delivers of the messages of one slicer, over every run of arrivals, in any
    order, with loss, duplication, interleaving and cleanups. */
module NdnlpRuns {
  import opened Options
  import opened Tlv
  import opened NdnlpCodec
  import opened NdnlpSlicer
  import opened NdnlpReassembly

  /** A sliced packet: its first sequence number and its payloads. */
  datatype Message = Message(start: nat, payloads: seq<Bytes>) {
    function Packet(): Bytes { Join(payloads) }
  }

  function Total(ms: seq<Message>): nat {
    if ms == [] then 0 else Total(ms[..|ms| - 1]) + |ms[|ms| - 1].payloads|
  }

  /** The messages of one slicer that has used fewer than 2^64 sequence numbers: each starts
      where the one before ended. */
  ghost predicate Sent(ms: seq<Message>) {
    && Total(ms) < TWO_TO_64
    && forall j :: 0 <= j < |ms| ==> ms[j].start == Total(ms[..j]) && 1 <= |ms[j].payloads| <= UINT16_MAX
  }

  function FragmentOf(ms: seq<Message>, j: nat, i: nat): NdnlpData
    requires j < |ms| && i < |ms[j].payloads|
  {
    NdnlpData((ms[j].start + i) % TWO_TO_64, i, |ms[j].payloads|, ms[j].payloads[i])
  }

  lemma {:induction false} TotalGrows(ms: seq<Message>, a: nat, b: nat)
    requires a <= b <= |ms|
    ensures Total(ms[..a]) <= Total(ms[..b])
    ensures a < b ==> Total(ms[..a]) + |ms[a].payloads| <= Total(ms[..b])
    decreases b
  {
    if a < b {
      assert ms[..b][..b - 1] == ms[..b - 1];
      TotalGrows(ms, a, b - 1);
    }
  }

  /** Blocks of sequence numbers do not overlap, so a fragment's identifier is its message's start. */
  lemma StartsApart(ms: seq<Message>, j: nat, k: nat)
    requires Sent(ms) && j < k < |ms|
    ensures ms[j].start + |ms[j].payloads| <= ms[k].start
  {
    TotalGrows(ms, j, k);
  }

  lemma InBlock(ms: seq<Message>, j: nat, i: nat)
    requires Sent(ms) && j < |ms| && i < |ms[j].payloads|
    ensures ms[j].start + i < TWO_TO_64 && Identifier(FragmentOf(ms, j, i)) == ms[j].start
  {
    TotalGrows(ms, j, |ms|);
    assert ms[..|ms|] == ms;
  }

  // ----- runs -----

  datatype Happening = Arrive(message: nat, index: nat, expiry: nat) | Cleanup(id: nat)

  ghost predicate Happens(ms: seq<Message>, evs: seq<Happening>) {
    forall e :: e in evs ==> e.Arrive? ==> e.message < |ms| && e.index < |ms[e.message].payloads|
  }

  lemma ReceiveKeepsOk(s: Store, d: NdnlpData, expiry: nat)
    requires StoreOk(s)
    ensures StoreOk(Receive(s, d, expiry).0)
  {
    var p := if Identifier(d) in s then s[Identifier(d)] else EMPTY;
    AddKeepsOk(p.(expiry := expiry), d.fragIndex, d.fragCount, d.payload);
  }

  function StoreAfter(ms: seq<Message>, evs: seq<Happening>): (s: Store)
    requires Happens(ms, evs)
    ensures StoreOk(s)
    decreases |evs|
  {
    if evs == [] then map[]
    else
      var front, last := evs[..|evs| - 1], evs[|evs| - 1];
      assert last in evs && forall e :: e in front ==> e in evs;
      match last
      case Cleanup(id) => StoreAfter(ms, front) - {id}
      case Arrive(j, i, expiry) =>
        ReceiveKeepsOk(StoreAfter(ms, front), FragmentOf(ms, j, i), expiry);
        Receive(StoreAfter(ms, front), FragmentOf(ms, j, i), expiry).0
  }

  /** What the arrival of a fragment after the run delivers. */
  function Delivered(ms: seq<Message>, evs: seq<Happening>, j: nat, i: nat): Option<Bytes>
    requires Happens(ms, evs) && j < |ms| && i < |ms[j].payloads|
  {
    Receive(StoreAfter(ms, evs), FragmentOf(ms, j, i), 0).1
  }

  function All(n: nat): (s: set<nat>)
    ensures forall i: int :: i in s <==> 0 <= i < n
  {
    if n == 0 then {} else All(n - 1) + {n - 1}
  }

  /** The fragments of the message that arrived since it was last delivered or cleaned up. */
  function Gathered(ms: seq<Message>, evs: seq<Happening>, j: nat): (have: set<nat>)
    requires j < |ms|
    decreases |evs|
  {
    if evs == [] then {}
    else
      var before, last := Gathered(ms, evs[..|evs| - 1], j), evs[|evs| - 1];
      match last
      case Cleanup(id) => if id == ms[j].start then {} else before
      case Arrive(k, i, _) =>
        if k != j then before
        else if before + {i} == All(|ms[j].payloads|) then {} else before + {i}
  }

  function Slots(m: Message, have: set<nat>): (ps: seq<Option<Bytes>>)
    ensures |ps| == |m.payloads|
  {
    seq(|m.payloads|, i requires 0 <= i < |m.payloads| => if i in have then Some(m.payloads[i]) else None)
  }

  /** The store holds, for the message, exactly the fragments gathered. */
  ghost predicate Holds(s: Store, m: Message, have: set<nat>) {
    && (m.start in s <==> have != {})
    && (m.start in s ==> s[m.start].fragCount == |m.payloads| && s[m.start].payloads == Slots(m, have))
  }

  ghost predicate RunInv(ms: seq<Message>, evs: seq<Happening>)
    requires Happens(ms, evs)
  {
    && forall j {:trigger Gathered(ms, evs, j)} :: 0 <= j < |ms| && |ms[j].payloads| > 1 ==>
         && Gathered(ms, evs, j) < All(|ms[j].payloads|)
         && Holds(StoreAfter(ms, evs), ms[j], Gathered(ms, evs, j))
  }

  lemma SlotsCount(m: Message, have: set<nat>)
    requires have <= All(|m.payloads|)
    ensures CountSome(Slots(m, have)) == 0 <==> have == {}
    ensures CountSome(Slots(m, have)) == |m.payloads| <==> have == All(|m.payloads|)
  {
    var ps := Slots(m, have);
    NoneReceived(ps);
    AllReceived(ps);
    if have != {} {
      var i :| i in have;
      assert ps[i].Some?;
    }
    if have != All(|m.payloads|) {
      var i :| i in All(|m.payloads|) && i !in have;
      assert ps[i].None?;
    }
    assert forall i :: 0 <= i < |ps| ==> (ps[i].Some? <==> i in have);
  }

  /** Adding a fragment of a message to its slots. */
  lemma AddSlot(s: Store, m: Message, have: set<nat>, i: nat, d: NdnlpData, expiry: nat)
    requires StoreOk(s) && Holds(s, m, have) && have < All(|m.payloads|) && i < |m.payloads|
    requires Identifier(d) == m.start && d.fragIndex == i && d.fragCount == |m.payloads| && d.payload == m.payloads[i]
    ensures var p := Extended(s, d, expiry);
            PartialOk(p) && p.fragCount == |m.payloads| && p.payloads == Slots(m, have + {i})
  {
    var p := if m.start in s then s[m.start] else EMPTY;
    AddKeepsOk(p.(expiry := expiry), d.fragIndex, d.fragCount, d.payload);
    SlotsCount(m, have);
    if m.start in s {
      assert p.received == CountSome(p.payloads) != 0;
      if i in have {
        assert have + {i} == have;
      } else {
        assert Slots(m, have)[i := Some(m.payloads[i])] == Slots(m, have + {i});
      }
    } else {
      assert Resize([], |m.payloads|)[i := Some(m.payloads[i])] == Slots(m, have + {i});
    }
  }

  lemma {:induction false} CollectAll(m: Message, k: nat)
    requires k <= |m.payloads|
    ensures Collect(Slots(m, All(|m.payloads|))[..k]) == Join(m.payloads[..k])
  {
    var ps := Slots(m, All(|m.payloads|));
    if k > 0 {
      CollectAll(m, k - 1);
      assert ps[..k][..k - 1] == ps[..k - 1];
      assert m.payloads[..k][..k - 1] == m.payloads[..k - 1];
    }
  }

  /** A fragment of a longer message: complete with the others, it delivers the packet. */
  lemma ReceiveFragmentOf(s: Store, m: Message, have: set<nat>, i: nat, d: NdnlpData, expiry: nat)
    requires StoreOk(s) && Holds(s, m, have) && have < All(|m.payloads|) && i < |m.payloads| && |m.payloads| > 1
    requires Identifier(d) == m.start && d.fragIndex == i && d.fragCount == |m.payloads| && d.payload == m.payloads[i]
    ensures var (s', out) := Receive(s, d, expiry);
            var now := have + {i};
            && out == (if now == All(|m.payloads|) then FirstElement(m.Packet()) else None)
            && Holds(s', m, if now == All(|m.payloads|) then {} else now)
            && (forall id :: id != m.start ==> (id in s' <==> id in s) && (id in s ==> s'[id] == s[id]))
  {
    AddSlot(s, m, have, i, d, expiry);
    SlotsCount(m, have + {i});
    CollectAll(m, |m.payloads|);
    var ps := Slots(m, All(|m.payloads|));
    assert ps[..|m.payloads|] == ps && m.payloads[..|m.payloads|] == m.payloads;
  }

  lemma StepKeeps(ms: seq<Message>, evs: seq<Happening>, j: nat)
    requires Sent(ms) && Happens(ms, evs) && evs != [] && j < |ms| && |ms[j].payloads| > 1
    requires Happens(ms, evs[..|evs| - 1]) && RunInv(ms, evs[..|evs| - 1])
    ensures Gathered(ms, evs, j) < All(|ms[j].payloads|)
    ensures Holds(StoreAfter(ms, evs), ms[j], Gathered(ms, evs, j))
  {
    var front, last := evs[..|evs| - 1], evs[|evs| - 1];
    var have := Gathered(ms, front, j);
    assert last in evs;
    if last.Arrive? {
      var k, i := last.message, last.index;
      InBlock(ms, k, i);
      var s := StoreAfter(ms, front);
      if k == j {
        ReceiveFragmentOf(s, ms[j], have, i, FragmentOf(ms, j, i), last.expiry);
        NotYetAll(have, i, |ms[j].payloads|);
      } else {
        if k < j {
          StartsApart(ms, k, j);
        } else {
          StartsApart(ms, j, k);
        }
        if |ms[k].payloads| > 1 {
          ReceiveFragmentOf(s, ms[k], Gathered(ms, front, k), i, FragmentOf(ms, k, i), last.expiry);
        }
      }
    }
  }

  lemma NotYetAll(have: set<nat>, i: nat, n: nat)
    requires have < All(n) && i < n && n > 0
    ensures have + {i} == All(n) || have + {i} < All(n)
    ensures {} < All(n)
  {
    assert 0 in All(n);
  }

  lemma {:induction false} RunKeeps(ms: seq<Message>, evs: seq<Happening>)
    requires Sent(ms) && Happens(ms, evs)
    ensures RunInv(ms, evs)
    decreases |evs|
  {
    if evs == [] {
      forall j | 0 <= j < |ms| && |ms[j].payloads| > 1
        ensures Gathered(ms, evs, j) < All(|ms[j].payloads|)
      {
        assert 0 in All(|ms[j].payloads|);
      }
    } else {
      assert forall e :: e in evs[..|evs| - 1] ==> e in evs;
      RunKeeps(ms, evs[..|evs| - 1]);
      forall j | 0 <= j < |ms| && |ms[j].payloads| > 1
        ensures Gathered(ms, evs, j) < All(|ms[j].payloads|) && Holds(StoreAfter(ms, evs), ms[j], Gathered(ms, evs, j))
      {
        StepKeeps(ms, evs, j);
      }
    }
  }

  /** A packet as a network layer hands it over: one element, from its first byte to its last. */
  predicate IsPacket(bytes: Bytes) {
    FromBuffer(bytes).Some? && FromBuffer(bytes).value.size == |bytes|
  }

  /** In every run, the arrival of a fragment delivers the packet it was cut from, exactly when
      the fragments of that packet gathered so far, with this one, are all of them; otherwise it
      delivers nothing. What is delivered is never a mix of packets. */
  lemma DeliversExactly(ms: seq<Message>, evs: seq<Happening>, j: nat, i: nat)
    requires Sent(ms) && Happens(ms, evs) && j < |ms| && i < |ms[j].payloads| && IsPacket(ms[j].Packet())
    ensures Delivered(ms, evs, j, i)
            == if Gathered(ms, evs, j) + {i} == All(|ms[j].payloads|) || |ms[j].payloads| == 1
                then Some(ms[j].Packet()) else None
  {
    var m := ms[j];
    RunKeeps(ms, evs);
    InBlock(ms, j, i);
    if |m.payloads| == 1 {
      assert m.payloads[..0] == [];
      assert Join([]) == [];
      assert m.Packet() == [] + m.payloads[0] == m.payloads[0];
    } else {
      ReceiveFragmentOf(StoreAfter(ms, evs), m, Gathered(ms, evs, j), i, FragmentOf(ms, j, i), 0);
      assert m.Packet()[..|m.Packet()|] == m.Packet();
    }
  }

  // ----- completeness -----

  /** The indices of the message that arrive in a stretch of the run. */
  function Arrived(evs: seq<Happening>, j: nat): (indices: set<nat>)
    ensures forall i :: i in indices <==> exists e :: e in evs && e.Arrive? && e.message == j && e.index == i
  {
    if evs == [] then {}
    else
      var front, last := evs[..|evs| - 1], evs[|evs| - 1];
      assert forall e :: e in evs <==> e in front || e == last;
      Arrived(front, j) + if last.Arrive? && last.message == j then {last.index} else {}
  }

  ghost predicate NoCleanup(evs: seq<Happening>, id: nat) {
    forall e :: e in evs ==> e != Cleanup(id)
  }

  /** The event at position `at` of the run delivers the packet of message `j`. */
  ghost predicate DeliveredAt(ms: seq<Message>, evs: seq<Happening>, j: nat, at: nat)
    requires Happens(ms, evs) && j < |ms| && at < |evs|
  {
    && evs[at].Arrive? && evs[at].message == j && evs[at].index < |ms[j].payloads|
    && Happens(ms, evs[..at]) && Delivered(ms, evs[..at], j, evs[at].index) == Some(ms[j].Packet())
  }

  /** While a stretch without cleanup delivers nothing of the message, everything that arrives
      in it stays gathered. */
  lemma {:induction false} GatheredGrows(ms: seq<Message>, evs: seq<Happening>, from: nat, j: nat)
    requires Sent(ms) && Happens(ms, evs) && from <= |evs| && j < |ms| && IsPacket(ms[j].Packet())
    requires |ms[j].payloads| > 1
    requires NoCleanup(evs[from..], ms[j].start)
    requires forall at :: from <= at < |evs| ==> !DeliveredAt(ms, evs, j, at)
    ensures Arrived(evs[from..], j) <= Gathered(ms, evs, j)
    decreases |evs|
  {
    if from < |evs| {
      var front, last := evs[..|evs| - 1], evs[|evs| - 1];
      assert last in evs && forall e :: e in front ==> e in evs;
      assert evs[from..] == front[from..] + [last];
      assert last in evs[from..];
      forall at | from <= at < |front|
        ensures !DeliveredAt(ms, front, j, at)
      {
        assert front[..at] == evs[..at];
        assert !DeliveredAt(ms, evs, j, at);
      }
      assert NoCleanup(front[from..], ms[j].start) by {
        assert forall e :: e in front[from..] ==> e in evs[from..];
      }
      GatheredGrows(ms, front, from, j);
      assert evs[from..][..|evs[from..]| - 1] == front[from..];
      if last.Arrive? && last.message == j {
        DeliversExactly(ms, front, j, last.index);
        assert !DeliveredAt(ms, evs, j, |evs| - 1);
      }
    } else {
      assert evs[from..] == [];
    }
  }

  /** A message whose fragments all arrive in a stretch of the run without a cleanup of it is
      delivered in that stretch. */
  lemma AllArriveDelivers(ms: seq<Message>, evs: seq<Happening>, from: nat, j: nat)
    requires Sent(ms) && Happens(ms, evs) && from <= |evs| && j < |ms| && IsPacket(ms[j].Packet())
    requires |ms[j].payloads| > 1
    requires NoCleanup(evs[from..], ms[j].start)
    requires Arrived(evs[from..], j) == All(|ms[j].payloads|)
    ensures exists at :: from <= at < |evs| && DeliveredAt(ms, evs, j, at)
  {
    if forall at :: from <= at < |evs| ==> !DeliveredAt(ms, evs, j, at) {
      GatheredGrows(ms, evs, from, j);
      RunKeeps(ms, evs);
    }
  }

  // ----- from the wire -----

  /** Each fragment arrives as it was sent: the parser reads from the bytes on the wire, whatever
      follows them, the fragment that was encoded. */
  lemma ArrivesAsSent(ms: seq<Message>, j: nat, i: nat, padding: Bytes)
    requires Sent(ms) && j < |ms| && i < |ms[j].payloads| && |ms[j].payloads[i]| < MAX_PAYLOAD
    ensures var e := FromBuffer(Fragment(FragmentOf(ms, j, i)) + padding);
            e.Some? && FromBlock(e.value) == Ok(FragmentOf(ms, j, i))
  {
    InBlock(ms, j, i);
    FragmentRoundTrip(FragmentOf(ms, j, i), padding);
  }

  /** What one slicer sends of packets it can count: its sequence numbers follow on. */
  function Sliced(packets: seq<Bytes>, m: nat): (ms: seq<Message>)
    requires m > 0
    ensures |ms| == |packets|
  {
    if packets == [] then []
    else
      var front, last := Sliced(packets[..|packets| - 1], m), packets[|packets| - 1];
      front + [Message(Total(front), Payloads(Fragments(last, m, Total(front), Pieces(|last|, m))))]
  }

  lemma {:induction false} SlicedPrefix(packets: seq<Bytes>, m: nat, k: nat)
    requires m > 0 && k <= |packets|
    ensures Sliced(packets, m)[..k] == Sliced(packets[..k], m)
  {
    if k == |packets| {
      assert packets[..k] == packets;
    } else {
      SlicedPrefix(packets[..|packets| - 1], m, k);
      assert packets[..|packets| - 1][..k] == packets[..k];
    }
  }

  /** Slicing packets of at most 65535 pieces, fewer than 2^64 in all, is sending: the messages
      are the packets, in blocks of sequence numbers that follow on. */
  lemma SlicedIsSent(packets: seq<Bytes>, m: nat)
    requires m > 0 && Total(Sliced(packets, m)) < TWO_TO_64
    requires forall j :: 0 <= j < |packets| ==> Countable(packets[j], m)
    ensures Sent(Sliced(packets, m))
    ensures forall j :: 0 <= j < |packets| ==> Sliced(packets, m)[j].Packet() == packets[j]
  {
    var ms := Sliced(packets, m);
    forall j | 0 <= j < |packets|
      ensures ms[j].start == Total(ms[..j]) && 1 <= |ms[j].payloads| <= UINT16_MAX && ms[j].Packet() == packets[j]
    {
      SlicedAt(packets, m, j);
    }
  }

  lemma SlicedAt(packets: seq<Bytes>, m: nat, j: nat)
    requires m > 0 && j < |packets| && Countable(packets[j], m)
    ensures var ms := Sliced(packets, m);
            ms[j].start == Total(ms[..j]) && 1 <= |ms[j].payloads| <= UINT16_MAX && ms[j].Packet() == packets[j]
  {
    var ms := Sliced(packets, m);
    SlicedPrefix(packets, m, j);
    SlicedPrefix(packets, m, j + 1);
    assert packets[..j + 1][..j] == packets[..j];
    assert ms[j] == ms[..j + 1][j];
    CoverExact(packets[j], m, ms[j].start);
    LastPieceEnds(|packets[j]|, m);
  }
}
