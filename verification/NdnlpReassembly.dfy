/** Putting NDNLP fragments together again: the store of partial messages, and what it delivers
    over every run of arrivals and cleanups. */
module NdnlpReassembly {
  import opened Options
  import opened Tlv
  import opened NdnlpCodec
  import opened NdnlpSlicer

  // ----- a partial message -----

  /** `expiry` is when the cleanup event of the message fires. */
  datatype Partial = Partial(fragCount: nat, received: nat, payloads: seq<Option<Bytes>>, totalLength: nat, expiry: nat)

  const EMPTY: Partial := Partial(0, 0, [], 0, 0)

  function CountSome(ps: seq<Option<Bytes>>): (n: nat)
    ensures n <= |ps|
  {
    if ps == [] then 0 else CountSome(ps[..|ps| - 1]) + if ps[|ps| - 1].Some? then 1 else 0
  }

  /** The payloads there are, one after the other. */
  function Collect(ps: seq<Option<Bytes>>): Bytes {
    if ps == [] then [] else Collect(ps[..|ps| - 1]) + if ps[|ps| - 1].Some? then ps[|ps| - 1].value else []
  }

  predicate PartialOk(p: Partial) {
    |p.payloads| == p.fragCount && p.received == CountSome(p.payloads) && p.totalLength == |Collect(p.payloads)|
  }

  function Resize(ps: seq<Option<Bytes>>, n: nat): (r: seq<Option<Bytes>>)
    ensures |r| == n
  {
    seq(n, i requires 0 <= i < n => if i < |ps| then ps[i] else None)
  }

  /** The first fragment fixes the count; another count, an index out of range or a duplicate is
      not added. */
  function AddTo(p: Partial, fragIndex: nat, fragCount: nat, payload: Bytes): (Partial, bool)
    requires PartialOk(p)
  {
    var q := if p.received == 0 then p.(fragCount := fragCount, payloads := Resize(p.payloads, fragCount)) else p;
    if q.fragCount != fragCount || fragIndex >= q.fragCount then (q, false)
    else if q.payloads[fragIndex].Some? then (q, false)
    else (q.(payloads := q.payloads[fragIndex := Some(payload)], received := q.received + 1,
             totalLength := q.totalLength + |payload|), true)
  }

  lemma {:induction false} NoneReceived(ps: seq<Option<Bytes>>)
    ensures CountSome(ps) == 0 <==> forall i :: 0 <= i < |ps| ==> ps[i].None?
    ensures CountSome(ps) == 0 ==> Collect(ps) == []
  {
    if ps != [] {
      NoneReceived(ps[..|ps| - 1]);
    }
  }

  lemma {:induction false} AllReceived(ps: seq<Option<Bytes>>)
    ensures CountSome(ps) == |ps| <==> forall i :: 0 <= i < |ps| ==> ps[i].Some?
  {
    if ps != [] {
      AllReceived(ps[..|ps| - 1]);
    }
  }

  lemma {:induction false} FillOne(ps: seq<Option<Bytes>>, i: nat, b: Bytes)
    requires i < |ps| && ps[i].None?
    ensures CountSome(ps[i := Some(b)]) == CountSome(ps) + 1
    ensures |Collect(ps[i := Some(b)])| == |Collect(ps)| + |b|
  {
    var front := ps[..|ps| - 1];
    if i < |ps| - 1 {
      FillOne(front, i, b);
      assert ps[i := Some(b)][..|ps| - 1] == front[i := Some(b)];
    } else {
      assert ps[i := Some(b)][..|ps| - 1] == front;
    }
  }

  /** The counters stay exact whatever fragments come. */
  lemma AddKeepsOk(p: Partial, fragIndex: nat, fragCount: nat, payload: Bytes)
    requires PartialOk(p)
    ensures PartialOk(AddTo(p, fragIndex, fragCount, payload).0)
  {
    NoneReceived(p.payloads);
    NoneReceived(Resize(p.payloads, fragCount));
    var q := if p.received == 0 then p.(fragCount := fragCount, payloads := Resize(p.payloads, fragCount)) else p;
    if fragIndex < q.fragCount && q.payloads[fragIndex].None? {
      FillOne(q.payloads, fragIndex, payload);
    }
  }

  class PartialMessage {
    var fragCount: nat
    var received: nat
    var payloads: seq<Option<Bytes>>
    var totalLength: nat
    var expiry: nat

    function View(): Partial
      reads this
    {
      Partial(fragCount, received, payloads, totalLength, expiry)
    }

    constructor ()
      ensures View() == EMPTY
    {
      fragCount, received, payloads, totalLength, expiry := 0, 0, [], 0, 0;
    }

    method Add(index: nat, count: nat, payload: Bytes) returns (added: bool)
      requires PartialOk(View())
      modifies this`fragCount, this`received, this`payloads, this`totalLength
      ensures (View(), added) == AddTo(old(View()), index, count, payload)
      ensures PartialOk(View())
    {
      AddKeepsOk(View(), index, count, payload);
      if received == 0 {
        fragCount := count;
        payloads := Resize(payloads, count);
      }
      if fragCount != count || index >= fragCount {
        return false;
      }
      if payloads[index].Some? {
        return false;
      }
      payloads := payloads[index := Some(payload)];
      received := received + 1;
      totalLength := totalLength + |payload|;
      return true;
    }

    predicate IsComplete()
      reads this
    {
      received == fragCount
    }

    /** Copies the payloads into a buffer of the recorded total length; the copy ends exactly
        where the buffer does. */
    method Reassemble() returns (packet: Option<Bytes>)
      requires PartialOk(View()) && IsComplete()
      ensures packet == FirstElement(Collect(payloads))
    {
      var buffer := new Byte[totalLength];
      var buf := 0;
      AllReceived(payloads);
      for k := 0 to |payloads|
        invariant buf == |Collect(payloads[..k])| <= buffer.Length
        invariant buffer[..buf] == Collect(payloads[..k])
      {
        CollectGrows(payloads, k);
        var payload := payloads[k].value;
        Copy(buffer, buf, payload);
        buf := buf + |payload|;
      }
      assert payloads[..|payloads|] == payloads;
      assert buf == buffer.Length;
      assert buffer[..buf] == buffer[..];
      packet := FirstElement(buffer[..]);
    }
  }

  method Copy(buffer: array<Byte>, at: nat, bytes: Bytes)
    requires at + |bytes| <= buffer.Length
    modifies buffer
    ensures buffer[..at + |bytes|] == old(buffer[..at]) + bytes
  {
    for i := 0 to |bytes|
      invariant buffer[..at + i] == old(buffer[..at]) + bytes[..i]
    {
      buffer[at + i] := bytes[i];
    }
  }

  lemma CollectGrows(ps: seq<Option<Bytes>>, k: nat)
    requires k < |ps| && ps[k].Some?
    ensures Collect(ps[..k + 1]) == Collect(ps[..k]) + ps[k].value
    ensures |Collect(ps[..k])| + |ps[k].value| <= |Collect(ps)|
  {
    assert ps[..k + 1][..k] == ps[..k];
    CollectPrefix(ps, k + 1);
  }

  lemma {:induction false} CollectPrefix(ps: seq<Option<Bytes>>, k: nat)
    requires k <= |ps|
    ensures |Collect(ps[..k])| <= |Collect(ps)|
  {
    if k == |ps| {
      assert ps[..k] == ps;
    } else {
      CollectPrefix(ps[..|ps| - 1], k);
      assert ps[..|ps| - 1][..k] == ps[..k];
    }
  }

  /** Block::fromBuffer on the reassembled bytes takes the element at their front. */
  function FirstElement(bytes: Bytes): Option<Bytes> {
    if FromBuffer(bytes).Some? then Some(bytes[..FromBuffer(bytes).value.size]) else None
  }

  /** blockFromValue on a single fragment wants an element that fills the payload. */
  function WholeElement(bytes: Bytes): Option<Bytes> {
    if FromBuffer(bytes).Some? && FromBuffer(bytes).value.size == |bytes| then Some(bytes) else None
  }

  // ----- the store -----

  type Store = map<nat, Partial>

  predicate StoreOk(s: Store) {
    forall id :: id in s ==> PartialOk(s[id])
  }

  function Identifier(d: NdnlpData): nat {
    (d.seqNo - d.fragIndex) % TWO_TO_64
  }

  /** The message's cleanup is put off, and the fragment added. */
  function Extended(s: Store, d: NdnlpData, expiry: nat): Partial
    requires StoreOk(s)
  {
    var p := if Identifier(d) in s then s[Identifier(d)] else EMPTY;
    AddTo(p.(expiry := expiry), d.fragIndex, d.fragCount, d.payload).0
  }

  /** The store after a fragment, and the packet it delivers, if any. */
  function Receive(s: Store, d: NdnlpData, expiry: nat): (r: (Store, Option<Bytes>))
    requires StoreOk(s)
  {
    if d.fragCount == 1 then (s, WholeElement(d.payload))
    else
      var p := Extended(s, d, expiry);
      if p.received == p.fragCount then (s - {Identifier(d)}, FirstElement(Collect(p.payloads)))
      else (s[Identifier(d) := p], None)
  }

  lemma PutAndTake(s: Store, id: nat, p: Partial)
    ensures s[id := p] - {id} == s - {id}
  {
  }

  lemma PutTwice(s: Store, id: nat, p: Partial, q: Partial)
    ensures s[id := p][id := q] == s[id := q]
  {
  }

  class PartialMessageStore {
    var partialMessages: map<nat, PartialMessage>
    const idleDuration: nat

    ghost predicate Valid()
      reads this, partialMessages.Values
    {
      && (forall id :: id in partialMessages ==> PartialOk(partialMessages[id].View()))
      && (forall a, b :: a in partialMessages && b in partialMessages && a != b ==>
          partialMessages[a] != partialMessages[b])
    }

    ghost function View(): Store
      reads this, partialMessages.Values
    {
      map id | id in partialMessages :: partialMessages[id].View()
    }

    constructor (idleDuration: nat)
      ensures Valid() && View() == map[]
    {
      this.idleDuration := idleDuration;
      partialMessages := map[];
    }

    /** Every fragment of a longer message puts off that message's cleanup. */
    method ReceiveFragment(d: NdnlpData, now: nat) returns (delivered: Option<Bytes>)
      requires Valid()
      modifies this, partialMessages.Values
      ensures Valid() && (View(), delivered) == Receive(old(View()), d, now + idleDuration)
    {
      if d.fragCount == 1 {
        return WholeElement(d.payload);
      }
      var messageIdentifier := Identifier(d);
      AddFragment(messageIdentifier, d, now);
      delivered := Deliver(messageIdentifier);
      PutAndTake(old(View()), messageIdentifier, Extended(old(View()), d, now + idleDuration));
    }

    /** A complete message leaves the store. */
    method Deliver(id: nat) returns (delivered: Option<Bytes>)
      requires Valid() && id in partialMessages
      modifies this`partialMessages
      ensures Valid()
      ensures var p := old(View())[id];
              if p.received == p.fragCount then View() == old(View()) - {id}
                  && delivered == FirstElement(Collect(p.payloads))
              else View() == old(View()) && delivered == None
    {
      var pm := partialMessages[id];
      assert View()[id] == pm.View();
      delivered := None;
      if pm.IsComplete() {
        delivered := pm.Reassemble();
        Cleanup(id);
      }
    }

    method AddFragment(id: nat, d: NdnlpData, now: nat)
      requires Valid() && id == Identifier(d)
      modifies this`partialMessages, partialMessages.Values
      ensures Valid() && id in partialMessages
      ensures View() == old(View())[id := Extended(old(View()), d, now + idleDuration)]
    {
      ghost var s := View();
      Lookup(id);
      AddAt(id, d, now);
      PutTwice(s, id, if id in s then s[id] else EMPTY, Extended(s, d, now + idleDuration));
    }

    method AddAt(id: nat, d: NdnlpData, now: nat)
      requires Valid() && id in partialMessages
      modifies partialMessages[id]
      ensures Valid()
      ensures View() == old(View())[id := AddTo(old(View())[id].(expiry := now + idleDuration),
                                                d.fragIndex, d.fragCount, d.payload).0]
    {
      var pm := partialMessages[id];
      assert View()[id] == pm.View();
      pm.expiry := now + idleDuration;
      var added := pm.Add(d.fragIndex, d.fragCount, d.payload);
      assert forall i :: i in partialMessages && i != id ==> partialMessages[i] != pm;
    }

    /** operator[] of the map: a new partial message where there is none. */
    method Lookup(id: nat)
      requires Valid()
      modifies this`partialMessages
      ensures Valid() && partialMessages.Keys == old(partialMessages).Keys + {id}
      ensures forall i :: i in old(partialMessages) ==> partialMessages[i] == old(partialMessages)[i]
      ensures id !in old(partialMessages) ==> fresh(partialMessages[id])
      ensures View() == old(View())[id := if id in old(View()) then old(View())[id] else EMPTY]
    {
      if id !in partialMessages {
        var pm := new PartialMessage();
        partialMessages := partialMessages[id := pm];
      }
    }

    method Cleanup(id: nat)
      requires Valid()
      modifies this`partialMessages
      ensures Valid() && partialMessages == old(partialMessages) - {id} && View() == old(View()) - {id}
    {
      partialMessages := partialMessages - {id};
    }
  }
}
