/** The receive path of a stream face: TLV elements cut out of chunks that arrive anyhow. */
module StreamFaces {
  import opened Options
  import opened Sequences
  import opened Tlv

  // ----- the elements of a stream -----

  /** The elements at the front of a byte string, and what remains when no more can be read. */
  function Elements(bs: Bytes): (es: seq<Bytes>)
    decreases |bs|
  {
    if FromBuffer(bs).None? then []
    else [bs[..FromBuffer(bs).value.size]] + Elements(bs[FromBuffer(bs).value.size..])
  }

  function Unparsed(bs: Bytes): (rest: Bytes)
    ensures |rest| <= |bs| && FromBuffer(rest).None?
    decreases |bs|
  {
    if FromBuffer(bs).None? then bs else Unparsed(bs[FromBuffer(bs).value.size..])
  }

  function Flatten(chunks: seq<Bytes>): Bytes {
    if chunks == [] then [] else Flatten(chunks[..|chunks| - 1]) + chunks[|chunks| - 1]
  }

  predicate IsElement(e: Bytes) {
    FromBuffer(e).Some? && FromBuffer(e).value.size == |e|
  }

  /** More bytes behind do not change the elements already there. */
  lemma {:induction false} ElementsConcat(a: Bytes, b: Bytes)
    ensures Elements(a + b) == Elements(a) + Elements(Unparsed(a) + b)
    ensures Unparsed(a + b) == Unparsed(Unparsed(a) + b)
    decreases |a|
  {
    if FromBuffer(a).Some? {
      FromBufferPrefix(a, b);
      var k := FromBuffer(a).value.size;
      assert (a + b)[..k] == a[..k] && (a + b)[k..] == a[k..] + b;
      ElementsConcat(a[k..], b);
      Associative([a[..k]], Elements(a[k..]), Elements(Unparsed(a) + b));
    }
  }

  lemma {:induction false} ElementsAreElements(bs: Bytes)
    ensures forall e :: e in Elements(bs) ==> IsElement(e) && |e| <= |bs|
    decreases |bs|
  {
    if FromBuffer(bs).Some? {
      FromBufferOwnBytes(bs);
      ElementsAreElements(bs[FromBuffer(bs).value.size..]);
    }
  }

  /** A stream of elements is read as those elements. */
  lemma {:induction false} ElementsOfFlatten(es: seq<Bytes>)
    requires forall e :: e in es ==> IsElement(e)
    ensures ReadsAs(Flatten(es), es)
  {
    if es != [] {
      var front, last := es[..|es| - 1], es[|es| - 1];
      assert last in es && forall e :: e in front ==> e in es;
      ElementsOfFlatten(front);
      ElementBehind(Flatten(front), front, last);
      assert front + [last] == es;
    }
  }

  ghost predicate ReadsAs(bs: Bytes, es: seq<Bytes>) {
    Elements(bs) == es && Unparsed(bs) == []
  }

  lemma ElementBehind(a: Bytes, es: seq<Bytes>, e: Bytes)
    requires ReadsAs(a, es) && IsElement(e)
    ensures ReadsAs(a + e, es + [e])
  {
    ElementsConcat(a, e);
    OneElement(e);
    assert Unparsed(a) + e == e;
  }

  lemma OneElement(e: Bytes)
    requires IsElement(e)
    ensures Elements(e) == [e] && Unparsed(e) == []
  {
    assert e[..|e|] == e && e[|e|..] == [];
  }

  // ----- one call -----

  /** The face's input buffer, or the face shut down. */
  datatype Input = Open(buffer: Bytes) | Closed

  /** What a received chunk makes of the buffer: a full buffer without an element shuts the face. */
  function Fed(buffer: Bytes, chunk: Bytes): Input {
    var all := buffer + chunk;
    if FromBuffer(all).None? && |all| == MAX_NDN_PACKET_SIZE then Closed else Open(Unparsed(all))
  }

  lemma NotParsed(bs: Bytes)
    ensures Elements(bs) == [] <==> FromBuffer(bs).None?
    ensures FromBuffer(bs).Some? ==> |Unparsed(bs)| < |bs|
  {
  }

  class StreamFace {
    const inputBuffer: array<Byte>
    var inputBufferSize: nat
    var isOpen: bool

    ghost predicate Valid()
      reads this
    {
      && inputBuffer.Length == MAX_NDN_PACKET_SIZE
      && (if isOpen then inputBufferSize < MAX_NDN_PACKET_SIZE else inputBufferSize <= MAX_NDN_PACKET_SIZE)
    }

    ghost function View(): Input
      requires Valid()
      reads this, inputBuffer
    {
      if isOpen then Open(inputBuffer[..inputBufferSize]) else Closed
    }

    constructor ()
      ensures Valid() && View() == Open([]) && fresh(inputBuffer)
    {
      inputBuffer := new Byte[MAX_NDN_PACKET_SIZE];
      inputBufferSize := 0;
      isOpen := true;
    }

    /** handleReceive: the socket has put the chunk behind the buffered bytes. The elements are
        handed to the dispatcher in order; whether it knows their type makes no difference. After
        a call that leaves the face open, the buffer has room again. */
    method HandleReceive(chunk: Bytes) returns (dispatched: seq<Bytes>)
      requires Valid() && isOpen && inputBufferSize + |chunk| <= MAX_NDN_PACKET_SIZE
      modifies this, inputBuffer
      ensures Valid() && View() == Fed(old(View()).buffer, chunk)
      ensures dispatched == Elements(old(View()).buffer + chunk)
      ensures isOpen ==> inputBufferSize < MAX_NDN_PACKET_SIZE
    {
      ghost var all := inputBuffer[..inputBufferSize] + chunk;
      Store(chunk);
      var offset, isOk;
      dispatched, offset, isOk := DispatchAll();
      NotParsed(all);
      if !isOk && inputBufferSize == MAX_NDN_PACKET_SIZE && offset == 0 {
        isOpen := false;
        return;
      }
      if offset > 0 {
        if offset != inputBufferSize {
          Shift(offset);
        } else {
          inputBufferSize := 0;
        }
      }
      assert inputBuffer[..inputBufferSize] == Unparsed(all);
    }

    method Store(chunk: Bytes)
      requires Valid() && inputBufferSize + |chunk| <= MAX_NDN_PACKET_SIZE
      modifies this`inputBufferSize, inputBuffer
      ensures inputBufferSize == old(inputBufferSize) + |chunk|
      ensures inputBuffer[..inputBufferSize] == old(inputBuffer[..inputBufferSize]) + chunk
    {
      var at := inputBufferSize;
      for i := 0 to |chunk|
        invariant inputBuffer[..at] == old(inputBuffer[..inputBufferSize])
        invariant inputBuffer[at..at + i] == chunk[..i]
      {
        inputBuffer[at + i] := chunk[i];
      }
      inputBufferSize := at + |chunk|;
      assert inputBuffer[..inputBufferSize] == inputBuffer[..at] + inputBuffer[at..inputBufferSize];
      assert chunk[..|chunk|] == chunk;
    }

    /** The loop over the buffered elements. */
    method DispatchAll() returns (dispatched: seq<Bytes>, offset: nat, isOk: bool)
      requires inputBufferSize <= inputBuffer.Length
      ensures dispatched == Elements(inputBuffer[..inputBufferSize])
      ensures offset <= inputBufferSize
      ensures inputBuffer[offset..inputBufferSize] == Unparsed(inputBuffer[..inputBufferSize])
      ensures isOk <==> offset == inputBufferSize
      ensures offset == 0 <==> dispatched == []
    {
      ghost var all := inputBuffer[..inputBufferSize];
      dispatched, offset, isOk := [], 0, true;
      while inputBufferSize - offset > 0
        invariant offset <= inputBufferSize && isOk
        invariant dispatched + Elements(inputBuffer[offset..inputBufferSize]) == Elements(all)
        invariant Unparsed(inputBuffer[offset..inputBufferSize]) == Unparsed(all)
        invariant offset == 0 <==> dispatched == []
      {
        var bytes := inputBuffer[offset..inputBufferSize];
        var element := FromBuffer(bytes);
        if element.None? {
          isOk := false;
          break;
        }
        Associative(dispatched, [bytes[..element.value.size]], Elements(bytes[element.value.size..]));
        dispatched := dispatched + [bytes[..element.value.size]];
        offset := offset + element.value.size;
        assert bytes[element.value.size..] == inputBuffer[offset..inputBufferSize];
      }
    }

    /** Moves the unparsed bytes to the front of the buffer. */
    method Shift(offset: nat)
      requires 0 < offset <= inputBufferSize <= inputBuffer.Length
      modifies this`inputBufferSize, inputBuffer
      ensures inputBufferSize == old(inputBufferSize) - offset
      ensures inputBuffer[..inputBufferSize] == old(inputBuffer[offset..inputBufferSize])
    {
      var n := inputBufferSize - offset;
      for i := 0 to n
        invariant forall k :: 0 <= k < i ==> inputBuffer[k] == old(inputBuffer[offset + k])
        invariant forall k :: i <= k < inputBuffer.Length ==> inputBuffer[k] == old(inputBuffer[k])
      {
        inputBuffer[i] := inputBuffer[offset + i];
      }
      inputBufferSize := n;
    }
  }

  // ----- runs -----

  /** The chunks arrive one after the other while the face is open, each in the room there is. */
  predicate Arrives(chunks: seq<Bytes>) {
    chunks == [] ||
    var front := chunks[..|chunks| - 1];
    Arrives(front) && After(front).Open? && |After(front).buffer| + |chunks[|chunks| - 1]| <= MAX_NDN_PACKET_SIZE
  }

  function After(chunks: seq<Bytes>): Input {
    if chunks == [] then Open([])
    else
      var before := After(chunks[..|chunks| - 1]);
      if before.Closed? then Closed else Fed(before.buffer, chunks[|chunks| - 1])
  }

  function Dispatched(chunks: seq<Bytes>): seq<Bytes> {
    if chunks == [] then []
    else
      var front := chunks[..|chunks| - 1];
      Dispatched(front) + if After(front).Closed? then [] else Elements(After(front).buffer + chunks[|chunks| - 1])
  }

  /** Chunking makes no difference: an open face has dispatched the elements of the stream so
      far, in order, and holds the bytes behind them. */
  lemma {:induction false} ChunkingIrrelevant(chunks: seq<Bytes>)
    requires Arrives(chunks)
    ensures Dispatched(chunks) == Elements(Flatten(chunks))
    ensures After(chunks).Open? ==>
                After(chunks).buffer == Unparsed(Flatten(chunks)) && |After(chunks).buffer| < MAX_NDN_PACKET_SIZE
    ensures After(chunks).Closed? ==> |Unparsed(Flatten(chunks))| == MAX_NDN_PACKET_SIZE
  {
    if chunks != [] {
      var front, last := chunks[..|chunks| - 1], chunks[|chunks| - 1];
      ChunkingIrrelevant(front);
      ElementsConcat(Flatten(front), last);
      NotParsed(After(front).buffer + last);
    }
  }

  lemma {:induction false} DispatchedFit(chunks: seq<Bytes>)
    requires Arrives(chunks)
    ensures forall e :: e in Dispatched(chunks) ==> |e| <= MAX_NDN_PACKET_SIZE
  {
    if chunks != [] {
      var front, last := chunks[..|chunks| - 1], chunks[|chunks| - 1];
      DispatchedFit(front);
      ElementsAreElements(After(front).buffer + last);
    }
  }

  /** However it is cut, a stream is taken in by an open face if and only if none of its elements
      and no unfinished element behind them is larger than the buffer allows. */
  lemma StaysOpenExactly(chunks: seq<Bytes>, tail: Bytes)
    requires Arrives(chunks)
    ensures After(chunks).Open? <== (forall e :: e in Elements(Flatten(chunks) + tail) ==> |e| <= MAX_NDN_PACKET_SIZE)
                                    && |Unparsed(Flatten(chunks) + tail)| < MAX_NDN_PACKET_SIZE
    ensures After(chunks).Open? ==> (forall e :: e in Elements(Flatten(chunks)) ==> |e| <= MAX_NDN_PACKET_SIZE)
                                    && |Unparsed(Flatten(chunks))| < MAX_NDN_PACKET_SIZE
  {
    ChunkingIrrelevant(chunks);
    DispatchedFit(chunks);
    if After(chunks).Closed? {
      var rest := Unparsed(Flatten(chunks));
      ElementsConcat(Flatten(chunks), tail);
      if FromBuffer(rest + tail).Some? {
        var e := (rest + tail)[..FromBuffer(rest + tail).value.size];
        LongerThan(rest, tail);
        assert e in Elements(rest + tail);
      }
    }
  }

  /** An element that is not complete yet is longer than what is there. */
  lemma LongerThan(rest: Bytes, tail: Bytes)
    requires FromBuffer(rest).None? && FromBuffer(rest + tail).Some?
    ensures FromBuffer(rest + tail).value.size > |rest|
  {
    var size := FromBuffer(rest + tail).value.size;
    if size <= |rest| {
      FromBufferOwnBytes(rest + tail);
      assert (rest + tail)[..size] == rest[..size];
      FromFront(rest, size);
    }
  }

  lemma FromFront(bs: Bytes, size: nat)
    requires size <= |bs|
    ensures FromBuffer(bs[..size]).Some? ==> FromBuffer(bs).Some?
  {
    if FromBuffer(bs[..size]).Some? {
      FromBufferPrefix(bs[..size], bs[size..]);
      assert bs[..size] + bs[size..] == bs;
    }
  }

  /** A peer that sends whole elements, none larger than the buffer: cut in any way, the face
      stays open, dispatches them in the order they were sent, keeps the rest of the one that is
      not complete yet, and at the end has dispatched all of them. */
  lemma StreamOfElements(es: seq<Bytes>, chunks: seq<Bytes>, tail: Bytes)
    requires forall e :: e in es ==> IsElement(e) && |e| <= MAX_NDN_PACKET_SIZE
    requires Arrives(chunks) && Flatten(chunks) + tail == Flatten(es)
    ensures After(chunks).Open? && Dispatched(chunks) <= es
    ensures Dispatched(chunks) + Elements(After(chunks).buffer + tail) == es
    ensures tail == [] ==> Dispatched(chunks) == es && After(chunks) == Open([])
  {
    ElementsOfFlatten(es);
    StaysOpenExactly(chunks, tail);
    ChunkingIrrelevant(chunks);
    ElementsConcat(Flatten(chunks), tail);
    if tail == [] {
      assert Flatten(chunks) + tail == Flatten(chunks);
    }
  }
}
