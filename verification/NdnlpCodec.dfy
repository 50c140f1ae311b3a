/** NDNLP fragments: the encoder that prepends its fields to a buffer, its size estimate, and the
    parser. */
module NdnlpCodec {
  import opened Options
  import opened Sequences
  import opened Tlv

  const NDNLP_DATA: nat := 80
  const NDNLP_SEQUENCE: nat := 81
  const NDNLP_FRAG_INDEX: nat := 82
  const NDNLP_FRAG_COUNT: nat := 83
  const NDNLP_PAYLOAD: nat := 84

  const UINT16_MAX: nat := 0xFFFF
  const TWO_TO_64: nat := 0x1_0000_0000_0000_0000

  datatype NdnlpData = NdnlpData(seqNo: nat, fragIndex: nat, fragCount: nat, payload: Bytes)

  // ----- the encoding -----

  /** The children of a fragment; index and count are there when the count is more than one. */
  function Children(seqNo: nat, fragIndex: nat, fragCount: nat, payload: Bytes): Bytes
    requires fragIndex <= UINT16_MAX && fragCount <= UINT16_MAX && |payload| < TWO_TO_64
  {
    Encode(NDNLP_SEQUENCE, BigEndian(seqNo, 8)) + Fragmentation(fragIndex, fragCount) + Encode(NDNLP_PAYLOAD, payload)
  }

  function Fragmentation(fragIndex: nat, fragCount: nat): Bytes
    requires fragIndex <= UINT16_MAX && fragCount <= UINT16_MAX
  {
    if fragCount > 1 then Encode(NDNLP_FRAG_INDEX, Integer(fragIndex)) + Encode(NDNLP_FRAG_COUNT, Integer(fragCount))
        else []
  }

  /** The size of the children, by the length of the payload. */
  function ChildrenSize(fragIndex: nat, fragCount: nat, length: nat): nat {
    10 + (if fragCount > 1 then 2 + SizeOfInteger(fragIndex) + 2 + SizeOfInteger(fragCount) else 0)
    + SizeOfElement(NDNLP_PAYLOAD, length)
  }

  function FragmentSize(fragIndex: nat, fragCount: nat, length: nat): nat {
    SizeOfElement(NDNLP_DATA, ChildrenSize(fragIndex, fragCount, length))
  }

  lemma ChildrenSizeIs(seqNo: nat, fragIndex: nat, fragCount: nat, payload: Bytes)
    requires fragIndex <= UINT16_MAX && fragCount <= UINT16_MAX && |payload| < TWO_TO_64
    ensures |Children(seqNo, fragIndex, fragCount, payload)| == ChildrenSize(fragIndex, fragCount, |payload|)
  {
  }

  /** Payloads are far from the 64-bit limit on lengths. */
  const MAX_PAYLOAD: nat := 0x8000_0000_0000_0000

  predicate Encodable(d: NdnlpData) {
    d.fragIndex <= UINT16_MAX && d.fragCount <= UINT16_MAX && |d.payload| < MAX_PAYLOAD
  }

  function Fragment(d: NdnlpData): Bytes
    requires Encodable(d)
  {
    ChildrenSizeIs(d.seqNo, d.fragIndex, d.fragCount, d.payload);
    Encode(NDNLP_DATA, Children(d.seqNo, d.fragIndex, d.fragCount, d.payload))
  }

  /** An encoding buffer is filled from its end. */
  method PrependElementHeader(buffer: Bytes, kind: nat, length: nat) returns (b: Bytes, added: nat)
    requires kind < 0x1_0000_0000 && length < TWO_TO_64
    ensures b == VarNumber(kind) + VarNumber(length) + buffer
    ensures added == SizeOfVarNumber(kind) + SizeOfVarNumber(length)
  {
    b := VarNumber(length) + buffer;
    b := VarNumber(kind) + b;
    added := SizeOfVarNumber(length) + SizeOfVarNumber(kind);
    assert b == VarNumber(kind) + VarNumber(length) + buffer;
  }

  method PrependInteger(buffer: Bytes, kind: nat, n: nat) returns (b: Bytes, added: nat)
    requires kind < 0x1_0000_0000 && n <= UINT16_MAX
    ensures b == Encode(kind, Integer(n)) + buffer && added == |Encode(kind, Integer(n))|
  {
    b := Integer(n) + buffer;
    var header;
    b, header := PrependElementHeader(b, kind, SizeOfInteger(n));
    added := SizeOfInteger(n) + header;
    assert b == Encode(kind, Integer(n)) + buffer;
  }

  method PrependFragmentation(buffer: Bytes, fragIndex: nat, fragCount: nat) returns (b: Bytes, added: nat)
    requires fragIndex <= UINT16_MAX && fragCount <= UINT16_MAX
    ensures b == Fragmentation(fragIndex, fragCount) + buffer && added == |Fragmentation(fragIndex, fragCount)|
  {
    b, added := buffer, 0;
    if fragCount > 1 {
      var more;
      b, added := PrependInteger(b, NDNLP_FRAG_COUNT, fragCount);
      b, more := PrependInteger(b, NDNLP_FRAG_INDEX, fragIndex);
      added := added + more;
      assert b == Fragmentation(fragIndex, fragCount) + buffer;
    }
  }

  method PrependSequence(buffer: Bytes, seqNo: nat) returns (b: Bytes, added: nat)
    ensures b == Encode(NDNLP_SEQUENCE, BigEndian(seqNo, 8)) + buffer
    ensures added == |Encode(NDNLP_SEQUENCE, BigEndian(seqNo, 8))|
  {
    var sequence := BigEndian(seqNo, 8);
    b := sequence + buffer;
    b, added := PrependElementHeader(b, NDNLP_SEQUENCE, |sequence|);
    added := |sequence| + added;
    assert b == Encode(NDNLP_SEQUENCE, sequence) + buffer;
  }

  /** encodeFragment: back to front, adding up the lengths on the way. */
  method EncodeFragment(seqNo: nat, fragIndex: nat, fragCount: nat, payload: Bytes)
    returns (blk: Bytes, totalLength: nat)
    requires fragIndex <= UINT16_MAX && fragCount <= UINT16_MAX && |payload| < MAX_PAYLOAD
    ensures blk == Fragment(NdnlpData(seqNo, fragIndex, fragCount, payload)) && totalLength == |blk|
  {
    blk, totalLength := payload, |payload|;
    var added;
    blk, added := PrependElementHeader(blk, NDNLP_PAYLOAD, |payload|);
    totalLength := totalLength + added;
    blk, added := PrependFragmentation(blk, fragIndex, fragCount);
    totalLength := totalLength + added;
    blk, added := PrependSequence(blk, seqNo);
    totalLength := totalLength + added;
    FieldsJoin(seqNo, fragIndex, fragCount, payload);
    blk, added := PrependElementHeader(blk, NDNLP_DATA, totalLength);
    totalLength := totalLength + added;
  }

  /** The fields, prepended one by one, are the children. */
  lemma FieldsJoin(seqNo: nat, fragIndex: nat, fragCount: nat, payload: Bytes)
    requires fragIndex <= UINT16_MAX && fragCount <= UINT16_MAX && |payload| < MAX_PAYLOAD
    ensures Encode(NDNLP_SEQUENCE, BigEndian(seqNo, 8))
            + (Fragmentation(fragIndex, fragCount) + Encode(NDNLP_PAYLOAD, payload))
            == Children(seqNo, fragIndex, fragCount, payload)
    ensures |Children(seqNo, fragIndex, fragCount, payload)| < TWO_TO_64
  {
    ChildrenSizeIs(seqNo, fragIndex, fragCount, payload);
    Associative(Encode(NDNLP_SEQUENCE, BigEndian(seqNo, 8)), Fragmentation(fragIndex, fragCount),
                Encode(NDNLP_PAYLOAD, payload));
  }

  // ----- the parser -----

  datatype Parsed = Ok(data: NdnlpData) | Invalid | Throws

  /** fromBlock on a wire block, which the caller has read as an element. */
  function FromBlock(wire: Element): Parsed {
    if wire.kind != NDNLP_DATA then Invalid
    else
      match ParseElements(wire.value)
      case None => Throws
      case Some(elements) => FromElements(elements)
  }

  function FromElements(elements: seq<Element>): Parsed {
    if |elements| < 2 then Invalid
    else
      var sequence, payload := elements[0], elements[|elements| - 1];
      if sequence.kind != NDNLP_SEQUENCE || |sequence.value| != 8 then Invalid
      else if payload.kind != NDNLP_PAYLOAD then Invalid
      else if |elements| == 2 then Ok(NdnlpData(FromBigEndian(sequence.value), 0, 1, payload.value))
      else if |elements| != 4 then Invalid
      else FromFour(elements, FromBigEndian(sequence.value), payload.value)
  }

  function FromFour(elements: seq<Element>, seqNo: nat, payload: Bytes): Parsed
    requires |elements| == 4
  {
    if elements[1].kind != NDNLP_FRAG_INDEX then Invalid
    else if ReadInteger(elements[1].value).None? then Throws
    else
      var fragIndex := ReadInteger(elements[1].value).value;
      if fragIndex > UINT16_MAX then Invalid
      else if elements[2].kind != NDNLP_FRAG_COUNT then Invalid
      else if ReadInteger(elements[2].value).None? then Throws
      else
        var fragCount := ReadInteger(elements[2].value).value;
        if fragCount > UINT16_MAX then Invalid
        else if fragIndex >= fragCount then Invalid
        else Ok(NdnlpData(seqNo, fragIndex, fragCount, payload))
  }

  lemma ParseLast(kind: nat, value: Bytes)
    requires kind < 0x1_0000_0000 && |value| < TWO_TO_64
    ensures ParseElements(Encode(kind, value)) == Some([ElementOf(kind, value)])
  {
    ParseOne(kind, value, []);
    assert Encode(kind, value) + [] == Encode(kind, value);
    assert [ElementOf(kind, value)] + [] == [ElementOf(kind, value)];
  }

  lemma ParseTwo(k0: nat, v0: Bytes, k1: nat, v1: Bytes)
    requires k0 < 0x1_0000_0000 && k1 < 0x1_0000_0000 && |v0| < TWO_TO_64 && |v1| < TWO_TO_64
    ensures ParseElements(Encode(k0, v0) + Encode(k1, v1)) == Some([ElementOf(k0, v0), ElementOf(k1, v1)])
  {
    ParseLast(k1, v1);
    ParseOne(k0, v0, Encode(k1, v1));
    assert [ElementOf(k0, v0)] + [ElementOf(k1, v1)] == [ElementOf(k0, v0), ElementOf(k1, v1)];
  }

  lemma ParseFour(k0: nat, v0: Bytes, k1: nat, v1: Bytes, k2: nat, v2: Bytes, k3: nat, v3: Bytes)
    requires k0 < 0x1_0000_0000 && k1 < 0x1_0000_0000 && k2 < 0x1_0000_0000 && k3 < 0x1_0000_0000
    requires |v0| < TWO_TO_64 && |v1| < TWO_TO_64 && |v2| < TWO_TO_64 && |v3| < TWO_TO_64
    ensures ParseElements(Encode(k0, v0) + (Encode(k1, v1) + Encode(k2, v2)) + Encode(k3, v3))
            == Some([ElementOf(k0, v0), ElementOf(k1, v1), ElementOf(k2, v2), ElementOf(k3, v3)])
  {
    var a, b, c, d := Encode(k0, v0), Encode(k1, v1), Encode(k2, v2), Encode(k3, v3);
    ParseTwo(k2, v2, k3, v3);
    ParseOne(k1, v1, c + d);
    ParseOne(k0, v0, b + (c + d));
    Regroup(a, b, c, d);
    var w, x, y, z := ElementOf(k0, v0), ElementOf(k1, v1), ElementOf(k2, v2), ElementOf(k3, v3);
    assert [w] + ([x] + [y, z]) == [w, x, y, z];
  }

  lemma Regroup(a: Bytes, b: Bytes, c: Bytes, d: Bytes)
    ensures a + (b + c) + d == a + (b + (c + d))
  {
  }

  lemma ChildrenParse(d: NdnlpData) returns (elements: seq<Element>)
    requires d.fragIndex < d.fragCount <= UINT16_MAX && |d.payload| < MAX_PAYLOAD
    ensures ParseElements(Children(d.seqNo, d.fragIndex, d.fragCount, d.payload)) == Some(elements)
    ensures |elements| == if d.fragCount == 1 then 2 else 4
    ensures elements[0] == ElementOf(NDNLP_SEQUENCE, BigEndian(d.seqNo, 8))
    ensures elements[|elements| - 1] == ElementOf(NDNLP_PAYLOAD, d.payload)
    ensures d.fragCount > 1 ==> elements[1] == ElementOf(NDNLP_FRAG_INDEX, Integer(d.fragIndex))
    ensures d.fragCount > 1 ==> elements[2] == ElementOf(NDNLP_FRAG_COUNT, Integer(d.fragCount))
  {
    var sequence := BigEndian(d.seqNo, 8);
    if d.fragCount == 1 {
      ParseTwo(NDNLP_SEQUENCE, sequence, NDNLP_PAYLOAD, d.payload);
      assert Encode(NDNLP_SEQUENCE, sequence) + [] == Encode(NDNLP_SEQUENCE, sequence);
      elements := [ElementOf(NDNLP_SEQUENCE, sequence), ElementOf(NDNLP_PAYLOAD, d.payload)];
    } else {
      ParseFour(NDNLP_SEQUENCE, sequence, NDNLP_FRAG_INDEX, Integer(d.fragIndex),
                NDNLP_FRAG_COUNT, Integer(d.fragCount), NDNLP_PAYLOAD, d.payload);
      elements := [ElementOf(NDNLP_SEQUENCE, sequence), ElementOf(NDNLP_FRAG_INDEX, Integer(d.fragIndex)),
                   ElementOf(NDNLP_FRAG_COUNT, Integer(d.fragCount)), ElementOf(NDNLP_PAYLOAD, d.payload)];
    }
  }

  /** The parser inverts the encoder, in the two-element form and in the four-element form, and
      reads no further than the fragment. */
  lemma FragmentRoundTrip(d: NdnlpData, rest: Bytes)
    requires d.seqNo < TWO_TO_64 && d.fragIndex < d.fragCount <= UINT16_MAX && |d.payload| < MAX_PAYLOAD
    ensures var e := FromBuffer(Fragment(d) + rest);
            e.Some? && e.value.size == |Fragment(d)| && FromBlock(e.value) == Ok(d)
  {
    ChildrenSizeIs(d.seqNo, d.fragIndex, d.fragCount, d.payload);
    var children := Children(d.seqNo, d.fragIndex, d.fragCount, d.payload);
    EncodeRoundTrip(NDNLP_DATA, children, rest);
    ChildrenAccepted(d, |Fragment(d)|);
  }

  lemma ChildrenAccepted(d: NdnlpData, size: nat)
    requires d.seqNo < TWO_TO_64 && d.fragIndex < d.fragCount <= UINT16_MAX && |d.payload| < MAX_PAYLOAD
    ensures FromBlock(Element(NDNLP_DATA, Children(d.seqNo, d.fragIndex, d.fragCount, d.payload), size)) == Ok(d)
  {
    var elements := ChildrenParse(d);
    Powers();
    BigEndianRoundTrip(d.seqNo, 8);
    ElementsAccepted(d, BigEndian(d.seqNo, 8), elements);
  }

  lemma ElementsAccepted(d: NdnlpData, sequence: Bytes, elements: seq<Element>)
    requires d.fragIndex < d.fragCount <= UINT16_MAX && |elements| == if d.fragCount == 1 then 2 else 4
    requires |sequence| == 8 && FromBigEndian(sequence) == d.seqNo
    requires elements[0] == ElementOf(NDNLP_SEQUENCE, sequence)
    requires elements[|elements| - 1] == ElementOf(NDNLP_PAYLOAD, d.payload)
    requires d.fragCount > 1 ==> elements[1] == ElementOf(NDNLP_FRAG_INDEX, Integer(d.fragIndex))
    requires d.fragCount > 1 ==> elements[2] == ElementOf(NDNLP_FRAG_COUNT, Integer(d.fragCount))
    ensures FromElements(elements) == Ok(d)
  {
    IntegerRoundTrip(d.fragIndex);
    IntegerRoundTrip(d.fragCount);
  }

  lemma EightBytes(value: Bytes)
    requires |value| == 8
    ensures FromBigEndian(value) < TWO_TO_64
  {
    Powers();
    FromBigEndianBound(value);
  }

  lemma AcceptedElements(elements: seq<Element>)
    requires FromElements(elements).Ok?
    ensures |elements| >= 2 && |elements[0].value| == 8
    ensures var d := FromElements(elements).data;
            d.fragIndex < d.fragCount <= UINT16_MAX && d.seqNo == FromBigEndian(elements[0].value)
  {
  }

  /** Whatever the parser accepts has its index below its count, and both fit 16 bits. */
  lemma AcceptedInRange(wire: Element)
    ensures FromBlock(wire).Ok? ==>
              var d := FromBlock(wire).data;
              d.fragIndex < d.fragCount <= UINT16_MAX && d.seqNo < TWO_TO_64
  {
    if FromBlock(wire).Ok? {
      var elements := ParseElements(wire.value).value;
      AcceptedElements(elements);
      EightBytes(elements[0].value);
    }
  }
}
