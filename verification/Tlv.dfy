/** The TLV encoding of the NDN Packet Format: variable-size numbers, non-negative integers, and
    elements read from the front of a buffer. */
module Tlv {
  import opened Options

  type Byte = b: nat | b < 256
  type Bytes = seq<Byte>

  const MAX_NDN_PACKET_SIZE: nat := 8800

  // ----- big-endian numbers -----

  function Power(k: nat): (p: nat)
    ensures p > 0
  {
    if k == 0 then 1 else 256 * Power(k - 1)
  }

  function BigEndian(n: nat, k: nat): (bs: Bytes)
    ensures |bs| == k
  {
    if k == 0 then [] else BigEndian(n / 256, k - 1) + [n % 256]
  }

  function FromBigEndian(bs: Bytes): (n: nat) {
    if bs == [] then 0 else 256 * FromBigEndian(bs[..|bs| - 1]) + bs[|bs| - 1]
  }

  lemma {:induction false} BigEndianRoundTrip(n: nat, k: nat)
    requires n < Power(k)
    ensures FromBigEndian(BigEndian(n, k)) == n
  {
    if k > 0 {
      BigEndianRoundTrip(n / 256, k - 1);
      var bs := BigEndian(n, k);
      assert bs[..k - 1] == BigEndian(n / 256, k - 1);
    }
  }

  lemma {:induction false} FromBigEndianBound(bs: Bytes)
    ensures FromBigEndian(bs) < Power(|bs|)
  {
    if bs != [] {
      FromBigEndianBound(bs[..|bs| - 1]);
    }
  }

  lemma Powers()
    ensures Power(1) == 0x100 && Power(2) == 0x1_0000 && Power(4) == 0x1_0000_0000
    ensures Power(8) == 0x1_0000_0000_0000_0000
  {
    assert Power(4) == 256 * (256 * Power(2));
    assert Power(6) == 256 * (256 * Power(4));
    assert Power(8) == 256 * (256 * Power(6));
  }

  // ----- variable-size numbers -----

  /** Sizes of 1, 3, 5 and 9 bytes. */
  function VarNumber(n: nat): (bs: Bytes)
    requires n < 0x1_0000_0000_0000_0000
    ensures |bs| == SizeOfVarNumber(n)
  {
    if n < 253 then [n]
    else if n < 0x1_0000 then [253] + BigEndian(n, 2)
    else if n < 0x1_0000_0000 then [254] + BigEndian(n, 4)
    else [255] + BigEndian(n, 8)
  }

  function SizeOfVarNumber(n: nat): (k: nat)
    ensures 1 <= k <= 9
  {
    if n < 253 then 1 else if n < 0x1_0000 then 3 else if n < 0x1_0000_0000 then 5 else 9
  }

  /** The number at the front of a buffer and the bytes it takes, if all of them are there. A
      number in a longer form than it needs is read all the same. */
  function ReadVarNumber(bs: Bytes): (r: Option<(nat, nat)>)
    ensures r.Some? ==> 1 <= r.value.1 <= |bs| && r.value.1 <= 9
  {
    if bs == [] then None
    else
      var k := if bs[0] < 253 then 0 else if bs[0] == 253 then 2 else if bs[0] == 254 then 4 else 8;
      if k == 0 then Some((bs[0], 1))
      else if |bs| < 1 + k then None
      else Some((FromBigEndian(bs[1..1 + k]), 1 + k))
  }

  lemma VarNumberRoundTrip(n: nat, rest: Bytes)
    requires n < 0x1_0000_0000_0000_0000
    ensures ReadVarNumber(VarNumber(n) + rest) == Some((n, SizeOfVarNumber(n)))
  {
    Powers();
    var k := SizeOfVarNumber(n) - 1;
    if k > 0 {
      BigEndianRoundTrip(n, k);
      assert (VarNumber(n) + rest)[1..1 + k] == BigEndian(n, k);
    }
  }

  /** Reading looks no further than the number. */
  lemma VarNumberPrefix(bs: Bytes, rest: Bytes)
    requires ReadVarNumber(bs).Some?
    ensures ReadVarNumber(bs + rest) == ReadVarNumber(bs)
  {
    var k := ReadVarNumber(bs).value.1;
    assert (bs + rest)[1..k] == bs[1..k];
  }

  // ----- non-negative integers -----

  /** Sizes of 1, 2, 4 and 8 bytes. */
  function SizeOfInteger(n: nat): (k: nat)
    ensures k == 1 || k == 2 || k == 4 || k == 8
  {
    if n < 0x100 then 1 else if n < 0x1_0000 then 2 else if n < 0x1_0000_0000 then 4 else 8
  }

  function Integer(n: nat): (bs: Bytes)
    requires n < 0x1_0000_0000_0000_0000
    ensures |bs| == SizeOfInteger(n)
  {
    BigEndian(n, SizeOfInteger(n))
  }

  /** readNonNegativeInteger throws on any other size. */
  function ReadInteger(value: Bytes): Option<nat> {
    if |value| == 1 || |value| == 2 || |value| == 4 || |value| == 8 then Some(FromBigEndian(value)) else None
  }

  lemma IntegerRoundTrip(n: nat)
    requires n < 0x1_0000_0000_0000_0000
    ensures ReadInteger(Integer(n)) == Some(n)
  {
    Powers();
    BigEndianRoundTrip(n, SizeOfInteger(n));
  }

  // ----- elements -----

  /** An element as read: its type, its value and the bytes it took. */
  datatype Element = Element(kind: nat, value: Bytes, size: nat)

  function Encode(kind: nat, value: Bytes): (bs: Bytes)
    requires kind < 0x1_0000_0000 && |value| < 0x1_0000_0000_0000_0000
    ensures |bs| == SizeOfElement(kind, |value|)
  {
    VarNumber(kind) + VarNumber(|value|) + value
  }

  function SizeOfElement(kind: nat, length: nat): (k: nat)
    ensures k >= 2
  {
    SizeOfVarNumber(kind) + SizeOfVarNumber(length) + length
  }

  /** Block::fromBuffer: types take at most 32 bits, and the value must be there in full. */
  function FromBuffer(bs: Bytes): (r: Option<Element>)
    ensures r.Some? ==> 2 <= r.value.size <= |bs| && r.value.kind < 0x1_0000_0000 && |r.value.value| < r.value.size
  {
    var t := ReadVarNumber(bs);
    if t.None? || t.value.0 >= 0x1_0000_0000 then None
    else
      var l := ReadVarNumber(bs[t.value.1..]);
      if l.None? then None
      else
        var header := t.value.1 + l.value.1;
        if l.value.0 > |bs| - header then None
        else Some(Element(t.value.0, bs[header..header + l.value.0], header + l.value.0))
  }

  lemma EncodeRoundTrip(kind: nat, value: Bytes, rest: Bytes)
    requires kind < 0x1_0000_0000 && |value| < 0x1_0000_0000_0000_0000
    ensures FromBuffer(Encode(kind, value) + rest) == Some(Element(kind, value, |Encode(kind, value)|))
  {
    var bs := Encode(kind, value) + rest;
    var t, l := VarNumber(kind), VarNumber(|value|);
    assert bs == t + (l + (value + rest));
    VarNumberRoundTrip(kind, l + (value + rest));
    assert bs[|t|..] == l + (value + rest);
    VarNumberRoundTrip(|value|, value + rest);
    assert bs[|t| + |l|..|t| + |l| + |value|] == value;
  }

  /** Reading an element looks no further than the element. */
  lemma FromBufferPrefix(bs: Bytes, rest: Bytes)
    requires FromBuffer(bs).Some?
    ensures FromBuffer(bs + rest) == FromBuffer(bs)
  {
    VarNumberPrefix(bs, rest);
    var k := ReadVarNumber(bs).value.1;
    assert (bs + rest)[k..] == bs[k..] + rest;
    VarNumberPrefix(bs[k..], rest);
    var e := FromBuffer(bs).value;
    var h := k + ReadVarNumber(bs[k..]).value.1;
    assert (bs + rest)[h..e.size] == bs[h..e.size];
  }

  /** An element is read from exactly its own bytes, once they are there. */
  lemma FromBufferOwnBytes(bs: Bytes)
    requires FromBuffer(bs).Some?
    ensures FromBuffer(bs[..FromBuffer(bs).value.size]) == FromBuffer(bs)
  {
    var e := FromBuffer(bs).value;
    var own := bs[..e.size];
    var k := ReadVarNumber(bs).value.1;
    VarNumberOwnBytes(bs, e.size);
    assert own[k..] == bs[k..][..e.size - k];
    VarNumberOwnBytes(bs[k..], e.size - k);
    var h := k + ReadVarNumber(bs[k..]).value.1;
    assert own[h..e.size] == bs[h..e.size];
  }

  lemma VarNumberOwnBytes(bs: Bytes, n: nat)
    requires ReadVarNumber(bs).Some? && ReadVarNumber(bs).value.1 <= n <= |bs|
    ensures ReadVarNumber(bs[..n]) == ReadVarNumber(bs)
  {
    var k := ReadVarNumber(bs).value.1;
    assert bs[..n][1..k] == bs[1..k];
  }

  /** Block::parse: the whole value is elements, one after the other; otherwise it throws. */
  function ParseElements(bs: Bytes): (r: Option<seq<Element>>)
    decreases |bs|
  {
    if bs == [] then Some([])
    else
      var e := FromBuffer(bs);
      if e.None? then None
      else
        var rest := ParseElements(bs[e.value.size..]);
        if rest.None? then None else Some([e.value] + rest.value)
  }

  /** The element that encodes the value. */
  function ElementOf(kind: nat, value: Bytes): Element {
    Element(kind, value, SizeOfElement(kind, |value|))
  }

  lemma ParseOne(kind: nat, value: Bytes, rest: Bytes)
    requires kind < 0x1_0000_0000 && |value| < 0x1_0000_0000_0000_0000
    ensures ParseElements(Encode(kind, value) + rest)
            == if ParseElements(rest).None? then None else Some([ElementOf(kind, value)] + ParseElements(rest).value)
  {
    var bs := Encode(kind, value) + rest;
    EncodeRoundTrip(kind, value, rest);
    assert bs[|Encode(kind, value)|..] == rest;
  }
}
