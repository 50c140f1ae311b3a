/** Cutting a network-layer packet into NDNLP fragments. */
module NdnlpSlicer {
  import opened Options
  import opened Tlv
  import opened NdnlpCodec

  // ----- sequence numbers -----

  class SequenceGenerator {
    var next: nat

    ghost predicate Valid()
      reads this
    {
      next < TWO_TO_64
    }

    constructor ()
      ensures Valid() && next == 0
    {
      next := 0;
    }

    /** A block of consecutive sequence numbers; the 64-bit counter moves past it. */
    method NextBlock(count: nat) returns (start: nat)
      requires Valid()
      modifies this
      ensures Valid() && start == old(next) && next == (old(next) + count) % TWO_TO_64
    {
      start := next;
      next := (next + count) % TWO_TO_64;
    }
  }

  // ----- what slicing means -----

  /** The header's size with every field at its largest, for a payload as large as the MTU. */
  function Overhead(mtu: nat): (o: nat)
    ensures o == FragmentSize(UINT16_MAX - 1, UINT16_MAX, mtu) - mtu
  {
    HeaderSize(UINT16_MAX - 1, UINT16_MAX, mtu)
  }

  function HeaderSize(fragIndex: nat, fragCount: nat, length: nat): (h: nat)
    ensures FragmentSize(fragIndex, fragCount, length) == h + length
  {
    FragmentSize(fragIndex, fragCount, length) - length
  }

  /** size_t arithmetic: an MTU below the overhead wraps around. */
  function MaxPayload(mtu: nat): nat {
    (mtu - Overhead(mtu)) % TWO_TO_64
  }

  function Pieces(size: nat, m: nat): (k: nat)
    requires m > 0
  {
    size / m + if size % m == 0 then 0 else 1
  }

  /** The number of fragments, cut to the 16 bits of the count. */
  function CutCount(packet: Bytes, m: nat): (k: nat)
    requires m > 0
    ensures k <= Pieces(|packet|, m) && k <= UINT16_MAX
  {
    Pieces(|packet|, m) % (UINT16_MAX + 1)
  }

  /** A packet whose pieces the 16 bits of the count can number. */
  predicate Countable(packet: Bytes, m: nat)
    requires m > 0
  {
    packet != [] && Pieces(|packet|, m) <= UINT16_MAX
  }

  /** The i-th payload. */
  function Piece(packet: Bytes, m: nat, i: nat): (p: Bytes)
    requires i * m <= |packet|
    ensures |p| <= m && |p| <= |packet|
  {
    packet[i * m..if m < |packet| - i * m then i * m + m else |packet|]
  }

  lemma PieceStart(size: nat, m: nat, i: nat)
    requires m > 0 && i < Pieces(size, m)
    ensures i * m < size
  {
    if size % m == 0 {
      assert size == size / m * m;
      assert i + 1 <= size / m;
      Times(i + 1, size / m, m);
    } else {
      assert size == size / m * m + size % m;
      Times(i, size / m, m);
    }
  }

  lemma Times(a: nat, b: nat, m: nat)
    requires a <= b
    ensures a * m <= b * m
  {
  }

  lemma LastPieceEnds(size: nat, m: nat)
    requires m > 0
    ensures size <= Pieces(size, m) * m
  {
    assert size == size / m * m + size % m;
  }

  /** The fragments that leave: consecutive sequence numbers, indices from 0, the common count. */
  function Fragments(packet: Bytes, m: nat, start: nat, count: nat): (ds: seq<NdnlpData>)
    requires m > 0 && count <= Pieces(|packet|, m)
    ensures |ds| == count
    ensures count <= UINT16_MAX && |packet| < MAX_PAYLOAD ==> forall i :: 0 <= i < |ds| ==> Encodable(ds[i])
  {
    seq(count, i requires 0 <= i < count =>
      PieceStart(|packet|, m, i);
      NdnlpData((start + i) % TWO_TO_64, i, count, Piece(packet, m, i)))
  }

  lemma FragmentAt(packet: Bytes, m: nat, start: nat, count: nat, i: nat, payload: Bytes)
    requires m > 0 && i < count <= Pieces(|packet|, m) && i * m <= |packet|
    requires payload == packet[i * m..i * m + if m < |packet| - i * m then m else |packet| - i * m]
    ensures Fragments(packet, m, start, count)[i] == NdnlpData((start + i) % TWO_TO_64, i, count, payload)
    ensures |payload| <= |packet|
  {
  }

  /** What slice comes to: its packets, the failing check on a fragment's size, or a division by zero. */
  datatype Outcome = Packets(fragments: seq<Bytes>) | Oversized | DividedByZero

  class Slicer {
    const mtu: nat
    const seqgen: SequenceGenerator
    var maxPayload: nat

    ghost predicate Valid()
      reads this, seqgen
    {
      seqgen.Valid() && maxPayload == MaxPayload(mtu) && mtu < MAX_PAYLOAD
    }

    /** estimateOverhead runs the encoder on an estimator that only counts. */
    constructor (mtu: nat)
      requires mtu < MAX_PAYLOAD
      ensures Valid() && this.mtu == mtu && fresh(seqgen) && seqgen.next == 0
    {
      this.mtu := mtu;
      seqgen := new SequenceGenerator();
      maxPayload := (mtu - (FragmentSize(UINT16_MAX - 1, UINT16_MAX, mtu) - mtu)) % TWO_TO_64;
    }

    method CutFragment(packet: Bytes, start: nat, fragIndex: nat, fragCount: nat) returns (buffer: Bytes, pktSize: nat)
      requires |packet| < MAX_PAYLOAD && maxPayload != 0
      requires fragIndex < fragCount <= Pieces(|packet|, maxPayload) && fragCount <= UINT16_MAX
      ensures buffer == Fragment(Fragments(packet, maxPayload, start, fragCount)[fragIndex]) && pktSize == |buffer|
    {
      PieceStart(|packet|, maxPayload, fragIndex);
      var payloadOffset := fragIndex * maxPayload;
      var payloadSize := if maxPayload < |packet| - payloadOffset then maxPayload else |packet| - payloadOffset;
      var payload := packet[payloadOffset..payloadOffset + payloadSize];
      FragmentAt(packet, maxPayload, start, fragCount, fragIndex, payload);
      buffer, pktSize := EncodeFragment((start + fragIndex) % TWO_TO_64, fragIndex, fragCount, payload);
    }

    ghost predicate AllFit(ds: seq<NdnlpData>)
      requires forall i :: 0 <= i < |ds| ==> Encodable(ds[i])
    {
      forall i {:trigger ds[i]} :: 0 <= i < |ds| ==> |Fragment(ds[i])| <= mtu
    }

    /** The fragments encoded, unless one exceeds the MTU. */
    ghost predicate Sliced(ds: seq<NdnlpData>, r: Outcome)
      requires forall i :: 0 <= i < |ds| ==> Encodable(ds[i])
    {
      if AllFit(ds) then
        r.Packets? && |r.fragments| == |ds| && forall i :: 0 <= i < |ds| ==> r.fragments[i] == Fragment(ds[i])
      else r.Oversized?
    }

    /** The count is cut to 16 bits. With an MTU above the overhead slicing always succeeds, and
        with one equal to it there is no payload to divide by. */
    method Slice(packet: Bytes) returns (r: Outcome)
      requires Valid() && |packet| < MAX_PAYLOAD
      modifies seqgen
      ensures Valid()
      ensures r.DividedByZero? <==> mtu == Overhead(mtu)
      ensures r.DividedByZero? ==> seqgen.next == old(seqgen.next)
      ensures mtu != Overhead(mtu) ==>
                var count := CutCount(packet, maxPayload);
                && seqgen.next == (old(seqgen.next) + count) % TWO_TO_64
                && Sliced(Fragments(packet, maxPayload, old(seqgen.next), count), r)
      ensures mtu > Overhead(mtu) ==> r.Packets?
    {
      NoPayload(mtu);
      if maxPayload == 0 {
        return DividedByZero;
      }
      var size := |packet|;
      var fragCount := (size / maxPayload + (if size % maxPayload == 0 then 0 else 1)) % (UINT16_MAX + 1);
      var start := seqgen.NextBlock(fragCount);
      r := EncodeAll(packet, start, fragCount);
      if mtu > Overhead(mtu) {
        forall i | 0 <= i < fragCount
          ensures |Fragment(Fragments(packet, maxPayload, start, fragCount)[i])| <= mtu
        {
          MtuBound(packet, mtu, start, i);
        }
      }
    }

    method EncodeAll(packet: Bytes, start: nat, fragCount: nat) returns (r: Outcome)
      requires |packet| < MAX_PAYLOAD && maxPayload != 0
      requires fragCount <= Pieces(|packet|, maxPayload) && fragCount <= UINT16_MAX
      ensures Sliced(Fragments(packet, maxPayload, start, fragCount), r)
    {
      ghost var ds := Fragments(packet, maxPayload, start, fragCount);
      var fragments := [];
      for fragIndex := 0 to fragCount
        invariant |fragments| == fragIndex
        invariant forall i :: 0 <= i < fragIndex ==> fragments[i] == Fragment(ds[i]) && |fragments[i]| <= mtu
      {
        var buffer, pktSize := CutFragment(packet, start, fragIndex, fragCount);
        if pktSize > mtu {
          return Oversized;
        }
        fragments := fragments + [buffer];
      }
      return Packets(fragments);
    }
  }

  // ----- the size bound -----

  lemma VarNumberMonotone(a: nat, b: nat)
    requires a <= b
    ensures SizeOfVarNumber(a) <= SizeOfVarNumber(b)
  {
  }

  /** A header for less payload and smaller fields is no longer. */
  lemma HeaderMonotone(fragIndex: nat, fragCount: nat, length: nat, mtu: nat)
    requires fragIndex < fragCount <= UINT16_MAX && length <= mtu
    ensures HeaderSize(fragIndex, fragCount, length) <= Overhead(mtu)
  {
    var inner, outer := ChildrenSize(fragIndex, fragCount, length), ChildrenSize(UINT16_MAX - 1, UINT16_MAX, mtu);
    VarNumberMonotone(length, mtu);
    assert inner <= outer;
    VarNumberMonotone(inner, outer);
  }

  /** MTU bound: with an MTU above the overhead, no fragment exceeds it, however many pieces the
      packet has. */
  lemma MtuBound(packet: Bytes, mtu: nat, start: nat, i: nat)
    requires Overhead(mtu) < mtu < MAX_PAYLOAD && |packet| < MAX_PAYLOAD
    ensures MaxPayload(mtu) == mtu - Overhead(mtu)
    ensures i < CutCount(packet, MaxPayload(mtu)) ==>
              |Fragment(Fragments(packet, MaxPayload(mtu), start, CutCount(packet, MaxPayload(mtu)))[i])| <= mtu
  {
    var count := CutCount(packet, MaxPayload(mtu));
    if i < count {
      var d := Fragments(packet, MaxPayload(mtu), start, count)[i];
      HeaderMonotone(d.fragIndex, d.fragCount, |d.payload|, mtu);
      ChildrenSizeIs(d.seqNo, d.fragIndex, d.fragCount, d.payload);
    }
  }

  /** The overhead exceeds an MTU below 22, equals one of 22 and is less than any larger one. */
  lemma Threshold(mtu: nat)
    ensures mtu < Overhead(mtu) <==> mtu < 22
    ensures mtu == Overhead(mtu) <==> mtu == 22
  {
    SmallHeader(UINT16_MAX - 1, UINT16_MAX, mtu);
  }

  lemma NoPayload(mtu: nat)
    requires mtu < MAX_PAYLOAD
    ensures MaxPayload(mtu) == 0 <==> mtu == Overhead(mtu)
  {
    SmallHeader(UINT16_MAX - 1, UINT16_MAX, mtu);
  }

  /** With an MTU below the overhead the subtraction wraps and a packet leaves whole. The fragment
      keeps to the MTU exactly when the packet leaves room for the 14 bytes around a single one. */
  lemma MtuTooSmall(packet: Bytes, mtu: nat, start: nat)
    requires mtu < Overhead(mtu) && 0 < |packet| < MAX_PAYLOAD
    ensures MaxPayload(mtu) > |packet| && CutCount(packet, MaxPayload(mtu)) == 1
    ensures |Fragment(Fragments(packet, MaxPayload(mtu), start, 1)[0])| <= mtu <==> |packet| + 14 <= mtu
  {
    SmallHeader(UINT16_MAX - 1, UINT16_MAX, mtu);
    assert mtu < 64;
    SmallQuotient(|packet|, MaxPayload(mtu));
    assert MaxPayload(mtu) == TWO_TO_64 + mtu - Overhead(mtu);
    var d := Fragments(packet, MaxPayload(mtu), start, 1)[0];
    assert d.payload == packet;
    ChildrenSizeIs(d.seqNo, d.fragIndex, d.fragCount, d.payload);
  }

  lemma SmallQuotient(size: nat, m: nat)
    requires 0 < m
    ensures 0 < size < m ==> Pieces(size, m) == 1
  {
  }

  lemma SmallHeader(fragIndex: nat, fragCount: nat, length: nat)
    ensures HeaderSize(fragIndex, fragCount, length) <= 64
  {
  }

  // ----- the cover -----

  function Join(payloads: seq<Bytes>): Bytes {
    if payloads == [] then [] else Join(payloads[..|payloads| - 1]) + payloads[|payloads| - 1]
  }

  function Payloads(ds: seq<NdnlpData>): (ps: seq<Bytes>)
    ensures |ps| == |ds|
  {
    seq(|ds|, i requires 0 <= i < |ds| => ds[i].payload)
  }

  lemma {:induction false} JoinPieces(packet: Bytes, m: nat, start: nat, count: nat, k: nat)
    requires m > 0 && k <= count <= Pieces(|packet|, m)
    ensures var end := if k * m < |packet| then k * m else |packet|;
            Join(Payloads(Fragments(packet, m, start, count))[..k]) == packet[..end]
  {
    var ps := Payloads(Fragments(packet, m, start, count));
    if k > 0 {
      JoinPieces(packet, m, start, count, k - 1);
      PieceStart(|packet|, m, k - 1);
      assert ps[..k][..k - 1] == ps[..k - 1];
      assert ps[k - 1] == Piece(packet, m, k - 1);
      PieceExtends(packet, m, k - 1);
    }
  }

  lemma PieceExtends(packet: Bytes, m: nat, i: nat)
    requires i * m < |packet|
    ensures packet[..i * m] + Piece(packet, m, i) == packet[..if (i + 1) * m < |packet| then (i + 1) * m else |packet|]
  {
    assert (i + 1) * m == i * m + m;
  }

  /** Exact cover: the payloads join to the packet if and only if the ceiling of the quotient
      fits the 16 bits of the count. */
  lemma CoverExact(packet: Bytes, m: nat, start: nat)
    requires m > 0
    ensures Join(Payloads(Fragments(packet, m, start, CutCount(packet, m)))) == packet
            <==> Pieces(|packet|, m) <= UINT16_MAX
  {
    CutTo16(Pieces(|packet|, m));
    CoverWith(packet, m, start, CutCount(packet, m));
  }

  lemma CutTo16(n: nat)
    ensures n % (UINT16_MAX + 1) == n <==> n <= UINT16_MAX
    ensures n % (UINT16_MAX + 1) <= n
  {
  }

  lemma CoverWith(packet: Bytes, m: nat, start: nat, count: nat)
    requires m > 0 && count <= Pieces(|packet|, m)
    ensures Join(Payloads(Fragments(packet, m, start, count))) == packet <==> count == Pieces(|packet|, m)
  {
    Covered(packet, m, start, count);
    if count == Pieces(|packet|, m) {
      LastPieceEnds(|packet|, m);
    } else {
      PieceStart(|packet|, m, count);
    }
  }

  /** The first so many pieces join to the front of the packet. */
  lemma Covered(packet: Bytes, m: nat, start: nat, count: nat)
    requires m > 0 && count <= Pieces(|packet|, m)
    ensures Join(Payloads(Fragments(packet, m, start, count)))
                == packet[..if count * m < |packet| then count * m else |packet|]
  {
    JoinPieces(packet, m, start, count, count);
    var ps := Payloads(Fragments(packet, m, start, count));
    assert ps[..count] == ps;
  }
}
