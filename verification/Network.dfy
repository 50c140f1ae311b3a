/** Address ranges written as an address and a prefix length (section 3.1 of RFC 4632), for the
    4 bytes of IPv4 and the 16 bytes of IPv6. */
module Networks {
  import opened Options

  type Address = seq<bv8>

  // ----- bits and order -----

  /** The i-th bit of a byte, most significant first. */
  function BitAt(i: nat): bv8 {
    if i == 0 then 0x80 else BitAt(i - 1) >> 1
  }

  /** A byte whose first k bits are set. */
  function MaskByte(k: nat): bv8 {
    if k == 0 then 0 else MaskByte(k - 1) | BitAt(k - 1)
  }

  predicate BitOf(b: bv8, i: nat)
    requires i < 8
  {
    b & BitAt(i) != 0
  }

  /** Bit i of an address, from the most significant of the first byte. */
  predicate Bit(bytes: Address, i: nat)
    requires i < 8 * |bytes|
  {
    BitOf(bytes[i / 8], i % 8)
  }

  /** The addresses agree on their first n bits. */
  ghost predicate Agree(a: Address, b: Address, n: nat)
    requires |a| == |b| && n <= 8 * |a|
  {
    forall i :: 0 <= i < n ==> (Bit(a, i) <==> Bit(b, i))
  }

  /** The order of addresses: bytes compared from the first. */
  predicate AtMost(a: Address, b: Address)
    requires |a| == |b|
  {
    a == [] || a[0] < b[0] || (a[0] == b[0] && AtMost(a[1..], b[1..]))
  }

  /** How many of byte j's bits the first n bits take. */
  function Share(n: nat, j: nat): (k: nat)
    ensures k <= 8
  {
    if n <= 8 * j then 0 else if n >= 8 * j + 8 then 8 else n - 8 * j
  }

  function Less8(n: nat): nat { if n < 8 then 0 else n - 8 }

  // ----- bytes under a mask -----

  lemma Difference(a: bv8, x: bv8, m: bv8)
    ensures x & m == a & m <==> (x ^ a) & m == 0
  {
  }

  lemma Halves(d: bv8, m: bv8, bit: bv8)
    ensures d & (m | bit) == 0 <==> d & m == 0 && d & bit == 0
  {
  }

  lemma MaskStep(a: bv8, x: bv8, m: bv8, bit: bv8)
    ensures x & (m | bit) == a & (m | bit) <==> x & m == a & m && x & bit == a & bit
  {
    Difference(a, x, m);
    Difference(a, x, bit);
    Difference(a, x, m | bit);
    Halves(x ^ a, m, bit);
  }

  lemma SingleBit(a: bv8, x: bv8, bit: bv8)
    requires bit & (bit - 1) == 0
    ensures x & bit == a & bit <==> (x & bit != 0 <==> a & bit != 0)
  {
  }

  /** For a mask of leading ones, a byte lies between the masked byte and the byte filled up,
      exactly when it agrees with it under the mask. */
  lemma ByteRange(a: bv8, x: bv8, m: bv8)
    requires !m & (!m + 1) == 0
    ensures a & m <= x <= a | !m <==> x & m == a & m
  {
  }

  lemma BitValues()
    ensures BitAt(0) == 0x80 && BitAt(1) == 0x40 && BitAt(2) == 0x20 && BitAt(3) == 0x10
    ensures BitAt(4) == 0x08 && BitAt(5) == 0x04 && BitAt(6) == 0x02 && BitAt(7) == 0x01
  {
  }

  lemma MaskValues()
    ensures MaskByte(0) == 0 && MaskByte(1) == 0x80 && MaskByte(2) == 0xC0 && MaskByte(3) == 0xE0 && MaskByte(4) == 0xF0
    ensures MaskByte(5) == 0xF8 && MaskByte(6) == 0xFC && MaskByte(7) == 0xFE && MaskByte(8) == 0xFF
  {
    BitValues();
  }

  lemma LeadingOnes(k: nat)
    requires k <= 8
    ensures !MaskByte(k) & (!MaskByte(k) + 1) == 0
  {
    MaskValues();
  }

  lemma OneBit(k: nat)
    requires k < 8
    ensures BitAt(k) & (BitAt(k) - 1) == 0
  {
    BitValues();
  }

  ghost predicate SameBits(a: bv8, x: bv8, k: nat)
    requires k <= 8
  {
    forall i :: 0 <= i < k ==> (BitOf(a, i) <==> BitOf(x, i))
  }

  predicate Alike(a: bv8, x: bv8, m: bv8) {
    x & m == a & m
  }

  lemma AlikeUnder(a: bv8, x: bv8, m: bv8, bit: bv8, wider: bv8)
    requires wider == m | bit
    ensures Alike(a, x, wider) <==> Alike(a, x, m) && Alike(a, x, bit)
  {
    MaskStep(a, x, m, bit);
  }

  lemma MaskedStep(a: bv8, x: bv8, k: nat)
    requires k < 8
    ensures Alike(a, x, MaskByte(k + 1)) <==> Alike(a, x, MaskByte(k)) && Alike(a, x, BitAt(k))
  {
    AlikeUnder(a, x, MaskByte(k), BitAt(k), MaskByte(k + 1));
  }

  lemma AlikeBit(a: bv8, x: bv8, k: nat)
    requires k < 8
    ensures Alike(a, x, BitAt(k)) <==> (BitOf(a, k) <==> BitOf(x, k))
  {
    OneBit(k);
    SingleBit(a, x, BitAt(k));
  }

  lemma {:induction false} MaskedBits(a: bv8, x: bv8, k: nat)
    requires k <= 8
    ensures Alike(a, x, MaskByte(k)) <==> SameBits(a, x, k)
  {
    if k > 0 {
      MaskedBits(a, x, k - 1);
      MaskedStep(a, x, k - 1);
      AlikeBit(a, x, k - 1);
      LastBit(a, x, k);
    } else {
      NoMask(a, x);
    }
  }

  lemma LastBit(a: bv8, x: bv8, k: nat)
    requires 0 < k <= 8
    ensures SameBits(a, x, k) <==> SameBits(a, x, k - 1) && (BitOf(a, k - 1) <==> BitOf(x, k - 1))
  {
  }

  // ----- the range -----

  function And(b: bv8, m: bv8): bv8 { b & m }

  function OrNot(b: bv8, m: bv8): bv8 { b | !m }

  /** `address` with the bits behind the first n cleared, or set. */
  function Low(address: Address, n: nat): (r: Address)
    ensures |r| == |address|
  {
    seq(|address|, j requires 0 <= j < |address| => And(address[j], MaskByte(Share(n, j))))
  }

  function High(address: Address, n: nat): (r: Address)
    ensures |r| == |address|
  {
    seq(|address|, j requires 0 <= j < |address| => OrNot(address[j], MaskByte(Share(n, j))))
  }

  datatype Network = Network(min: Address, max: Address) {
    predicate Contains(x: Address)
      requires |min| == |x| == |max|
    {
      AtMost(min, x) && AtMost(x, max)
    }
  }

  /** 1 << bitIndex. */
  method ShiftedOne(bitIndex: nat) returns (b: bv8)
    requires bitIndex < 8
    ensures b == BitAt(7 - bitIndex)
  {
    b := (1 as bv8) << bitIndex;
    BitValues();
    if bitIndex == 0 {
    } else if bitIndex == 1 {
    } else if bitIndex == 2 {
    } else if bitIndex == 3 {
    } else if bitIndex == 4 {
    } else if bitIndex == 5 {
    } else if bitIndex == 6 {
    } else {
    }
  }

  /** The loop that sets the first bits one by one. An index behind the last byte is a failure:
      the library array does not check it. */
  method BuildMask(n: nat, mask: nat) returns (inside: bool, maskBytes: array<bv8>)
    ensures inside <==> mask <= 8 * n
    ensures inside ==> maskBytes.Length == n && forall j :: 0 <= j < n ==> maskBytes[j] == MaskByte(Share(mask, j))
  {
    maskBytes := new bv8[n](_ => 0);
    for i := 0 to mask
      invariant i <= 8 * n
      invariant forall j :: 0 <= j < n ==> maskBytes[j] == MaskByte(Share(i, j))
    {
      var byteId := i / 8;
      if byteId >= n {
        return false, maskBytes;
      }
      var bitIndex := 7 - i % 8;
      var one := ShiftedOne(bitIndex);
      ShareStep(i, byteId);
      maskBytes[byteId] := maskBytes[byteId] | one;
    }
    inside := true;
  }

  lemma ShareStep(i: nat, byteId: nat)
    requires byteId == i / 8
    ensures Share(i, byteId) == i % 8 && Share(i + 1, byteId) == i % 8 + 1
    ensures forall j: nat :: j != byteId ==> Share(i + 1, j) == Share(i, j)
  {
  }

  /** operator>> on a parsed address and an optional prefix length; none when the prefix length
      exceeds the number of bits. */
  method Read(address: Address, mask: Option<nat>) returns (network: Option<Network>)
    ensures network.None? <==> mask.Some? && mask.value > 8 * |address|
    ensures network.Some? ==>
              var n := if mask.Some? then mask.value else 8 * |address|;
              network.value == Network(Low(address, n), High(address, n))
  {
    if mask.None? {
      FullMask(address);
      return Some(Network(address, address));
    }
    var inside, maskBytes := BuildMask(|address|, mask.value);
    if !inside {
      return None;
    }
    var bounds := Bounds(address, maskBytes, mask.value);
    network := Some(bounds);
  }

  method Bounds(address: Address, maskBytes: array<bv8>, ghost mask: nat) returns (network: Network)
    requires maskBytes.Length == |address| && forall j :: 0 <= j < |address| ==>
                 maskBytes[j] == MaskByte(Share(mask, j))
    ensures network == Network(Low(address, mask), High(address, mask))
  {
    var min, max := [], [];
    for i := 0 to |address|
      invariant min == Low(address, mask)[..i] && max == High(address, mask)[..i]
    {
      min := min + [And(address[i], maskBytes[i])];
      max := max + [OrNot(address[i], maskBytes[i])];
    }
    network := Network(min, max);
  }

  lemma AllOnes(b: bv8)
    ensures b & 0xFF == b && b | !(0xFF as bv8) == b
  {
  }

  lemma FullMask(address: Address)
    ensures Low(address, 8 * |address|) == address && High(address, 8 * |address|) == address
  {
    forall j | 0 <= j < |address|
      ensures Low(address, 8 * |address|)[j] == address[j] && High(address, 8 * |address|)[j] == address[j]
    {
      AllOnes(address[j]);
    }
  }

  // ----- what the range holds -----

  /** Byte by byte: equality under the mask. */
  predicate AgreeMasked(a: Address, x: Address, n: nat)
    requires |a| == |x|
  {
    a == [] || (Alike(a[0], x[0], MaskByte(Share(n, 0))) && AgreeMasked(a[1..], x[1..], Less8(n)))
  }

  lemma {:induction false} MaskedMeansBits(a: Address, x: Address, n: nat)
    requires |a| == |x| && n <= 8 * |a|
    ensures AgreeMasked(a, x, n) <==> Agree(a, x, n)
    decreases |a|
  {
    if a != [] {
      MaskedMeansBits(a[1..], x[1..], Less8(n));
      MaskedBits(a[0], x[0], Share(n, 0));
      AgreeTails(a, x, n);
    }
  }

  lemma AgreeTails(a: Address, x: Address, n: nat)
    requires |a| == |x| > 0 && n <= 8 * |a|
    ensures Agree(a, x, n) <==> SameBits(a[0], x[0], Share(n, 0)) && Agree(a[1..], x[1..], Less8(n))
  {
    if Agree(a, x, n) {
      forall i | 0 <= i < Share(n, 0)
        ensures BitOf(a[0], i) <==> BitOf(x[0], i)
      {
        assert Bit(a, i) <==> Bit(x, i);
      }
      forall i | 0 <= i < Less8(n)
        ensures Bit(a[1..], i) <==> Bit(x[1..], i)
      {
        assert Bit(a, i + 8) <==> Bit(x, i + 8);
      }
    }
    if SameBits(a[0], x[0], Share(n, 0)) && Agree(a[1..], x[1..], Less8(n)) {
      forall i | 0 <= i < n
        ensures Bit(a, i) <==> Bit(x, i)
      {
        if i >= 8 {
          assert Bit(a[1..], i - 8) <==> Bit(x[1..], i - 8);
        }
      }
    }
  }

  /** The first byte, and what is left for the others. */
  lemma Tails(address: Address, n: nat)
    requires address != []
    ensures Low(address, n)[0] == And(address[0], MaskByte(Share(n, 0)))
    ensures High(address, n)[0] == OrNot(address[0], MaskByte(Share(n, 0)))
    ensures Low(address, n)[1..] == Low(address[1..], Less8(n)) && High(address, n)[1..] == High(address[1..], Less8(n))
  {
    assert forall j: nat :: Share(n, j + 1) == Share(Less8(n), j);
  }

  predicate Between(lo: Address, x: Address, hi: Address)
    requires |lo| == |x| == |hi|
  {
    AtMost(lo, x) && AtMost(x, hi)
  }

  lemma FirstByteOrder(lo: bv8, x: bv8, hi: bv8, below: bool, above: bool)
    ensures lo == hi ==> ((lo < x || (lo == x && below)) && (x < hi || (x == hi && above))
                <==> x == lo && below && above)
    ensures below && above ==> ((lo < x || (lo == x && below)) && (x < hi || (x == hi && above)) <==> lo <= x <= hi)
  {
  }

  /** A common first byte is shared by all between. */
  lemma CommonByte(lo: Address, x: Address, hi: Address)
    requires |lo| == |x| == |hi| > 0 && lo[0] == hi[0]
    ensures Between(lo, x, hi) <==> x[0] == lo[0] && Between(lo[1..], x[1..], hi[1..])
  {
    FirstByteOrder(lo[0], x[0], hi[0], AtMost(lo[1..], x[1..]), AtMost(x[1..], hi[1..]));
  }

  /** Free tails leave only the first byte. */
  lemma FreeTails(lo: Address, x: Address, hi: Address)
    requires |lo| == |x| == |hi| > 0 && Between(lo[1..], x[1..], hi[1..])
    ensures Between(lo, x, hi) <==> lo[0] <= x[0] <= hi[0]
  {
    FirstByteOrder(lo[0], x[0], hi[0], AtMost(lo[1..], x[1..]), AtMost(x[1..], hi[1..]));
  }

  lemma {:induction false} AnythingFits(address: Address, x: Address)
    requires |x| == |address|
    ensures Between(Low(address, 0), x, High(address, 0)) && AgreeMasked(address, x, 0)
  {
    if x != [] {
      AnythingFits(address[1..], x[1..]);
      Tails(address, 0);
      FreeTails(Low(address, 0), x, High(address, 0));
      NoMask(address[0], x[0]);
    }
  }

  lemma NoMask(a: bv8, x: bv8)
    ensures a & 0 <= x <= a | !(0 as bv8) && Alike(a, x, 0)
  {
  }

  /** One byte: the range is agreement under the mask. */
  lemma ByteAgrees(a: bv8, x: bv8, k: nat)
    requires k <= 8
    ensures And(a, MaskByte(k)) <= x <= OrNot(a, MaskByte(k)) <==> Alike(a, x, MaskByte(k))
  {
    LeadingOnes(k);
    ByteRange(a, x, MaskByte(k));
  }

  /** A full mask leaves the byte itself. */
  lemma FullByte(a: bv8, x: bv8, m: bv8)
    requires m == 0xFF
    ensures And(a, m) == OrNot(a, m) && (x == And(a, m) <==> Alike(a, x, m))
  {
    AllOnes(a);
    AllOnes(x);
  }

  /** The range of a full first byte, and of a first byte that the prefix ends in. */
  lemma WholeByte(lo: Address, x: Address, hi: Address, a: bv8)
    requires |lo| == |x| == |hi| > 0 && lo[0] == And(a, MaskByte(8)) && hi[0] == OrNot(a, MaskByte(8))
    ensures Between(lo, x, hi) <==> Alike(a, x[0], MaskByte(8)) && Between(lo[1..], x[1..], hi[1..])
  {
    MaskValues();
    FullByte(a, x[0], MaskByte(8));
    CommonByte(lo, x, hi);
  }

  lemma PartByte(lo: Address, x: Address, hi: Address, a: bv8, k: nat)
    requires |lo| == |x| == |hi| > 0 && k <= 8 && lo[0] == And(a, MaskByte(k)) && hi[0] == OrNot(a, MaskByte(k))
    requires Between(lo[1..], x[1..], hi[1..])
    ensures Between(lo, x, hi) <==> Alike(a, x[0], MaskByte(k))
  {
    ByteAgrees(a, x[0], k);
    FreeTails(lo, x, hi);
  }

  lemma {:induction false} RangeMeansMasked(address: Address, n: nat, x: Address)
    requires n <= 8 * |address| && |x| == |address|
    ensures Between(Low(address, n), x, High(address, n)) <==> AgreeMasked(address, x, n)
    decreases |address|
  {
    if address != [] {
      Tails(address, n);
      if n < 8 {
        AnythingFits(address[1..], x[1..]);
        PartByte(Low(address, n), x, High(address, n), address[0], n);
      } else {
        RangeMeansMasked(address[1..], n - 8, x[1..]);
        WholeByte(Low(address, n), x, High(address, n), address[0]);
      }
    }
  }

  /** An address is in the range read from an address and a prefix length exactly when it agrees
      with that address on its first n bits. */
  lemma ContainsMeansPrefix(address: Address, n: nat, x: Address)
    requires n <= 8 * |address| && |x| == |address|
    ensures Network(Low(address, n), High(address, n)).Contains(x) <==> Agree(address, x, n)
  {
    RangeMeansMasked(address, n, x);
    MaskedMeansBits(address, x, n);
  }
}
