/** Address prefixes byte by byte, and what they mean for bits and for ranges. */
module IpPrefix {

  type Bytes = seq<bv8>

  /** The table of byte masks: `k` leading ones. */
  function ByteMask(k: nat): bv8
    requires k <= 8
  {
    [0x00, 0x80, 0xc0, 0xe0, 0xf0, 0xf8, 0xfc, 0xfe, 0xff][k]
  }

  /** How many bits of the first byte a prefix of `p` bits covers, and what remains. */
  function Here(p: nat): nat { if p < 8 then p else 8 }

  function Beyond(p: nat): nat { if p < 8 then 0 else p - 8 }

  function MaskedByte(x: bv8, k: nat): bv8
    requires k <= 8
  {
    x & ByteMask(k)
  }

  /** The byte with what the mask leaves free added. */
  function FilledByte(x: bv8, k: nat): bv8
    requires k <= 8
  {
    x + (255 - ByteMask(k))
  }

  function Masked(a: Bytes, p: nat): (r: Bytes)
    ensures |r| == |a|
  {
    if a == [] then [] else [MaskedByte(a[0], Here(p))] + Masked(a[1..], Beyond(p))
  }

  function Ones(n: nat): (r: Bytes)
    ensures |r| == n
  {
    if n == 0 then [] else [0xff] + Ones(n - 1)
  }

  /** Each byte plus what the mask leaves free. */
  function Filled(a: Bytes, p: nat): (r: Bytes)
    ensures |r| == |a|
  {
    if a == [] then [] else [FilledByte(a[0], Here(p))] + Filled(a[1..], Beyond(p))
  }

  predicate Less(x: bv8, y: bv8) {
    x < y
  }

  /** Byte-wise comparison from the front: -1, 0 or 1. */
  function Compared(a: Bytes, b: Bytes): (r: int)
    requires |a| == |b|
    ensures r == -1 || r == 0 || r == 1
  {
    if a == [] then 0
    else if Less(a[0], b[0]) then -1
    else if Less(b[0], a[0]) then 1
    else Compared(a[1..], b[1..])
  }

  // --------------------------------------------------------------------- prefixes

  lemma MaskOnce(x: bv8, k: nat, l: nat)
    requires k <= l <= 8
    ensures MaskedByte(MaskedByte(x, l), k) == MaskedByte(x, k)
  {
  }

  /** A shorter prefix of a prefix is the shorter prefix. */
  lemma {:induction false} MaskedTwice(a: Bytes, p: nat, q: nat)
    requires p <= q
    ensures Masked(Masked(a, q), p) == Masked(a, p)
    decreases |a|
  {
    if a != [] {
      MaskOnce(a[0], Here(p), Here(q));
      MaskedTwice(a[1..], Beyond(p), Beyond(q));
      var m := Masked(a, q);
      hide MaskedByte;
      assert m[0] == MaskedByte(a[0], Here(q)) && m[1..] == Masked(a[1..], Beyond(q));
    }
  }

  lemma RawRange(x: bv8, n: bv8, k: nat)
    requires k <= 8 && n & ByteMask(k) == n
    ensures n <= x <= n + (255 - ByteMask(k)) <==> x & ByteMask(k) == n
    ensures k == 0 ==> n == 0 && n + (255 - ByteMask(k)) == 255
    ensures k == 8 ==> n + (255 - ByteMask(k)) == n
  {
  }

  /** The byte of a range: between the network's byte and that byte filled up. */
  lemma ByteRange(x: bv8, n: bv8, k: nat)
    requires k <= 8 && MaskedByte(n, k) == n
    ensures !Less(x, n) && !Less(FilledByte(n, k), x) <==> MaskedByte(x, k) == n
    ensures k == 0 ==> n == 0 && FilledByte(n, k) == 255
    ensures k == 8 ==> FilledByte(n, k) == n
  {
    RawRange(x, n, k);
    hide ByteMask;
  }

  lemma Trichotomy(x: bv8, y: bv8)
    ensures !Less(x, y) && !Less(y, x) ==> x == y
    ensures !(Less(x, y) && Less(y, x))
  {
  }

  lemma {:induction false} NothingBelowZero(a: Bytes, n: Bytes)
    requires |a| == |n| && Masked(n, 0) == n
    ensures Compared(a, n) >= 0 && Compared(a, Filled(n, 0)) <= 0 && Masked(a, 0) == n
    decreases |a|
  {
    if a != [] {
      assert n[0] == MaskedByte(n[0], 0) && n[1..] == Masked(n[1..], 0);
      ByteRange(a[0], n[0], 0);
      NothingBelowZero(a[1..], n[1..]);
      assert Filled(n, 0)[1..] == Filled(n[1..], 0);
      MaskZero(a[0]);
      MaskZero(n[0]);
    }
  }

  lemma MaskZero(x: bv8)
    ensures MaskedByte(x, 0) == 0
  {
  }

  lemma ComparedStep(a: Bytes, b: Bytes)
    requires |a| == |b| > 0
    ensures Compared(a, b) ==
            if Less(a[0], b[0]) then -1 else if Less(b[0], a[0]) then 1 else Compared(a[1..], b[1..])
  {
  }

  lemma Heads(a: Bytes, p: nat)
    requires a != []
    ensures Masked(a, p)[0] == MaskedByte(a[0], Here(p)) && Masked(a, p)[1..] == Masked(a[1..], Beyond(p))
    ensures Filled(a, p)[0] == FilledByte(a[0], Here(p)) && Filled(a, p)[1..] == Filled(a[1..], Beyond(p))
  {
    hide MaskedByte, FilledByte;
  }

  /** An address lies between the first and the last of a network exactly if its
      prefix is the network's. */
  lemma {:induction false} RangeIsPrefix(a: Bytes, n: Bytes, p: nat)
    requires |a| == |n| && Masked(n, p) == n
    ensures Compared(a, n) >= 0 && Compared(a, Filled(n, p)) <= 0 <==> Masked(a, p) == n
    decreases |a|
  {
    if a != [] {
      hide Compared, Masked, Filled, MaskedByte, FilledByte, Less;
      Trichotomy(a[0], n[0]);
      Trichotomy(a[0], FilledByte(n[0], Here(p)));
      Heads(a, p);
      Heads(n, p);
      ComparedStep(a, n);
      ComparedStep(a, Filled(n, p));
      ByteRange(a[0], n[0], Here(p));
      SameEnds(Masked(a, p), n);
      if Here(p) == 8 {
        RangeIsPrefix(a[1..], n[1..], Beyond(p));
      } else {
        NothingBelowZero(a[1..], n[1..]);
      }
    }
  }

  lemma SameEnds(x: Bytes, y: Bytes)
    requires |x| == |y| > 0
    ensures x == y <==> x[0] == y[0] && x[1..] == y[1..]
  {
    if x[0] == y[0] && x[1..] == y[1..] { assert x == [x[0]] + x[1..]; }
  }

  // --------------------------------------------------------------- byte by byte

  /** How many bits of byte `i` a prefix of `p` bits covers. */
  function Cover(p: nat, i: nat): (k: nat)
    ensures k <= 8
  {
    if p <= 8 * i then 0 else if p >= 8 * i + 8 then 8 else p - 8 * i
  }

  lemma {:induction false} MaskedAt(a: Bytes, p: nat, i: nat)
    requires i < |a|
    ensures Masked(a, p)[i] == MaskedByte(a[i], Cover(p, i))
    ensures Filled(a, p)[i] == FilledByte(a[i], Cover(p, i))
    decreases |a|
  {
    hide MaskedByte, FilledByte;
    if i > 0 { MaskedAt(a[1..], Beyond(p), i - 1); }
  }

  lemma {:induction false} OnesAt(n: nat, i: nat)
    requires i < n
    ensures Ones(n)[i] == 0xff
  {
    if i > 0 { OnesAt(n - 1, i - 1); }
  }

  /** The mask of a network of `p` bits in an address of `n` bytes. */
  function Netmask(n: nat, p: nat): (r: Bytes)
    ensures |r| == n
  {
    Masked(Ones(n), p)
  }

  lemma NetmaskAt(n: nat, p: nat, i: nat)
    requires i < n
    ensures Netmask(n, p)[i] == ByteMask(Cover(p, i))
  {
    MaskedAt(Ones(n), p, i);
    OnesAt(n, i);
    hide ByteMask, Masked, Ones;
    AllOnes(Cover(p, i));
  }

  lemma AllOnes(k: nat)
    requires k <= 8
    ensures MaskedByte(0xff, k) == ByteMask(k)
  {
    hide ByteMask;
  }

  /** Different prefix lengths have different masks. */
  lemma NetmaskOnce(n: nat, p: nat, q: nat)
    requires p < q <= 8 * n
    ensures Netmask(n, p) != Netmask(n, q)
  {
    var i := p / 8;
    NetmaskAt(n, p, i);
    NetmaskAt(n, q, i);
    hide Netmask;
    MaskOnceOnly(Cover(p, i), Cover(q, i));
  }

  lemma MaskOnceOnly(k: nat, l: nat)
    requires k < l <= 8
    ensures ByteMask(k) != ByteMask(l)
  {
  }

  // --------------------------------------------------------------------- the bits

  function BitMask(j: nat): bv8
    requires j < 8
  {
    [0x80, 0x40, 0x20, 0x10, 0x08, 0x04, 0x02, 0x01][j]
  }

  predicate ByteBit(x: bv8, j: nat)
    requires j < 8
  {
    x & BitMask(j) != 0
  }

  /** Bit number `i` of an address, counted from the front. */
  predicate Bit(a: Bytes, i: nat)
    requires i < 8 * |a|
  {
    ByteBit(a[i / 8], i % 8)
  }

  function And(x: bv8, m: bv8): bv8 {
    x & m
  }

  function Or(x: bv8, y: bv8): bv8 {
    x | y
  }

  lemma AndOr(x: bv8, m: bv8, b: bv8)
    ensures And(x, Or(m, b)) == Or(And(x, m), And(x, b))
    ensures And(And(x, Or(m, b)), m) == And(x, m) && And(And(x, Or(m, b)), b) == And(x, b)
  {
  }

  lemma MaskParts(x: bv8, y: bv8, m: bv8, b: bv8)
    ensures And(x, Or(m, b)) == And(y, Or(m, b)) <==> And(x, m) == And(y, m) && And(x, b) == And(y, b)
  {
    hide And, Or;
    AndOr(x, m, b);
    AndOr(y, m, b);
  }

  lemma MaskGrows(k: nat)
    requires k < 8
    ensures ByteMask(k + 1) == Or(ByteMask(k), BitMask(k))
  {
  }

  lemma SingleBit(x: bv8, k: nat)
    requires k < 8
    ensures And(x, BitMask(k)) == if ByteBit(x, k) then BitMask(k) else 0
    ensures BitMask(k) != 0
  {
  }

  lemma MaskedIsAnd(x: bv8, k: nat)
    requires k <= 8
    ensures MaskedByte(x, k) == And(x, ByteMask(k))
  {
    hide ByteMask;
  }

  lemma OneMoreBit(x: bv8, y: bv8, k: nat)
    requires k < 8
    ensures MaskedByte(x, k + 1) == MaskedByte(y, k + 1) <==>
            MaskedByte(x, k) == MaskedByte(y, k) && ByteBit(x, k) == ByteBit(y, k)
  {
    hide ByteMask, BitMask, ByteBit, MaskedByte, And, Or;
    MaskGrows(k);
    MaskParts(x, y, ByteMask(k), BitMask(k));
    SingleBit(x, k);
    SingleBit(y, k);
    MaskedIsAnd(x, k);
    MaskedIsAnd(y, k);
    MaskedIsAnd(x, k + 1);
    MaskedIsAnd(y, k + 1);
  }

  lemma {:induction false} ByteBits(x: bv8, y: bv8, k: nat)
    requires k <= 8
    ensures MaskedByte(x, k) == MaskedByte(y, k) <==> forall j | 0 <= j < k :: ByteBit(x, j) == ByteBit(y, j)
    decreases k
  {
    if k == 0 {
      MaskZero(x);
      MaskZero(y);
    } else {
      OneMoreBit(x, y, k - 1);
      ByteBits(x, y, k - 1);
      hide MaskedByte, ByteBit;
      assert (forall j | 0 <= j < k :: ByteBit(x, j) == ByteBit(y, j)) <==>
             (forall j | 0 <= j < k - 1 :: ByteBit(x, j) == ByteBit(y, j)) && ByteBit(x, k - 1) == ByteBit(y, k - 1);
    }
  }

  ghost predicate SameBits(a: Bytes, b: Bytes, p: nat)
    requires |a| == |b|
  {
    forall i | 0 <= i < p && i < 8 * |a| :: Bit(a, i) == Bit(b, i)
  }

  lemma MaskedGivesBits(a: Bytes, b: Bytes, p: nat, i: nat)
    requires |a| == |b| && Masked(a, p) == Masked(b, p) && i < p && i < 8 * |a|
    ensures Bit(a, i) == Bit(b, i)
  {
    hide MaskedByte, ByteBit, Masked;
    MaskedAt(a, p, i / 8);
    MaskedAt(b, p, i / 8);
    ByteBits(a[i / 8], b[i / 8], Cover(p, i / 8));
  }

  lemma BitsGiveMasked(a: Bytes, b: Bytes, p: nat, k: nat)
    requires |a| == |b| && SameBits(a, b, p) && k < |a|
    ensures Masked(a, p)[k] == Masked(b, p)[k]
  {
    hide MaskedByte, ByteBit, Masked;
    MaskedAt(a, p, k);
    MaskedAt(b, p, k);
    forall j | 0 <= j < Cover(p, k) ensures ByteBit(a[k], j) == ByteBit(b[k], j) {
      var i := 8 * k + j;
      assert i / 8 == k && i % 8 == j && Bit(a, i) == Bit(b, i);
    }
    ByteBits(a[k], b[k], Cover(p, k));
  }

  /** Equal masked addresses are addresses that agree in their first `p` bits. */
  lemma PrefixBits(a: Bytes, b: Bytes, p: nat)
    requires |a| == |b|
    ensures Masked(a, p) == Masked(b, p) <==> SameBits(a, b, p)
  {
    hide Masked, Bit;
    if Masked(a, p) == Masked(b, p) {
      forall i | 0 <= i < p && i < 8 * |a| ensures Bit(a, i) == Bit(b, i) { MaskedGivesBits(a, b, p, i); }
    } else if SameBits(a, b, p) {
      forall k | 0 <= k < |a| ensures Masked(a, p)[k] == Masked(b, p)[k] { BitsGiveMasked(a, b, p, k); }
    }
  }

  // ------------------------------------------------------- what the bits come to

  /** Bit 0 of a byte is its highest. */
  lemma ByteBitIs(x: bv8, j: nat)
    requires j < 8
    ensures ByteBit(x, j) <==> (x >> (7 - j)) & 1 == 1
  {
  }

  lemma MaskedBit(x: bv8, k: nat, j: nat)
    requires k <= 8 && j < 8
    ensures ByteBit(MaskedByte(x, k), j) <==> j < k && ByteBit(x, j)
  {
  }

  lemma FilledBit(x: bv8, k: nat, j: nat)
    requires k <= 8 && j < 8 && MaskedByte(x, k) == x
    ensures ByteBit(FilledByte(x, k), j) <==> j >= k || ByteBit(x, j)
  {
    FilledIsOr(x, k);
    MaskBit(k, j);
    OrBit(x, 255 - ByteMask(k), j);
    hide ByteMask, MaskedByte, FilledByte, ByteBit;
  }

  lemma FilledIsOr(x: bv8, k: nat)
    requires k <= 8 && MaskedByte(x, k) == x
    ensures FilledByte(x, k) == x | (255 - ByteMask(k))
  {
  }

  lemma MaskBit(k: nat, j: nat)
    requires k <= 8 && j < 8
    ensures ByteBit(255 - ByteMask(k), j) <==> j >= k
  {
  }

  lemma OrBit(x: bv8, y: bv8, j: nat)
    requires j < 8
    ensures ByteBit(x | y, j) <==> ByteBit(x, j) || ByteBit(y, j)
  {
  }

  /** Masking keeps the first `p` bits and clears the others. */
  lemma MaskedBits(a: Bytes, p: nat, i: nat)
    requires i < 8 * |a|
    ensures Bit(Masked(a, p), i) <==> i < p && Bit(a, i)
  {
    MaskedAt(a, p, i / 8);
    MaskedBit(a[i / 8], Cover(p, i / 8), i % 8);
    hide ByteBit, MaskedByte, Masked;
  }

  /** The last address of a network has ones behind the prefix. */
  lemma FilledBits(n: Bytes, p: nat, i: nat)
    requires i < 8 * |n| && Masked(n, p) == n
    ensures Bit(Filled(n, p), i) <==> i >= p || Bit(n, i)
  {
    MaskedAt(n, p, i / 8);
    FilledBit(n[i / 8], Cover(p, i / 8), i % 8);
    hide ByteBit, FilledByte, MaskedByte, Masked, Filled;
  }

  /** A netmask is ones, and zeros behind them. */
  lemma NetmaskBits(n: nat, p: nat, i: nat)
    requires i < 8 * n
    ensures Bit(Netmask(n, p), i) <==> i < p
  {
    OnesAt(n, i / 8);
    AllBits(i % 8);
    MaskedBits(Ones(n), p, i);
    hide ByteBit, Masked, Ones;
  }

  lemma AllBits(j: nat)
    requires j < 8
    ensures ByteBit(0xff, j)
  {
  }

  /** The first byte that differs decides. */
  ghost predicate Before(a: Bytes, b: Bytes)
    requires |a| == |b|
  {
    exists i :: 0 <= i < |a| && a[..i] == b[..i] && a[i] < b[i]
  }

  lemma {:induction false} ComparedBefore(a: Bytes, b: Bytes)
    requires |a| == |b|
    ensures Compared(a, b) < 0 <==> Before(a, b)
    ensures Compared(a, b) > 0 <==> Before(b, a)
    decreases |a|
  {
    if a != [] {
      ComparedBefore(a[1..], b[1..]);
      BeforeStep(a, b);
      BeforeStep(b, a);
      hide Before;
    }
  }

  lemma BeforeStep(a: Bytes, b: Bytes)
    requires |a| == |b| > 0
    ensures Before(a, b) <==> a[0] < b[0] || (a[0] == b[0] && Before(a[1..], b[1..]))
  {
    if a[0] < b[0] { assert a[..0] == b[..0]; }
    if a[0] == b[0] && Before(a[1..], b[1..]) {
      var i :| 0 <= i < |a[1..]| && a[1..][..i] == b[1..][..i] && a[1..][i] < b[1..][i];
      assert a[..i + 1] == [a[0]] + a[1..][..i] && b[..i + 1] == [b[0]] + b[1..][..i];
      assert a[i + 1] < b[i + 1];
    }
    if Before(a, b) {
      var i :| 0 <= i < |a| && a[..i] == b[..i] && a[i] < b[i];
      if i > 0 {
        assert a[0] == a[..i][0] && b[0] == b[..i][0];
        assert a[1..][..i - 1] == a[..i][1..] && b[1..][..i - 1] == b[..i][1..];
        assert a[1..][i - 1] < b[1..][i - 1];
      }
    }
  }
}

module IpNetwork {
  import opened IpPrefix

  datatype Family = Unknown | IPv4 | IPv6

  /** An address: a family and its bytes, network order. */
  datatype Address = Address(family: Family, bytes: Bytes)

  datatype Result<T> = Ok(value: T) | InvalidIpAddress | InvalidPrefixLength | InvalidNetworkAddress

  function Rank(f: Family): int {
    match f case Unknown => 0 case IPv4 => 4 case IPv6 => 6
  }

  function Size(f: Family): nat {
    if f == IPv4 then 4 else 16
  }

  predicate IsAddress(a: Address) {
    |a.bytes| == Size(a.family)
  }

  /** Families first, then the bytes. */
  function Compare(a: Address, b: Address): (r: int)
    requires IsAddress(a) && IsAddress(b)
  {
    if Rank(a.family) < Rank(b.family) then -1
    else if Rank(a.family) > Rank(b.family) then 1
    else Compared(a.bytes, b.bytes)
  }

  /** From the last byte to the first: zeros, one masked byte, and the rest as it is. */
  method MaskBytes(a: Bytes, prefixlen: nat) returns (r: Bytes)
    requires |a| > 0 && prefixlen <= 8 * |a|
    ensures r == Masked(a, prefixlen)
  {
    hide MaskedByte, Masked;
    var n := |a|;
    var tmp := new bv8[n](i requires 0 <= i < n => a[i]);
    var byte := n - 1;
    var prange := 8 * byte;
    while byte >= 0
      invariant -1 <= byte < n
      invariant byte >= 0 ==> prange == 8 * byte && prefixlen <= prange + 8
      invariant forall i | 0 <= i <= byte :: tmp[i] == a[i]
      invariant forall i | byte < i < n :: tmp[i] == MaskedByte(a[i], Cover(prefixlen, i))
    {
      if prefixlen > prange {
        MaskNone(a);
        tmp[byte] := MaskedByte(tmp[byte], prefixlen - prange);
        byte := 0;
      } else {
        MaskZero(a[byte]);
        tmp[byte] := 0;
      }
      prange := prange - 8;
      byte := byte - 1;
    }
    r := tmp[..];
    forall i | 0 <= i < n ensures r[i] == Masked(a, prefixlen)[i] { MaskedAt(a, prefixlen, i); }
  }

  lemma MaskNone(a: Bytes)
    ensures forall i | 0 <= i < |a| :: MaskedByte(a[i], 8) == a[i]
  {
  }

  method Mask(a: Address, prefixlen: int) returns (r: Result<Address>)
    requires IsAddress(a)
    ensures r == InvalidIpAddress <==> a.family == Unknown
    ensures r == InvalidPrefixLength <==> a.family != Unknown && !(0 <= prefixlen <= 8 * Size(a.family))
    ensures a.family != Unknown && 0 <= prefixlen <= 8 * Size(a.family) ==>
              r == Ok(Address(a.family, Masked(a.bytes, prefixlen)))
  {
    if a.family == IPv4 {
      if prefixlen < 0 || prefixlen > 32 { return InvalidPrefixLength; }
    } else if a.family == IPv6 {
      if prefixlen < 0 || prefixlen > 128 { return InvalidPrefixLength; }
    } else {
      return InvalidIpAddress;
    }
    var bytes := MaskBytes(a.bytes, prefixlen);
    return Ok(Address(a.family, bytes));
  }

  /** The bytes that can stand where a netmask ends. */
  function ValidateNetmaskByte(byte: bv8): int {
    if byte == 0xfe then 7 else if byte == 0xfc then 6 else if byte == 0xf8 then 5 else if byte == 0xf0 then 4
    else if byte == 0xe0 then 3 else if byte == 0xc0 then 2 else if byte == 0x80 then 1 else if byte == 0 then 0
    else -1
  }

  lemma NetmaskByte(byte: bv8)
    ensures -1 <= ValidateNetmaskByte(byte) <= 7
    ensures ValidateNetmaskByte(byte) >= 0 ==> ByteMask(ValidateNetmaskByte(byte)) == byte
    ensures ValidateNetmaskByte(byte) < 0 && byte != 0xff ==> forall k | 0 <= k <= 8 :: ByteMask(k) != byte
  {
  }

  lemma ByteMaskEnds(k: nat)
    requires k <= 8
    ensures (ByteMask(k) == 0xff <==> k == 8) && (ByteMask(k) == 0 <==> k == 0)
  {
  }

  /** Reads a prefix length off the bytes of a netmask. */
  method PrefixlenFromNetmask(addr: Bytes) returns (r: Result<int>)
    ensures r.Ok? ==> 0 <= r.value <= 8 * |addr| && addr == Netmask(|addr|, r.value)
    ensures !r.Ok? ==> r == InvalidPrefixLength && forall p | 0 <= p :: addr != Netmask(|addr|, p)
  {
    hide ByteMask, Netmask, ValidateNetmaskByte;
    var stage, prefixlen := 0, 0;
    ghost var partial := 0;
    for i := 0 to |addr|
      invariant 0 <= prefixlen <= 8 * i && (stage == 0 || stage == 1)
      invariant stage == 0 ==> prefixlen == 8 * i
      invariant stage == 1 ==> 0 <= partial < i && addr[partial] != 0xff
      invariant forall k | 0 <= k < i :: addr[k] == ByteMask(Cover(prefixlen, k))
      invariant stage == 1 ==> prefixlen < 8 * partial + 8
    {
      var byte := addr[i];
      NetmaskByte(byte);
      ByteMaskEnds(8);
      ByteMaskEnds(0);
      if stage == 0 && byte == 0xff {
        prefixlen := prefixlen + 8;
      } else if stage == 1 && byte != 0 {
        NoNetmaskGoesOn(addr, partial, i);
        return InvalidPrefixLength;
      } else if stage == 0 && byte != 0xff {
        stage := 1;
        partial := i;
        var bits := ValidateNetmaskByte(byte);
        if bits < 0 {
          NoNetmaskByte(addr, i);
          return InvalidPrefixLength;
        }
        prefixlen := prefixlen + bits;
      }
    }
    forall k | 0 <= k < |addr| ensures addr[k] == Netmask(|addr|, prefixlen)[k] { NetmaskAt(|addr|, prefixlen, k); }
    return Ok(prefixlen);
  }

  lemma NoNetmaskGoesOn(addr: Bytes, j: nat, i: nat)
    requires j < i < |addr| && addr[j] != 0xff && addr[i] != 0
    ensures forall p | 0 <= p :: addr != Netmask(|addr|, p)
  {
    hide Netmask;
    forall p | 0 <= p ensures addr != Netmask(|addr|, p) {
      NetmaskAt(|addr|, p, j);
      NetmaskAt(|addr|, p, i);
      ByteMaskEnds(Cover(p, j));
      ByteMaskEnds(Cover(p, i));
    }
  }

  lemma NoNetmaskByte(addr: Bytes, i: nat)
    requires i < |addr| && addr[i] != 0xff && ValidateNetmaskByte(addr[i]) < 0
    ensures forall p | 0 <= p :: addr != Netmask(|addr|, p)
  {
    hide Netmask;
    NetmaskByte(addr[i]);
    forall p | 0 <= p ensures addr != Netmask(|addr|, p) {
      NetmaskAt(|addr|, p, i);
      assert ByteMask(Cover(p, i)) != addr[i];
    }
  }

  method FillBytes(a: Bytes, mask: Bytes, ghost prefixlen: nat) returns (r: Bytes)
    requires mask == Netmask(|a|, prefixlen)
    ensures r == Filled(a, prefixlen)
  {
    hide ByteMask, Masked, Filled, Netmask, MaskedByte;
    var ret := new bv8[|a|](i requires 0 <= i < |a| => a[i]);
    for i := 0 to |a|
      invariant forall k | 0 <= k < i :: ret[k] == Filled(a, prefixlen)[k]
      invariant forall k | i <= k < |a| :: ret[k] == a[k]
    {
      NetmaskAt(|a|, prefixlen, i);
      MaskedAt(a, prefixlen, i);
      ret[i] := ret[i] + (255 - mask[i]);
    }
    assert ret[..] == Filled(a, prefixlen);
    return ret[..];
  }

  class IpNetwork {
    var addr: Address
    var prefixlen: int

    /** Unset, or an address with nothing behind its prefix. */
    ghost predicate Valid()
      reads this
    {
      prefixlen < 0 ||
      (addr.family != Unknown && IsAddress(addr) && prefixlen <= 8 * Size(addr.family)
       && Masked(addr.bytes, prefixlen) == addr.bytes)
    }

    constructor ()
      ensures Valid() && prefixlen == -1
    {
      addr, prefixlen := Address(Unknown, []), -1;
    }

    /** The network of an address; nothing changes if the prefix length is illegal. */
    method Set(other: Address, length: int) returns (r: Result<()>)
      requires Valid() && IsAddress(other)
      modifies this
      ensures Valid()
      ensures r.Ok? <==> other.family != Unknown && 0 <= length <= 8 * Size(other.family)
      ensures r.Ok? ==> prefixlen == length && addr == Address(other.family, Masked(other.bytes, length))
      ensures !r.Ok? ==> addr == old(addr) && prefixlen == old(prefixlen)
    {
      var m := Mask(other, length);
      if !m.Ok? { return if m.InvalidIpAddress? then InvalidIpAddress else InvalidPrefixLength; }
      MaskedTwice(other.bytes, length, length);
      addr, prefixlen := m.value, length;
      return Ok(());
    }

    method First() returns (r: Result<Address>)
      requires Valid()
      ensures r == if prefixlen < 0 then InvalidNetworkAddress else Ok(addr)
    {
      if prefixlen < 0 { return InvalidNetworkAddress; }
      return Ok(addr);
    }

    method MakeNetmask() returns (r: Address)
      requires Valid() && prefixlen >= 0
      ensures r == Address(addr.family, Netmask(Size(addr.family), prefixlen))
    {
      var hbyte := if addr.family == IPv4 then 3 else 15;
      var bytes := MaskBytes(Ones(hbyte + 1), prefixlen);
      return Address(addr.family, bytes);
    }

    method Last() returns (r: Result<Address>)
      requires Valid()
      ensures r == if prefixlen < 0 then InvalidNetworkAddress
                   else Ok(Address(addr.family, Filled(addr.bytes, prefixlen)))
    {
      if prefixlen < 0 { return InvalidNetworkAddress; }
      var mask := MakeNetmask();
      var bytes := FillBytes(addr.bytes, mask.bytes, prefixlen);
      return Ok(Address(addr.family, bytes));
    }

    /** Between first and last is the same as: right family and right prefix. */
    method Contains(a: Address) returns (r: Result<bool>)
      requires Valid() && IsAddress(a)
      ensures prefixlen < 0 ==> r == InvalidNetworkAddress
      ensures prefixlen >= 0 ==> r == Ok(a.family == addr.family && Masked(a.bytes, prefixlen) == addr.bytes)
    {
      hide Masked, Filled, Compared;
      var start := First();
      if !start.Ok? { return InvalidNetworkAddress; }
      var end := Last();
      if a.family == addr.family { RangeIsPrefix(a.bytes, addr.bytes, prefixlen); }
      return Ok(Compare(a, start.value) >= 0 && Compare(a, end.value) <= 0);
    }
  }

  // ------------------------------------------------------- networks among themselves

  predicate IsNetwork(n: Address, p: nat) {
    n.family != Unknown && IsAddress(n) && p <= 8 * Size(n.family) && Masked(n.bytes, p) == n.bytes
  }

  predicate Holds(n: Address, p: nat, a: Address) {
    a.family == n.family && Masked(a.bytes, p) == n.bytes
  }

  /** Two networks that share an address are nested: the longer prefix lies inside. */
  lemma NestedOrDisjoint(n1: Address, p1: nat, n2: Address, p2: nat, x: Address, y: Address)
    requires p1 <= p2 && Holds(n1, p1, x) && Holds(n2, p2, x) && Holds(n2, p2, y)
    ensures Holds(n1, p1, y)
  {
    MaskedTwice(x.bytes, p1, p2);
    MaskedTwice(y.bytes, p1, p2);
  }

  /** What it means in bits to belong to a network. */
  lemma HoldsIsBits(n: Address, p: nat, a: Address)
    requires IsNetwork(n, p) && IsAddress(a)
    ensures Holds(n, p, a) <==> a.family == n.family && SameBits(a.bytes, n.bytes, p)
  {
    hide Masked;
    if a.family == n.family { PrefixBits(a.bytes, n.bytes, p); }
  }

  /** Networks in order: by address, and the larger of two with the same address last. */
  function CompareNetworks(n1: Address, p1: nat, n2: Address, p2: nat): int
    requires IsAddress(n1) && IsAddress(n2)
  {
    var r := Compare(n1, n2);
    if r != 0 then r else if p1 < p2 then 1 else if p1 > p2 then -1 else 0
  }

  lemma {:induction false} ComparedOrder(a: Bytes, b: Bytes, c: Bytes)
    requires |a| == |b| == |c|
    ensures Compared(a, b) == -Compared(b, a)
    ensures Compared(a, b) == 0 <==> a == b
    ensures Compared(a, b) <= 0 && Compared(b, c) <= 0 ==> Compared(a, c) <= 0
    ensures Compared(a, b) <= 0 && Compared(b, c) <= 0 && (Compared(a, b) < 0 || Compared(b, c) < 0) ==> Compared(a, c) < 0
    decreases |a|
  {
    if a != [] {
      ComparedOrder(a[1..], b[1..], c[1..]);
      SameEnds(a, b);
      SameEnds(b, c);
      Trichotomy(a[0], b[0]);
      Trichotomy(b[0], c[0]);
      Trichotomy(a[0], c[0]);
    }
  }

  /** The order of networks is total. */
  lemma NetworkOrder(n1: Address, p1: nat, n2: Address, p2: nat, n3: Address, p3: nat)
    requires IsAddress(n1) && IsAddress(n2) && IsAddress(n3)
    ensures CompareNetworks(n1, p1, n2, p2) == 0 <==> n1 == n2 && p1 == p2
    ensures CompareNetworks(n1, p1, n2, p2) < 0 <==> CompareNetworks(n2, p2, n1, p1) > 0
    ensures CompareNetworks(n1, p1, n2, p2) <= 0 && CompareNetworks(n2, p2, n3, p3) <= 0 ==>
              CompareNetworks(n1, p1, n3, p3) <= 0
  {
    hide Compared;
    if n1.family == n2.family == n3.family {
      ComparedOrder(n1.bytes, n2.bytes, n3.bytes);
    }
    if n1.family == n2.family { ComparedOrder(n1.bytes, n2.bytes, n2.bytes); }
    if n2.family == n3.family { ComparedOrder(n2.bytes, n3.bytes, n3.bytes); }
    if n1.family == n3.family { ComparedOrder(n1.bytes, n3.bytes, n3.bytes); }
  }

  /** IPv4 before IPv6, the smaller address before the larger, and of two networks with the
      same address the one with the longer prefix first. */
  lemma NetworkBefore(n1: Address, p1: nat, n2: Address, p2: nat)
    requires IsAddress(n1) && IsAddress(n2) && n1.family != Unknown && n2.family != Unknown
    ensures CompareNetworks(n1, p1, n2, p2) < 0 <==>
            || (n1.family == IPv4 && n2.family == IPv6)
            || (n1.family == n2.family && Before(n1.bytes, n2.bytes))
            || (n1 == n2 && p1 > p2)
  {
    if n1.family == n2.family {
      ComparedBefore(n1.bytes, n2.bytes);
      ComparedOrder(n1.bytes, n2.bytes, n2.bytes);
    }
    hide Compared, Before;
  }
}
